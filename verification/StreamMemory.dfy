/**
  The stream, its topics and its members as the objects that the creates, destroys and callbacks write in place:
  each member has its flags and its reference count, the stream its count and its tree of topics, and each topic
  the list of its members with the rotation pointer (Dispatch.Topic). Memory is what these objects hold, as a
  value, and each method is proved to change it as its contract says; StreamRefinement proves that this is what
  the steps of the machine in Lifecycle do. Which step comes next is up to the threads: a method returns what
  decides it. A member is known by a number, its address.
 */
module StreamMemory {
  import opened Wrappers
  import opened Lifecycle
  import Dispatch

  /** The fields of a member; bound is that mTportStream is set. */
  datatype Fields = Fields(topic: Topic, readyCb: bool, bound: bool, destroyed: bool, ready: bool, removed: bool,
                           refCount: int, freed: bool)

  function NewFields(topic: Topic, readyCb: bool): Fields {
    Fields(topic, readyCb, false, false, false, false, 1, false)
  }

  /** The fields of the stream. */
  datatype StreamView = StreamView(ready: bool, refCount: int, topics: set<Topic>, removed: bool, asserted: bool)

  /** All members, the topics of those on a list, and the stream. */
  datatype Memory = Memory(members: map<Id, Fields>, on: map<Id, Topic>, stream: StreamView)

  // ---------------------------------------------------------------------------------------------
  // The objects
  // ---------------------------------------------------------------------------------------------

  class Member {
    const id: Id
    const mTopic: Topic
    const mReadyCb: bool // not NULL
    var bound: bool
    var mDestroyed: bool
    var mReady: bool
    var mRemoved: bool
    var mRefCount: int
    var freed: bool

    constructor (id: Id, topic: Topic, readyCb: bool)
      ensures this.id == id && Is(NewFields(topic, readyCb))
    {
      this.id, mTopic, mReadyCb := id, topic, readyCb;
      bound, mDestroyed, mReady, mRemoved, mRefCount, freed := false, false, false, false, 1, false;
    }

    ghost predicate Is(f: Fields)
      reads this
    {
      f == Fields(mTopic, mReadyCb, bound, mDestroyed, mReady, mRemoved, mRefCount, freed)
    }

    /** sbfSub_ready; whether the callback is to be queued */
    method Ready(ghost f: Fields) returns (enqueue: bool)
      requires Is(f)
      modifies this
      ensures Is(ReadyFields(f)) && enqueue == Notifies(f)
    {
      mReady := true;
      enqueue := !mDestroyed && mReadyCb;
      if enqueue {
        mRefCount := mRefCount + 1;
      }
    }

    /** sbfRefCount_increment */
    method AddRef(ghost f: Fields)
      requires Is(f)
      modifies this
      ensures Is(ReferredFields(f))
    {
      mRefCount := mRefCount + 1;
    }

    /** sbfRefCount_decrement and sbfSubFree */
    method Drop(ghost f: Fields)
      requires Is(f)
      modifies this
      ensures Is(DroppedFields(f))
    {
      mRefCount := mRefCount - 1;
      if mRefCount == 0 {
        freed := true;
      }
    }
  }

  predicate Notifies(f: Fields) {
    !f.destroyed && f.readyCb
  }

  function ReadyFields(f: Fields): Fields {
    f.(ready := true, refCount := f.refCount + if Notifies(f) then 1 else 0)
  }

  function ReferredFields(f: Fields): Fields {
    f.(refCount := f.refCount + 1)
  }

  function DroppedFields(f: Fields): Fields {
    f.(refCount := f.refCount - 1, freed := f.freed || f.refCount == 1)
  }

  ghost predicate ListIs(subs: seq<Id>, t: Topic, on: map<Id, Topic>) {
    forall m :: m in subs <==> m in on && on[m] == t
  }

  /** struct sbfTportStreamImpl: the count, the tree of topics and in it the lists of members */
  class TportStream {
    var mReady: bool
    var mRefCount: int
    var mTopics: map<Topic, Dispatch.Topic>
    var removed: bool  // from the list of the transport
    var asserted: bool // the assertion of sbfTport_removeTopic has failed
    ghost var on: map<Id, Topic> // the members on a list, with their topics

    /** The list of a topic has exactly the members on that topic, and its rotation pointer is NULL or one of them. */
    ghost predicate Valid()
      reads this, mTopics.Values
    {
      && (forall t :: t in mTopics ==>
            mTopics[t].name == t && mTopics[t].Valid() && ListIs(mTopics[t].subs, t, on))
      && forall m :: m in on ==> on[m] in mTopics
    }

    ghost function View(): StreamView
      reads this
    {
      StreamView(mReady, mRefCount, mTopics.Keys, removed, asserted)
    }

    constructor ()
      ensures Valid() && View() == StreamView(false, 0, {}, false, false) && on == map[] && mTopics == map[]
    {
      mReady, mRefCount, mTopics, removed, asserted := false, 0, map[], false, false;
      on := map[];
    }

    /** sbfTport_findTopic and sbfTport_addTopic */
    method EnsureTopic(topic: Topic) returns (ttopic: Dispatch.Topic)
      requires Valid()
      modifies this`mTopics, this`mRefCount
      ensures Valid() && fresh(mTopics.Values - old(mTopics.Values))
      ensures topic in mTopics && ttopic == mTopics[topic]
      ensures mTopics.Keys == old(mTopics.Keys) + {topic}
      ensures mRefCount == old(mRefCount) + if topic in old(mTopics) then 0 else 1
    {
      if topic in mTopics {
        return mTopics[topic];
      }
      ttopic := new Dispatch.Topic(topic);
      mTopics := mTopics[topic := ttopic];
      mRefCount := mRefCount + 1;
    }

    /** TAILQ_INSERT_TAIL */
    method Insert(m: Id, ttopic: Dispatch.Topic)
      requires Valid() && m !in on && ttopic.name in mTopics && ttopic == mTopics[ttopic.name]
      modifies this`on, ttopic`subs
      ensures Valid() && on == old(on)[m := ttopic.name]
    {
      ttopic.Insert(m);
      on := on[m := ttopic.name];
    }

    /** sbfSubAddEventCb, up to sbfSub_ready */
    method AddEventCb(m: Id, topic: Topic)
      requires Valid() && m !in on
      modifies this, mTopics.Values
      ensures Valid() && fresh(mTopics.Values - old(mTopics.Values)) && on == old(on)[m := topic]
      ensures View() == AddedView(old(View()), topic)
    {
      var ttopic := EnsureTopic(topic);
      Insert(m, ttopic);
      mRefCount := mRefCount - 1;
    }

    /** The traversal of sbfSubAddStreamCompleteCb: the members of all lists */
    method Traverse() returns (order: seq<Id>)
      requires Valid()
      ensures Lists(order, on.Keys)
    {
      order := [];
      var left := mTopics.Keys;
      while left != {}
        invariant left <= mTopics.Keys && Distinct(order)
        invariant forall m :: m in order <==> m in on && on[m] !in left
        decreases |left|
      {
        var t :| t in left;
        DistinctConcat(order, mTopics[t].subs);
        order := order + mTopics[t].subs;
        left := left - {t};
      }
    }

    /** TAILQ_REMOVE and TAILQ_EMPTY */
    method Remove(m: Id, ttopic: Dispatch.Topic) returns (empty: bool)
      requires Valid() && m in on && ttopic == mTopics[on[m]]
      modifies this`on, ttopic`subs, ttopic`next
      ensures Valid() && on == old(on) - {m}
      ensures empty <==> forall x :: x in on ==> on[x] != old(on)[m]
    {
      Dispatch.WithoutOne(ttopic.subs, m);
      ttopic.Remove(m);
      on := on - {m};
      empty := ttopic.subs == [];
      assert !empty ==> ttopic.subs[0] in ttopic.subs;
    }

    /** sbfTport_removeTopic */
    method RemoveTopic(topic: Topic) returns (empty: bool)
      requires Valid() && forall x :: x in on ==> on[x] != topic
      modifies this`mTopics, this`mRefCount, this`asserted
      ensures Valid() && mTopics.Values <= old(mTopics.Values)
      ensures View() == WithoutView(old(View()), topic) && (empty <==> mRefCount == 0)
    {
      mRefCount := mRefCount - 1;
      empty := mRefCount == 0;
      mTopics := mTopics - {topic};
      if empty && mTopics != map[] {
        asserted := true;
      }
    }

    /** sbfSubRemoveEventCb for a member that is ready, up to the lock; whether the count is to be looked at again */
    method RemoveEventCb(m: Id, topic: Topic) returns (empty: bool)
      requires Valid() && m in on && on[m] == topic
      modifies this, mTopics.Values
      ensures Valid() && mTopics.Values <= old(mTopics.Values) && on == old(on) - {m}
      ensures View() == RemovedView(old(View()), old(on), m) && (empty <==> LastOfTopic(old(on), m) && mRefCount == 0)
    {
      var ttopic := mTopics[topic];
      empty := Remove(m, ttopic);
      if empty {
        empty := RemoveTopic(ttopic.name);
      }
    }
  }

  lemma DistinctConcat<T>(xs: seq<T>, ys: seq<T>)
    requires Distinct(xs) && Distinct(ys) && forall x :: x in xs ==> x !in ys
    ensures Distinct(xs + ys)
  {
    forall i, j | 0 <= i < j < |xs + ys| ensures (xs + ys)[i] != (xs + ys)[j] {
      assert i < |xs| <= j ==> xs[i] in xs && ys[j - |xs|] in ys;
    }
  }

  /** No other member is on a list with the member's topic. */
  ghost predicate LastOfTopic(on: map<Id, Topic>, m: Id)
    requires m in on
  {
    forall x :: x in on && x != m ==> on[x] != on[m]
  }

  function AddedView(v: StreamView, t: Topic): StreamView {
    v.(topics := v.topics + {t}, refCount := v.refCount + (if t in v.topics then 0 else 1) - 1)
  }

  function WithoutView(v: StreamView, t: Topic): StreamView {
    v.(topics := v.topics - {t}, refCount := v.refCount - 1,
       asserted := v.asserted || (v.refCount == 1 && v.topics - {t} != {}))
  }

  ghost function RemovedView(v: StreamView, on: map<Id, Topic>, m: Id): StreamView
    requires m in on
  {
    if LastOfTopic(on, m) then WithoutView(v, on[m]) else v
  }

  // ---------------------------------------------------------------------------------------------
  // The functions of the source
  // ---------------------------------------------------------------------------------------------

  /** What is left of a remove callback. */
  datatype Then = Deferred | LookAgain | DropIt

  function WithField(v: Memory, m: Id, f: Fields): Memory {
    v.(members := v.members[m := f])
  }

  function MadeMemory(v: Memory, m: Id, topic: Topic, readyCb: bool): Memory {
    WithField(v, m, NewFields(topic, readyCb))
  }

  function CountedMemory(v: Memory): Memory {
    v.(stream := v.stream.(refCount := v.stream.refCount + 1))
  }

  function AddedMemory(v: Memory, m: Id): Memory
    requires m in v.members
  {
    v.(on := v.on[m := v.members[m].topic], stream := AddedView(v.stream, v.members[m].topic))
  }

  ghost function RemovedMemory(v: Memory, m: Id): Memory
    requires m in v.members && (v.members[m].ready ==> m in v.on)
  {
    if v.members[m].ready then v.(on := v.on - {m}, stream := RemovedView(v.stream, v.on, m))
    else WithField(v, m, v.members[m].(removed := true))
  }

  function CompletedMemory(v: Memory, ok: bool): Memory {
    if ok then v.(stream := v.stream.(ready := true)) else v
  }

  function RecheckedMemory(v: Memory): Memory {
    v.(stream := v.stream.(removed := v.stream.removed || v.stream.refCount == 0))
  }

  /** The members by their addresses, and the stream. */
  class Tport {
    var members: map<Id, Member>
    const stream: TportStream
    ghost var view: map<Id, Fields>

    ghost predicate Valid()
      reads this, members.Values, stream, stream.mTopics.Values
    {
      && (forall m :: m in members ==> m in view)
      && (forall m :: m in view ==> m in members && members[m].id == m && members[m].Is(view[m]))
      && stream.Valid()
    }

    ghost function View(): Memory
      reads this, stream
    {
      Memory(view, stream.on, stream.View())
    }

    constructor ()
      ensures Valid() && View() == Memory(map[], map[], StreamView(false, 0, {}, false, false))
      ensures fresh(stream) && members == map[] && stream.mTopics == map[]
    {
      members, view := map[], map[];
      stream := new TportStream();
    }

    /** sbfSub_create up to the lock */
    method Create(m: Id, topic: Topic, readyCb: bool)
      requires Valid() && m !in View().members
      modifies this`members, this`view
      ensures Valid() && fresh(members.Values - old(members.Values))
      ensures View() == MadeMemory(old(View()), m, topic, readyCb)
    {
      var sub := new Member(m, topic, readyCb);
      members := members[m := sub];
      view := view[m := NewFields(topic, readyCb)];
    }

    /** The assignment of mTportStream ... */
    method Bind(m: Id)
      requires Valid() && m in View().members
      modifies this`view, members[m]
      ensures Valid() && View() == WithField(old(View()), m, old(View()).members[m].(bound := true))
    {
      members[m].bound := true;
      view := view[m := view[m].(bound := true)];
    }

    /** ... and the increment in sbfSubSetStream */
    method CountStream()
      requires Valid()
      modifies stream`mRefCount
      ensures Valid() && View() == CountedMemory(old(View()))
    {
      stream.mRefCount := stream.mRefCount + 1;
    }

    /** The flag that sbfSub_destroy sets */
    method SetDestroyed(m: Id)
      requires Valid() && m in View().members
      modifies this`view, members[m]
      ensures Valid() && View() == WithField(old(View()), m, old(View()).members[m].(destroyed := true))
    {
      members[m].mDestroyed := true;
      view := view[m := view[m].(destroyed := true)];
    }

    /** sbfSubAddEventCb; whether sbfSub_ready is next */
    method AddEventCb(m: Id) returns (makeReady: bool)
      requires Valid() && m in View().members && m !in View().on
      modifies stream, stream.mTopics.Values
      ensures Valid() && fresh(stream.mTopics.Values - old(stream.mTopics.Values))
      ensures View() == AddedMemory(old(View()), m) && makeReady == View().stream.ready
    {
      stream.AddEventCb(m, members[m].mTopic);
      makeReady := stream.mReady;
    }

    /** The completion callback up to its traversal, and what that goes over */
    method Complete(ok: bool) returns (order: seq<Id>)
      requires Valid()
      modifies stream`mReady
      ensures Valid() && View() == CompletedMemory(old(View()), ok) && Lists(order, View().on.Keys)
    {
      order := stream.Traverse();
      if ok {
        stream.mReady := true;
      }
    }

    /** sbfSub_ready; whether a callback is queued */
    method Ready(m: Id) returns (enqueue: bool)
      requires Valid() && m in View().members
      modifies this`view, members[m]
      ensures Valid() && View() == WithField(old(View()), m, ReadyFields(old(View()).members[m]))
      ensures enqueue == Notifies(old(View()).members[m])
    {
      enqueue := members[m].Ready(view[m]);
      view := view[m := ReadyFields(view[m])];
    }

    method Defer(m: Id)
      requires Valid() && m in View().members
      modifies this`view, members[m]
      ensures Valid() && View() == WithField(old(View()), m, old(View()).members[m].(removed := true))
    {
      members[m].mRemoved := true;
      view := view[m := view[m].(removed := true)];
    }

    /** sbfSubRemoveEventCb, up to the lock */
    method RemoveEventCb(m: Id) returns (then_: Then)
      requires Valid() && m in View().members
      requires View().members[m].ready ==> m in View().on && View().on[m] == View().members[m].topic
      modifies this`view, members[m], stream, stream.mTopics.Values
      ensures Valid() && stream.mTopics.Values <= old(stream.mTopics.Values)
      ensures View() == RemovedMemory(old(View()), m)
      ensures then_ == if !old(View()).members[m].ready then Deferred
                       else if LastOfTopic(old(View()).on, m) && View().stream.refCount == 0 then LookAgain else DropIt
    {
      var sub := members[m];
      if !sub.mReady {
        Defer(m);
        return Deferred;
      }
      var empty := stream.RemoveEventCb(m, sub.mTopic);
      then_ := if empty then LookAgain else DropIt;
    }

    /** The second look of sbfSubRemoveEventCb, under the lock */
    method RemoveStreamIfUnused()
      requires Valid()
      modifies stream`removed
      ensures Valid() && View() == RecheckedMemory(old(View()))
    {
      if stream.mRefCount == 0 {
        stream.removed := true;
      }
    }

    /** sbfRefCount_increment in sbfSub_message */
    method AddRef(m: Id)
      requires Valid() && m in View().members
      modifies this`view, members[m]
      ensures Valid() && View() == WithField(old(View()), m, ReferredFields(old(View()).members[m]))
    {
      members[m].AddRef(view[m]);
      view := view[m := ReferredFields(view[m])];
    }

    method Drop(m: Id)
      requires Valid() && m in View().members
      modifies this`view, members[m]
      ensures Valid() && View() == WithField(old(View()), m, DroppedFields(old(View()).members[m]))
    {
      members[m].Drop(view[m]);
      view := view[m := DroppedFields(view[m])];
    }
  }
}
