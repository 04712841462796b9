/**
  The life of one stream and of the publishers or subscribers on it (src/transport/sbfPub.c,
  src/transport/sbfSub.c, src/transport/sbfTportPrivate.h), from the create that makes the stream until it is
  removed. A member is a publisher or a subscriber; the stream carries one kind.

  Any number of application threads create and destroy members, one thread runs the events of the stream in
  the order they are queued, and application queues run the callbacks. Steps interleave in any order. A step
  of the event thread touches the shared reference count at most once as far as anybody else can see: nobody
  else reads it. A flag of the members (mReady, mDestroyed, mRemoved and the places that a create has reached)
  is the set of members that have it. The handler reports completion whenever it likes, and the traversal in
  the completion callback runs over the lists as they are when it starts.
 */
module Lifecycle {
  import opened Wrappers

  type Id = nat
  type Topic = nat

  datatype Lock = Free | HeldBy(m: Id)

  datatype Completion = Waiting | Succeeded | Failed

  datatype Event = AddEvent(m: Id) | RemoveEvent(m: Id)

  /** What the event thread is about to do, before it goes on with a traversal or takes the next event. */
  datatype Now = Nothing | Add(m: Id) | MakeReady(m: Id) | Remove(m: Id) | Recheck(m: Id) | Release(m: Id) | Deliver(m: Id)

  /** The application side: the members, mStreamsLock and how far creates and destroys have come. */
  datatype Api = Api(
    topicOf: map<Id, Topic>,
    notify: set<Id>,   // with a ready callback
    lock: Lock,
    found: set<Id>,    // the add event is queued, or the stream was added for it
    bound: set<Id>, // mTportStream is set
    counted: set<Id>,  // the stream's reference count was incremented
    created: set<Id>,  // the lock was released
    destroyed: set<Id>,
    premature: set<Id>, // destroyed before the lock was released: by one of its own callbacks
    posted: set<Id>)   // the remove event is queued

  /** What the event thread has done to the members. */
  datatype Marks = Marks(
    added: set<Id>,
    ready: set<Id>,
    deferred: set<Id>, // mRemoved
    unlinked: set<Id>, // taken off the list of its topic
    released: set<Id>) // its own reference was dropped

  datatype Stream = Stream(
    creator: Option<Id>,
    completion: Completion,
    refcount: int,
    topics: set<Topic>,
    removed: bool,
    asserted: bool,    // the assertion of sbfTport_removeTopic has failed
    hurried: bool)     // when the last topic went, an added member was not yet counted

  /** The queued events, the current callback and the rest of a traversal. */
  datatype Work = Work(events: seq<Event>, now: Now, visiting: Option<Id>, pending: seq<Id>)

  /**
    The members' own reference counts and the callbacks that hold some of them: those in the queues, those that
    have seen their member not destroyed and are about to call the user, and the others that have begun. The
    calls of the user's callbacks are counted.
   */
  datatype Refs = Refs(count: map<Id, int>, queue: multiset<Id>, cleared: multiset<Id>, running: multiset<Id>,
                       freed: set<Id>, calls: multiset<Id>)

  datatype State = State(api: Api, marks: Marks, stream: Stream, work: Work, refs: Refs)

  /** One choice of the scheduler. A choice that is not possible leaves the state alone. */
  datatype Action =
    | Begin(m: Id, topic: Topic, notify: bool)
    | Find(m: Id)
    | Bind(m: Id)
    | Count(m: Id)
    | Finish(m: Id)
    | Destroy(m: Id)
    | Post(m: Id)
    | Complete(ok: bool, order: seq<Id>)
    | Take
    | Go
    | Message(m: Id, bypass: bool)
    | Start(m: Id)
    | Call(m: Id)
    | End(m: Id)

  function Initial(): State {
    State(Api(map[], {}, Free, {}, {}, {}, {}, {}, {}, {}), Marks({}, {}, {}, {}, {}),
          Stream(None, Waiting, 0, {}, false, false, false), Work([], Nothing, None, []),
          Refs(map[], multiset{}, multiset{}, multiset{}, {}, multiset{}))
  }

  // ---------------------------------------------------------------------------------------------
  // Application threads
  // ---------------------------------------------------------------------------------------------

  /** The member is made and the lock taken. A removed stream is not found any more. */
  function BeginStep(s: State, m: Id, topic: Topic, notify: bool): State {
    if m in s.api.topicOf || s.api.lock != Free || s.stream.removed then s
    else s.(api := s.api.(topicOf := s.api.topicOf[m := topic],
                          notify := if notify then s.api.notify + {m} else s.api.notify - {m},
                          lock := HeldBy(m)),
            refs := s.refs.(count := s.refs.count[m := 1]))
  }

  /** mFindStream, and then either the add event or sbfTport_addStream */
  function FindStep(s: State, m: Id): State {
    if s.api.lock != HeldBy(m) || m in s.api.found then s
    else
      var api := s.api.(found := s.api.found + {m});
      if s.stream.creator.None? then s.(api := api, stream := s.stream.(creator := Some(m)))
      else s.(api := api, work := s.work.(events := s.work.events + [AddEvent(m)]))
  }

  function BindStep(s: State, m: Id): State {
    if s.api.lock != HeldBy(m) || m !in s.api.found then s
    else s.(api := s.api.(bound := s.api.bound + {m}))
  }

  function CountStep(s: State, m: Id): State {
    if s.api.lock != HeldBy(m) || m !in s.api.bound || m in s.api.counted then s
    else s.(api := s.api.(counted := s.api.counted + {m}), stream := s.stream.(refcount := s.stream.refcount + 1))
  }

  function FinishStep(s: State, m: Id): State {
    if s.api.lock != HeldBy(m) || m !in s.api.counted then s
    else s.(api := s.api.(created := s.api.created + {m}, lock := Free))
  }

  /** The application has the member from its create, or before that from one of its callbacks. */
  function DestroyStep(s: State, m: Id): State {
    if m in s.api.destroyed || (m !in s.api.created && m !in s.refs.calls) then s
    else s.(api := s.api.(destroyed := s.api.destroyed + {m},
                          premature := if m in s.api.created then s.api.premature else s.api.premature + {m}))
  }

  function PostStep(s: State, m: Id): State {
    if m !in s.api.destroyed || m in s.api.posted then s
    else s.(api := s.api.(posted := s.api.posted + {m}), work := s.work.(events := s.work.events + [RemoveEvent(m)]))
  }

  // ---------------------------------------------------------------------------------------------
  // The event thread
  // ---------------------------------------------------------------------------------------------

  predicate IsIdle(w: Work) {
    w.now.Nothing? && w.visiting.None? && w.pending == []
  }

  /** sbfSubEnsureStream does not have to wait for the lock. */
  predicate Ensured(api: Api, m: Id) {
    m in api.bound || api.lock == Free
  }

  function Listed(s: State): set<Id> {
    s.marks.added - s.marks.unlinked
  }

  predicate Lists(order: seq<Id>, ms: set<Id>) {
    Distinct(order) && (forall m :: m in order ==> m in ms) && (forall m :: m in ms ==> m in order)
  }

  /** The completion callback, up to its traversal. */
  function CompleteStep(s: State, ok: bool, order: seq<Id>): State {
    if !IsIdle(s.work) || s.stream.completion != Waiting || s.stream.creator.None? then s
    else if !Ensured(s.api, s.stream.creator.value) || !Lists(order, Listed(s)) then s
    else if !ok then s.(stream := s.stream.(completion := Failed))
    else s.(stream := s.stream.(completion := Succeeded),
            work := s.work.(pending := order + [s.stream.creator.value]))
  }

  function TakeStep(s: State): State {
    if !IsIdle(s.work) || s.work.events == [] then s
    else
      var e := s.work.events[0];
      s.(work := s.work.(events := s.work.events[1..], now := if e.AddEvent? then Add(e.m) else Remove(e.m)))
  }

  /** The traversal goes on, or the deferred remove of the member just visited runs. */
  function VisitStep(s: State): State {
    if s.work.visiting.Some? then
      var m := s.work.visiting.value;
      s.(work := s.work.(visiting := None, now := if m in s.marks.deferred then Remove(m) else Nothing))
    else if s.work.pending != [] then
      var m := s.work.pending[0];
      s.(work := s.work.(visiting := Some(m), pending := s.work.pending[1..],
                         now := if s.stream.creator == Some(m) then Add(m) else MakeReady(m)))
    else s
  }

  /** The add callback: sbfTport_addTopic increments for a new topic, the reference of the create goes. */
  function AddStep(s: State, m: Id): State {
    if !Ensured(s.api, m) || m !in s.api.topicOf then s
    else
      var t := s.api.topicOf[m];
      s.(marks := s.marks.(added := s.marks.added + {m}),
         stream := s.stream.(topics := s.stream.topics + {t},
                             refcount := s.stream.refcount + (if t in s.stream.topics then 0 else 1) - 1),
         work := s.work.(now := if s.stream.completion.Succeeded? then MakeReady(m) else Nothing))
  }

  /** One more callback for the member in an application queue. */
  function Enqueued(r: Refs, m: Id): Refs {
    if m in r.count then r.(count := r.count[m := r.count[m] + 1], queue := r.queue[m := r.queue[m] + 1]) else r
  }

  /** sbfRefCount_decrement and the free at 0 */
  function Dropped(r: Refs, m: Id): Refs {
    if m in r.count then
      r.(count := r.count[m := r.count[m] - 1], freed := if r.count[m] == 1 then r.freed + {m} else r.freed)
    else r
  }

  function MakeReadyStep(s: State, m: Id): State {
    s.(marks := s.marks.(ready := s.marks.ready + {m}),
       refs := if m !in s.api.destroyed && m in s.api.notify then Enqueued(s.refs, m) else s.refs,
       work := s.work.(now := Nothing))
  }

  predicate OnlyOfItsTopic(s: State, m: Id) {
    m in s.api.topicOf &&
    forall x :: x in Listed(s) && x != m && x in s.api.topicOf ==> s.api.topicOf[x] != s.api.topicOf[m]
  }

  /** The remove callback: deferred before the member is ready, else it is unlinked and its topic may go. */
  function RemoveStep(s: State, m: Id): State {
    if m !in s.marks.ready then
      s.(marks := s.marks.(deferred := s.marks.deferred + {m}), work := s.work.(now := Nothing))
    else
      var marks := s.marks.(unlinked := s.marks.unlinked + {m});
      if OnlyOfItsTopic(s, m) then
        var stream := WithoutTopic(s.stream, s.api.topicOf[m], Early(s) != {});
        s.(marks := marks, stream := stream,
           work := s.work.(now := if stream.refcount == 0 then Recheck(m) else Release(m)))
      else s.(marks := marks, work := s.work.(now := Release(m)))
  }

  /** Members that hold the stream until their add event has run. */
  function Owing(s: State): set<Id> {
    s.api.counted - s.marks.added
  }

  /** Members whose add event has run before the create came to its increment. */
  function Early(s: State): set<Id> {
    s.marks.added - s.api.counted
  }

  /** sbfTport_removeTopic */
  function WithoutTopic(st: Stream, t: Topic, early: bool): Stream {
    var left := st.topics - {t};
    st.(refcount := st.refcount - 1, topics := left, asserted := st.asserted || (st.refcount - 1 == 0 && left != {}),
        hurried := if left == {} then early else st.hurried)
  }

  /** Under the lock: the stream goes if its reference count is still 0. */
  function RecheckStep(s: State, m: Id): State {
    if s.api.lock != Free then s
    else s.(stream := s.stream.(removed := s.stream.removed || s.stream.refcount == 0), work := s.work.(now := Release(m)))
  }

  function ReleaseStep(s: State, m: Id): State {
    s.(marks := s.marks.(released := s.marks.released + {m}), refs := Dropped(s.refs, m), work := s.work.(now := Nothing))
  }

  function GoStep(s: State): State {
    match s.work.now
    case Nothing => VisitStep(s)
    case Add(m) => AddStep(s, m)
    case MakeReady(m) => MakeReadyStep(s, m)
    case Remove(m) => RemoveStep(s, m)
    case Recheck(m) => RecheckStep(s, m)
    case Release(m) => ReleaseStep(s, m)
    case Deliver(m) => DeliverStep(s, m)
  }

  /** The event thread calls the user's callback itself. */
  function DeliverStep(s: State, m: Id): State {
    s.(refs := s.refs.(calls := s.refs.calls[m := s.refs.calls[m] + 1]), work := s.work.(now := Nothing))
  }

  /** sbfSub_message up to the call: a message for a member on a list, while the event thread is between events. */
  function MessageStep(s: State, m: Id, bypass: bool): State {
    if !IsIdle(s.work) || m !in Listed(s) || m in s.api.destroyed then s
    else if bypass then s.(work := s.work.(now := Deliver(m)))
    else s.(refs := Enqueued(s.refs, m))
  }

  // ---------------------------------------------------------------------------------------------
  // Application queues
  // ---------------------------------------------------------------------------------------------

  /** A queue callback begins and looks at mDestroyed. */
  function StartStep(s: State, m: Id): State {
    if m !in s.refs.queue then s
    else
      var r := s.refs.(queue := s.refs.queue[m := s.refs.queue[m] - 1]);
      s.(refs := if m in s.api.destroyed then r.(running := r.running[m := r.running[m] + 1])
                 else r.(cleared := r.cleared[m := r.cleared[m] + 1]))
  }

  /** It calls the user's callback if the member was not destroyed then. */
  function CallStep(s: State, m: Id): State {
    if m !in s.refs.cleared then s
    else s.(refs := s.refs.(cleared := s.refs.cleared[m := s.refs.cleared[m] - 1],
                            running := s.refs.running[m := s.refs.running[m] + 1],
                            calls := s.refs.calls[m := s.refs.calls[m] + 1]))
  }

  /** It ends and drops its reference. */
  function EndStep(s: State, m: Id): State {
    if m !in s.refs.running then s
    else s.(refs := Dropped(s.refs.(running := s.refs.running[m := s.refs.running[m] - 1]), m))
  }

  function Step(s: State, a: Action): State {
    match a
    case Begin(m, topic, notify) => BeginStep(s, m, topic, notify)
    case Find(m) => FindStep(s, m)
    case Bind(m) => BindStep(s, m)
    case Count(m) => CountStep(s, m)
    case Finish(m) => FinishStep(s, m)
    case Destroy(m) => DestroyStep(s, m)
    case Post(m) => PostStep(s, m)
    case Complete(ok, order) => CompleteStep(s, ok, order)
    case Take => TakeStep(s)
    case Go => GoStep(s)
    case Message(m, bypass) => MessageStep(s, m, bypass)
    case Start(m) => StartStep(s, m)
    case Call(m) => CallStep(s, m)
    case End(m) => EndStep(s, m)
  }

  // ---------------------------------------------------------------------------------------------
  // One member
  // ---------------------------------------------------------------------------------------------

  datatype Own = NothingOwn | AddOwn | ReadyOwn | RemoveOwn | RecheckOwn | ReleaseOwn | DeliverOwn

  function OwnOf(now: Now, m: Id): Own {
    match now
    case Nothing => NothingOwn
    case Add(x) => if x == m then AddOwn else NothingOwn
    case MakeReady(x) => if x == m then ReadyOwn else NothingOwn
    case Remove(x) => if x == m then RemoveOwn else NothingOwn
    case Recheck(x) => if x == m then RecheckOwn else NothingOwn
    case Release(x) => if x == m then ReleaseOwn else NothingOwn
    case Deliver(x) => if x == m then DeliverOwn else NothingOwn
  }

  /** How far the create and the destroy of the member have come. */
  datatype Progress = Progress(member: bool, holder: bool, found: bool, bound: bool, counted: bool, created: bool,
                               destroyed: bool, premature: bool, posted: bool)

  /** What has become of it and what is still to come. */
  datatype Fate = Fate(creator: bool, added: bool, ready: bool, deferred: bool, unlinked: bool, released: bool,
                       addQueued: bool, removeQueued: bool, own: Own, visiting: bool, pending: bool)

  function ProgressOf(api: Api, m: Id): Progress {
    Progress(m in api.topicOf, api.lock == HeldBy(m), m in api.found, m in api.bound, m in api.counted, m in api.created,
             m in api.destroyed, m in api.premature, m in api.posted)
  }

  function FateOf(marks: Marks, stream: Stream, w: Work, m: Id): Fate {
    Fate(stream.creator == Some(m), m in marks.added, m in marks.ready, m in marks.deferred, m in marks.unlinked,
         m in marks.released, AddEvent(m) in w.events, RemoveEvent(m) in w.events, OwnOf(w.now, m),
         w.visiting == Some(m), m in w.pending)
  }

  predicate ProgressOk(c: Progress) {
    && (c.created ==> c.counted) && (c.counted ==> c.bound) && (c.bound ==> c.found) && (c.found ==> c.member)
    && (c.holder <==> c.member && !c.created)
    && (c.posted ==> c.destroyed) && (c.destroyed ==> c.created || c.premature) && (c.premature ==> c.destroyed && c.bound)
  }

  /** An add comes exactly once. */
  predicate AddOk(c: Progress, f: Fate, ok: bool) {
    && (f.added ==> c.bound) && (f.creator ==> c.found) && (f.creator && f.added ==> ok)
    && (c.premature ==> f.added) && (f.own == DeliverOwn ==> f.added && !f.unlinked)
    && (f.addQueued ==> c.found && !f.added && !f.creator && f.own != AddOwn)
    && (f.own == AddOwn ==> c.found && !f.added && !f.pending && (f.creator ==> ok))
    && (c.found && !f.added ==> f.addQueued || f.own == AddOwn || (f.creator && (!ok || f.pending)))
  }

  /** So does readiness, once the stream is ready. */
  predicate ReadyOk(c: Progress, f: Fate, ok: bool) {
    && (f.ready ==> f.added && ok)
    && (f.own == ReadyOwn ==> f.added && !f.ready && ok && !f.pending)
    && (f.pending ==> ok && !f.ready && (f.added <==> !f.creator) && !f.visiting && (f.creator || f.added))
    && (f.visiting ==> ok && !f.unlinked && (f.ready || f.own == AddOwn || f.own == ReadyOwn))
    && (f.added && !f.ready ==> !ok || f.own == ReadyOwn || f.pending)
  }

  /** And so does removal, once it is asked for. */
  predicate RemoveOk(c: Progress, f: Fate, ok: bool) {
    && (f.unlinked ==> f.ready && c.posted) && (f.released ==> f.unlinked)
    && (f.deferred ==> c.posted && (f.added || f.creator))
    && (f.removeQueued ==> c.posted && !f.unlinked && !f.deferred && f.own != RemoveOwn)
    && (f.own == RemoveOwn ==>
          && c.posted && !f.unlinked && !f.removeQueued && !f.visiting && !f.pending
          && (f.ready || !ok) && (f.added || f.creator))
    && (c.posted && !f.unlinked ==>
          f.removeQueued || f.own == RemoveOwn || (f.deferred && (!ok || f.visiting || f.pending)))
    && (f.own == RecheckOwn || f.own == ReleaseOwn <==> f.unlinked && !f.released)
  }

  predicate MemberOk(c: Progress, f: Fate, ok: bool) {
    ProgressOk(c) && AddOk(c, f, ok) && ReadyOk(c, f, ok) && RemoveOk(c, f, ok)
  }

  ghost predicate MembersOk(s: State) {
    forall m: Id :: MemberOk(ProgressOf(s.api, m), FateOf(s.marks, s.stream, s.work, m), s.stream.completion == Succeeded)
  }

  /** A member's remove event is behind its add event. */
  predicate Ordered(es: seq<Event>) {
    es != [] ==> (es[0].RemoveEvent? ==> AddEvent(es[0].m) !in es[1..]) && Ordered(es[1..])
  }

  predicate WorkOk(s: State) {
    && Distinct(s.work.events) && Ordered(s.work.events) && Distinct(s.work.pending)
    && (s.stream.creator.None? ==> s.api.found == {} && s.stream.completion == Waiting)
  }

  predicate Ok(s: State, m: Id) {
    MemberOk(ProgressOf(s.api, m), FateOf(s.marks, s.stream, s.work, m), s.stream.completion == Succeeded)
  }

  lemma Popped<T>(xs: seq<T>)
    requires Distinct(xs) && xs != []
    ensures Distinct(xs[1..]) && forall x :: x in xs[1..] <==> x in xs && x != xs[0]
  {
    forall i, j | 0 <= i < j < |xs[1..]| ensures xs[1..][i] != xs[1..][j] {
      assert xs[i + 1] != xs[j + 1];
    }
    forall x | x in xs && x != xs[0] ensures x in xs[1..] {
      var i :| 0 <= i < |xs| && xs[i] == x;
      assert xs[1..][i - 1] == x;
    }
    forall x | x in xs[1..] ensures x in xs && x != xs[0] {
      var i :| 0 <= i < |xs[1..]| && xs[1..][i] == x;
      assert xs[i + 1] == x;
    }
  }

  lemma Pushed<T>(xs: seq<T>, x: T)
    requires Distinct(xs) && x !in xs
    ensures Distinct(xs + [x]) && forall y :: y in xs + [x] <==> y in xs || y == x
  {
  }

  lemma {:induction false} OrderedPush(es: seq<Event>, e: Event)
    requires Ordered(es) && (e.AddEvent? ==> RemoveEvent(e.m) !in es)
    ensures Ordered(es + [e])
  {
    if es == [] {
      assert [e][1..] == [];
    } else {
      assert RemoveEvent(e.m) !in es ==> RemoveEvent(e.m) !in es[1..] && es[0] != RemoveEvent(e.m);
      OrderedPush(es[1..], e);
      assert (es + [e])[1..] == es[1..] + [e];
    }
  }

  // ---------------------------------------------------------------------------------------------
  // Every step keeps every member in order
  // ---------------------------------------------------------------------------------------------

  ghost predicate Good(s: State) {
    MembersOk(s) && WorkOk(s)
  }

  /** Nothing of the other members has changed. */
  ghost predicate OnlyOf(s: State, s': State, m: Id) {
    && s'.stream.completion == s.stream.completion
    && forall x: Id :: x != m ==>
         && ProgressOf(s'.api, x) == ProgressOf(s.api, x)
         && FateOf(s'.marks, s'.stream, s'.work, x) == FateOf(s.marks, s.stream, s.work, x)
  }

  lemma MembersFrame(s: State, s': State, m: Id)
    requires MembersOk(s) && OnlyOf(s, s', m) && Ok(s', m)
    ensures MembersOk(s')
  {
    forall x: Id ensures Ok(s', x) {
      assert Ok(s, x);
    }
  }

  lemma GoodBegin(s: State, m: Id, topic: Topic, notify: bool)
    requires Good(s)
    ensures Good(BeginStep(s, m, topic, notify))
  {
    var s' := BeginStep(s, m, topic, notify);
    if s' != s {
      assert Ok(s, m);
      MembersFrame(s, s', m);
    }
  }

  lemma GoodFind(s: State, m: Id)
    requires Good(s)
    ensures Good(FindStep(s, m))
  {
    var s' := FindStep(s, m);
    if s' != s {
      assert Ok(s, m);
      if s.stream.creator.Some? {
        Pushed(s.work.events, AddEvent(m));
        OrderedPush(s.work.events, AddEvent(m));
      }
      MembersFrame(s, s', m);
    }
  }

  lemma GoodBind(s: State, m: Id)
    requires Good(s)
    ensures Good(BindStep(s, m))
  {
    assert Ok(s, m);
    MembersFrame(s, BindStep(s, m), m);
  }

  lemma GoodCount(s: State, m: Id)
    requires Good(s)
    ensures Good(CountStep(s, m))
  {
    assert Ok(s, m);
    MembersFrame(s, CountStep(s, m), m);
  }

  lemma GoodFinish(s: State, m: Id)
    requires Good(s)
    ensures Good(FinishStep(s, m))
  {
    assert Ok(s, m);
    MembersFrame(s, FinishStep(s, m), m);
  }

  lemma GoodDestroy(s: State, m: Id)
    requires Good(s) && (m in s.refs.calls ==> m in s.marks.added)
    ensures Good(DestroyStep(s, m))
  {
    assert Ok(s, m);
    MembersFrame(s, DestroyStep(s, m), m);
  }

  lemma GoodPost(s: State, m: Id)
    requires Good(s)
    ensures Good(PostStep(s, m))
  {
    var s' := PostStep(s, m);
    if s' != s {
      assert Ok(s, m);
      Pushed(s.work.events, RemoveEvent(m));
      OrderedPush(s.work.events, RemoveEvent(m));
      MembersFrame(s, s', m);
    }
  }

  lemma GoodComplete(s: State, ok: bool, order: seq<Id>)
    requires Good(s)
    ensures Good(CompleteStep(s, ok, order))
  {
    var s' := CompleteStep(s, ok, order);
    if s' != s {
      var c := s.stream.creator.value;
      assert Ok(s, c);
      Pushed(order, c);
      forall x: Id ensures Ok(s', x) {
        assert Ok(s, x);
        assert x in order <==> x in Listed(s);
      }
    }
  }

  lemma GoodTake(s: State)
    requires Good(s)
    ensures Good(TakeStep(s))
  {
    var s' := TakeStep(s);
    if s' != s {
      var m := s.work.events[0].m;
      assert Ok(s, m);
      Popped(s.work.events);
      MembersFrame(s, s', m);
    }
  }

  lemma GoodVisit(s: State)
    requires Good(s) && s.work.now.Nothing?
    ensures Good(VisitStep(s))
  {
    var s' := VisitStep(s);
    if s.work.visiting.Some? {
      assert Ok(s, s.work.visiting.value);
      MembersFrame(s, s', s.work.visiting.value);
    } else if s.work.pending != [] {
      assert Ok(s, s.work.pending[0]);
      Popped(s.work.pending);
      MembersFrame(s, s', s.work.pending[0]);
    }
  }

  lemma GoodAdd(s: State, m: Id)
    requires Good(s) && s.work.now == Add(m)
    ensures Good(AddStep(s, m))
  {
    assert Ok(s, m);
    MembersFrame(s, AddStep(s, m), m);
  }

  lemma GoodMakeReady(s: State, m: Id)
    requires Good(s) && s.work.now == MakeReady(m)
    ensures Good(MakeReadyStep(s, m))
  {
    assert Ok(s, m);
    MembersFrame(s, MakeReadyStep(s, m), m);
  }

  lemma GoodRemove(s: State, m: Id)
    requires Good(s) && s.work.now == Remove(m)
    ensures Good(RemoveStep(s, m))
  {
    assert Ok(s, m);
    MembersFrame(s, RemoveStep(s, m), m);
  }

  lemma GoodRecheck(s: State, m: Id)
    requires Good(s) && s.work.now == Recheck(m)
    ensures Good(RecheckStep(s, m))
  {
    assert Ok(s, m);
    MembersFrame(s, RecheckStep(s, m), m);
  }

  lemma GoodRelease(s: State, m: Id)
    requires Good(s) && s.work.now == Release(m)
    ensures Good(ReleaseStep(s, m))
  {
    assert Ok(s, m);
    MembersFrame(s, ReleaseStep(s, m), m);
  }

  lemma GoodDeliver(s: State, m: Id)
    requires Good(s) && s.work.now == Deliver(m)
    ensures Good(DeliverStep(s, m))
  {
    assert Ok(s, m);
    MembersFrame(s, DeliverStep(s, m), m);
  }

  lemma GoodMessage(s: State, m: Id, bypass: bool)
    requires Good(s)
    ensures Good(MessageStep(s, m, bypass))
  {
    assert Ok(s, m);
    MembersFrame(s, MessageStep(s, m, bypass), m);
  }

  lemma GoodRefs(s: State, s': State)
    requires Good(s) && s' == s.(refs := s'.refs)
    ensures Good(s')
  {
    forall x: Id ensures Ok(s', x) {
      assert Ok(s, x);
    }
  }

  lemma GoodStep(s: State, a: Action)
    requires Good(s) && RefsOk(s)
    ensures Good(Step(s, a))
  {
    match a
    case Begin(m, topic, notify) => GoodBegin(s, m, topic, notify);
    case Find(m) => GoodFind(s, m);
    case Bind(m) => GoodBind(s, m);
    case Count(m) => GoodCount(s, m);
    case Finish(m) => GoodFinish(s, m);
    case Destroy(m) =>
      assert RefOkOf(s, m);
      GoodDestroy(s, m);
    case Post(m) => GoodPost(s, m);
    case Complete(ok, order) => GoodComplete(s, ok, order);
    case Take => GoodTake(s);
    case Go => GoodGo(s);
    case Message(m, bypass) => GoodMessage(s, m, bypass);
    case Start(m) => GoodRefs(s, Step(s, a));
    case Call(m) => GoodRefs(s, Step(s, a));
    case End(m) => GoodRefs(s, Step(s, a));
  }

  lemma GoodGo(s: State)
    requires Good(s)
    ensures Good(GoStep(s))
  {
    match s.work.now
    case Nothing => GoodVisit(s);
    case Add(m) => GoodAdd(s, m);
    case MakeReady(m) => GoodMakeReady(s, m);
    case Remove(m) => GoodRemove(s, m);
    case Recheck(m) => GoodRecheck(s, m);
    case Release(m) => GoodRelease(s, m);
    case Deliver(m) => GoodDeliver(s, m);
  }

  // ---------------------------------------------------------------------------------------------
  // The members' own references
  // ---------------------------------------------------------------------------------------------

  /** A member is referred to until it is released and by each of its callbacks; it is freed at 0. */
  predicate RefOk(r: Refs, member: bool, added: bool, released: bool, m: Id) {
    && (m in r.count <==> member)
    && (member ==> r.count[m] == (if released then 0 else 1) + r.queue[m] + r.cleared[m] + r.running[m])
    && (!member || !added ==> r.queue[m] == 0 && r.cleared[m] == 0 && r.running[m] == 0 && r.calls[m] == 0)
    && (m in r.freed <==> member && r.count[m] == 0)
  }

  predicate RefOkOf(s: State, m: Id) {
    RefOk(s.refs, m in s.api.topicOf, m in s.marks.added, m in s.marks.released, m)
  }

  ghost predicate RefsOk(s: State) {
    forall m: Id :: RefOkOf(s, m)
  }

  predicate SameRefs(r: Refs, r': Refs, m: Id) {
    && (m in r'.count <==> m in r.count) && (m in r.count ==> r'.count[m] == r.count[m])
    && r'.queue[m] == r.queue[m] && r'.cleared[m] == r.cleared[m] && r'.running[m] == r.running[m]
    && (m in r'.freed <==> m in r.freed) && r'.calls[m] == r.calls[m]
  }

  lemma RefsFrame(s: State, s': State, m: Id)
    requires RefsOk(s) && RefOkOf(s', m)
    requires forall x: Id :: x != m ==>
      && (x in s'.api.topicOf <==> x in s.api.topicOf) && (x in s'.marks.released <==> x in s.marks.released)
      && (x in s'.marks.added <==> x in s.marks.added) && SameRefs(s.refs, s'.refs, x)
    ensures RefsOk(s')
  {
    forall x: Id ensures RefOkOf(s', x) {
      assert RefOkOf(s, x);
    }
  }

  lemma RefsSame(s: State, s': State)
    requires RefsOk(s) && s'.refs == s.refs && s'.api.topicOf == s.api.topicOf && s'.marks.released == s.marks.released
    requires s.marks.added <= s'.marks.added
    ensures RefsOk(s')
  {
    forall x: Id ensures RefOkOf(s', x) {
      assert RefOkOf(s, x);
    }
  }

  lemma RefsBegin(s: State, m: Id, topic: Topic, notify: bool)
    requires RefsOk(s) && Good(s)
    ensures RefsOk(BeginStep(s, m, topic, notify))
  {
    var s' := BeginStep(s, m, topic, notify);
    assert RefOkOf(s, m);
    assert Ok(s, m);
    if s' != s {
      RefsFrame(s, s', m);
    }
  }

  lemma RefsMakeReady(s: State, m: Id)
    requires RefsOk(s) && Good(s) && s.work.now == MakeReady(m)
    ensures RefsOk(MakeReadyStep(s, m))
  {
    assert RefOkOf(s, m);
    assert Ok(s, m);
    RefsFrame(s, MakeReadyStep(s, m), m);
  }

  lemma RefsRelease(s: State, m: Id)
    requires RefsOk(s) && Good(s) && s.work.now == Release(m)
    ensures RefsOk(ReleaseStep(s, m))
  {
    assert RefOkOf(s, m);
    assert Ok(s, m);
    RefsFrame(s, ReleaseStep(s, m), m);
  }

  lemma RefsMessage(s: State, m: Id, bypass: bool)
    requires RefsOk(s) && Good(s)
    ensures RefsOk(MessageStep(s, m, bypass))
  {
    assert RefOkOf(s, m);
    assert Ok(s, m);
    RefsFrame(s, MessageStep(s, m, bypass), m);
  }

  lemma RefsStart(s: State, m: Id)
    requires RefsOk(s)
    ensures RefsOk(StartStep(s, m))
  {
    assert RefOkOf(s, m);
    RefsFrame(s, StartStep(s, m), m);
  }

  lemma RefsCall(s: State, m: Id)
    requires RefsOk(s)
    ensures RefsOk(CallStep(s, m))
  {
    assert RefOkOf(s, m);
    RefsFrame(s, CallStep(s, m), m);
  }

  lemma RefsDeliver(s: State, m: Id)
    requires RefsOk(s) && Good(s) && s.work.now == Deliver(m)
    ensures RefsOk(DeliverStep(s, m))
  {
    assert RefOkOf(s, m) && Ok(s, m);
    RefsFrame(s, DeliverStep(s, m), m);
  }

  lemma RefsEnd(s: State, m: Id)
    requires RefsOk(s)
    ensures RefsOk(EndStep(s, m))
  {
    assert RefOkOf(s, m);
    RefsFrame(s, EndStep(s, m), m);
  }

  lemma RefsStep(s: State, a: Action)
    requires RefsOk(s) && Good(s)
    ensures RefsOk(Step(s, a))
  {
    match a
    case Begin(m, topic, notify) => RefsBegin(s, m, topic, notify);
    case Message(m, bypass) => RefsMessage(s, m, bypass);
    case Start(m) => RefsStart(s, m);
    case Call(m) => RefsCall(s, m);
    case End(m) => RefsEnd(s, m);
    case Go => RefsGo(s);
    case _ => RefsSame(s, Step(s, a));
  }

  lemma RefsGo(s: State)
    requires RefsOk(s) && Good(s)
    ensures RefsOk(GoStep(s))
  {
    match s.work.now
    case MakeReady(m) => RefsMakeReady(s, m);
    case Release(m) => RefsRelease(s, m);
    case Deliver(m) => RefsDeliver(s, m);
    case _ => RefsSame(s, GoStep(s));
  }

  // ---------------------------------------------------------------------------------------------
  // The stream's reference count
  // ---------------------------------------------------------------------------------------------

  ghost predicate HasMember(s: State, t: Topic) {
    exists m :: m in Listed(s) && m in s.api.topicOf && s.api.topicOf[m] == t
  }

  /** The topics are those of the listed members. */
  ghost predicate TopicsOk(s: State) {
    && (forall m :: m in Listed(s) ==> m in s.api.topicOf && s.api.topicOf[m] in s.stream.topics)
    && (forall t :: t in s.stream.topics ==> HasMember(s, t))
  }

  predicate CountOk(s: State) {
    s.stream.refcount == |s.stream.topics| + |Owing(s)| - |Early(s)|
  }

  ghost predicate TopicsAndCount(s: State) {
    TopicsOk(s) && CountOk(s)
  }

  lemma TopicsSame(s: State, s': State)
    requires TopicsAndCount(s) && s'.stream.topics == s.stream.topics && s'.stream.refcount == s.stream.refcount
    requires Listed(s') == Listed(s) && Owing(s') == Owing(s) && Early(s') == Early(s)
    requires forall m :: m in s.api.topicOf ==> m in s'.api.topicOf && s'.api.topicOf[m] == s.api.topicOf[m]
    ensures TopicsAndCount(s')
  {
    forall t | t in s'.stream.topics ensures HasMember(s', t) {
      assert HasMember(s, t);
    }
  }

  /** A member that is counted: a pending add, or the one early member is made up for. */
  lemma CountedOne(counted: set<Id>, added: set<Id>, m: Id)
    requires m !in counted
    ensures |counted + {m} - added| - |added - (counted + {m})| == |counted - added| - |added - counted| + 1
  {
    if m in added {
      assert added - counted == added - (counted + {m}) + {m};
      assert counted + {m} - added == counted - added;
    } else {
      assert counted + {m} - added == counted - added + {m};
      assert added - (counted + {m}) == added - counted;
    }
  }

  /** A member that is added: a pending add less, or one early member more. */
  lemma AddedOne(counted: set<Id>, added: set<Id>, m: Id)
    requires m !in added
    ensures |counted - (added + {m})| - |added + {m} - counted| == |counted - added| - |added - counted| - 1
  {
    if m in counted {
      assert counted - added == counted - (added + {m}) + {m};
      assert added + {m} - counted == added - counted;
    } else {
      assert added + {m} - counted == added - counted + {m};
      assert counted - (added + {m}) == counted - added;
    }
  }

  lemma SameTopics(s: State, s': State)
    requires TopicsOk(s) && s'.stream.topics == s.stream.topics && s'.api.topicOf == s.api.topicOf && s'.marks == s.marks
    ensures TopicsOk(s')
  {
    forall t | t in s'.stream.topics ensures HasMember(s', t) {
      assert HasMember(s, t);
    }
  }

  lemma TopicsCount(s: State, m: Id)
    requires TopicsAndCount(s) && Good(s)
    ensures TopicsAndCount(CountStep(s, m))
  {
    if CountStep(s, m) != s {
      CountedOne(s.api.counted, s.marks.added, m);
      SameTopics(s, CountStep(s, m));
    }
  }

  lemma TopicsOfAdd(s: State, m: Id)
    requires TopicsOk(s) && Ok(s, m) && s.work.now == Add(m)
    ensures TopicsOk(AddStep(s, m))
  {
    var s' := AddStep(s, m);
    assert s' != s ==> Listed(s') == Listed(s) + {m};
    forall t | t in s'.stream.topics ensures HasMember(s', t) {
      if t in s.stream.topics {
        assert HasMember(s, t);
      } else {
        assert m in Listed(s') && s'.api.topicOf[m] == t;
      }
    }
  }

  lemma TopicsAdd(s: State, m: Id)
    requires TopicsAndCount(s) && Good(s) && s.work.now == Add(m)
    ensures TopicsAndCount(AddStep(s, m))
  {
    assert Ok(s, m);
    TopicsOfAdd(s, m);
    CountOfAdd(s, m);
  }

  lemma CountOfAdd(s: State, m: Id)
    requires CountOk(s) && m !in s.marks.added
    ensures CountOk(AddStep(s, m))
  {
    if Ensured(s.api, m) && m in s.api.topicOf {
      AddedOne(s.api.counted, s.marks.added, m);
      var t := s.api.topicOf[m];
      if t in s.stream.topics {
        assert s.stream.topics + {t} == s.stream.topics;
      }
    }
  }

  lemma TopicsRemove(s: State, m: Id)
    requires TopicsAndCount(s) && Good(s) && s.work.now == Remove(m)
    ensures TopicsAndCount(RemoveStep(s, m))
  {
    var s' := RemoveStep(s, m);
    assert Ok(s, m);
    if m in s.marks.ready {
      assert m in Listed(s);
      assert Listed(s') == Listed(s) - {m};
      forall t | t in s'.stream.topics ensures HasMember(s', t) {
        RemoveLeaves(s, m, t);
      }
    } else {
      TopicsSame(s, s');
    }
  }

  lemma RemoveLeaves(s: State, m: Id, t: Topic)
    requires TopicsOk(s) && m in s.marks.ready && m in Listed(s) && t in RemoveStep(s, m).stream.topics
    ensures HasMember(RemoveStep(s, m), t)
  {
    var s' := RemoveStep(s, m);
    assert HasMember(s, t);
    var x :| x in Listed(s) && x in s.api.topicOf && s.api.topicOf[x] == t;
    if x != m {
      assert x in Listed(s');
    } else {
      assert !OnlyOfItsTopic(s, m);
      var y :| y in Listed(s) && y != m && y in s.api.topicOf && s.api.topicOf[y] == s.api.topicOf[m];
      assert y in Listed(s');
    }
  }

  lemma TopicsGo(s: State)
    requires TopicsAndCount(s) && Good(s)
    ensures TopicsAndCount(GoStep(s))
  {
    match s.work.now
    case Add(m) => TopicsAdd(s, m);
    case Remove(m) => TopicsRemove(s, m);
    case Nothing => TopicsSame(s, VisitStep(s));
    case MakeReady(m) => TopicsSame(s, MakeReadyStep(s, m));
    case Recheck(m) => TopicsSame(s, RecheckStep(s, m));
    case Release(m) => TopicsSame(s, ReleaseStep(s, m));
    case Deliver(m) => TopicsSame(s, DeliverStep(s, m));
  }

  lemma TopicsApi(s: State, a: Action)
    requires TopicsAndCount(s) && Good(s) && (a.Begin? || a.Find? || a.Bind? || a.Finish? || a.Destroy? || a.Post?)
    ensures TopicsAndCount(Step(s, a))
  {
    TopicsSame(s, Step(s, a));
  }

  lemma TopicsStep(s: State, a: Action)
    requires TopicsAndCount(s) && Good(s)
    ensures TopicsAndCount(Step(s, a))
  {
    match a
    case Count(m) => TopicsCount(s, m);
    case Go => TopicsGo(s);
    case Complete(ok, order) => TopicsSame(s, Step(s, a));
    case Take => TopicsSame(s, Step(s, a));
    case Message(m, bypass) => TopicsSame(s, Step(s, a));
    case Start(m) => TopicsSame(s, Step(s, a));
    case Call(m) => TopicsSame(s, Step(s, a));
    case End(m) => TopicsSame(s, Step(s, a));
    case _ => TopicsApi(s, a);
  }

  // ---------------------------------------------------------------------------------------------
  // The removal of the stream
  // ---------------------------------------------------------------------------------------------

  /** No topic is left and no add is to come. */
  predicate Unused(s: State) {
    s.stream.topics == {} && s.api.found <= s.marks.added
  }

  /**
    A removed stream is unused. An unused one is removed or about to be, unless its last topic went in a hurry:
    then the count was one too low to be seen at 0.
   */
  predicate RemovalOk(s: State) {
    && (s.stream.removed ==> Unused(s) && s.api.lock == Free && !s.stream.hurried)
    && (s.stream.creator.Some? && Unused(s) && !s.stream.removed ==> s.work.now.Recheck? || s.stream.hurried)
    && (s.work.now.Recheck? && Unused(s) ==> !s.stream.hurried)
    && (s.stream.hurried ==> s.api.premature != {})
  }

  ghost predicate Inv(s: State) {
    Good(s) && RefsOk(s) && TopicsAndCount(s) && RemovalOk(s)
  }

  /** While nobody is inside a create, the reference count is exactly topics plus pending adds. */
  lemma LockFree(s: State)
    requires Good(s) && s.api.lock == Free
    ensures Early(s) == {} && s.api.found == s.api.counted
  {
    forall m: Id ensures m !in Early(s) && (m in s.api.found <==> m in s.api.counted) {
      assert Ok(s, m);
    }
  }

  /** At most one member's add event runs ahead of its create, and that create holds the lock. */
  lemma EarlyHolds(s: State)
    requires Good(s)
    ensures forall m :: m in Early(s) ==> s.api.lock == HeldBy(m) && (m in Listed(s) || m in s.api.premature)
    ensures |Early(s)| <= 1
  {
    forall m | m in Early(s) ensures s.api.lock == HeldBy(m) && (m in Listed(s) || m in s.api.premature) {
      assert Ok(s, m);
    }
    if s.api.lock.HeldBy? {
      assert Early(s) <= {s.api.lock.m};
      Subset(Early(s), {s.api.lock.m});
    } else {
      assert Early(s) == {};
    }
  }

  lemma {:induction false} Subset<T>(a: set<T>, b: set<T>)
    requires a <= b
    ensures |a| <= |b|
  {
    if a != {} {
      var x :| x in a;
      Subset(a - {x}, b - {x});
    }
  }

  lemma RemovalFind(s: State, m: Id)
    requires Inv(s)
    ensures RemovalOk(FindStep(s, m))
  {
    var s' := FindStep(s, m);
    if s' != s {
      assert Ok(s, m);
      assert m in s'.api.found && m !in s'.marks.added;
    }
  }

  lemma RemovalAdd(s: State, m: Id)
    requires Inv(s) && s.work.now == Add(m)
    ensures RemovalOk(AddStep(s, m))
  {
    assert Ok(s, m);
    assert m in s.api.found && m !in s.marks.added;
  }

  lemma RemovalRemove(s: State, m: Id)
    requires Inv(s) && s.work.now == Remove(m)
    ensures RemovalOk(RemoveStep(s, m))
  {
    var s' := RemoveStep(s, m);
    assert Ok(s, m);
    TopicsRemove(s, m);
    GoodRemove(s, m);
    if m in s.marks.ready {
      assert m in Listed(s);
      assert s.api.topicOf[m] in s.stream.topics;
      if s'.stream.topics == {} {
        assert OnlyOfItsTopic(s, m);
        assert Early(s') == Early(s);
        EarlyHolds(s');
        assert Listed(s') == {};
        if Unused(s') {
          NothingOwed(s');
        }
      }
    }
  }

  lemma NothingOwed(s: State)
    requires Good(s) && s.api.found <= s.marks.added
    ensures Owing(s) == {}
  {
    forall x: Id ensures x !in Owing(s) {
      assert Ok(s, x);
    }
  }

  lemma RemovalRecheck(s: State, m: Id)
    requires Inv(s) && s.work.now == Recheck(m)
    ensures RemovalOk(RecheckStep(s, m))
  {
    if s.api.lock == Free {
      LockFree(s);
      if s.stream.refcount == 0 {
        assert |s.stream.topics| == 0 && |Owing(s)| == 0;
        assert s.stream.topics == {} && Owing(s) == {};
        forall x | x in s.api.found ensures x in s.marks.added {
          assert x !in Owing(s);
        }
      }
      assert Unused(s) ==> Owing(s) == {};
    }
  }

  lemma RemovalGo(s: State)
    requires Inv(s)
    ensures RemovalOk(GoStep(s))
  {
    match s.work.now
    case Add(m) => RemovalAdd(s, m);
    case Remove(m) => RemovalRemove(s, m);
    case Recheck(m) => RemovalRecheck(s, m);
    case _ =>
  }

  lemma RemovalStep(s: State, a: Action)
    requires Inv(s)
    ensures RemovalOk(Step(s, a))
  {
    match a
    case Find(m) => RemovalFind(s, m);
    case Go => RemovalGo(s);
    case _ =>
  }

  lemma InvStep(s: State, a: Action)
    requires Inv(s)
    ensures Inv(Step(s, a))
  {
    GoodStep(s, a);
    RefsStep(s, a);
    TopicsStep(s, a);
    RemovalStep(s, a);
  }

  function Run(s: State, actions: seq<Action>): State
    decreases |actions|
  {
    if actions == [] then s else Run(Step(s, actions[0]), actions[1..])
  }

  lemma {:induction false} RunInv(s: State, actions: seq<Action>)
    requires Inv(s)
    ensures Inv(Run(s, actions))
    decreases |actions|
  {
    if actions != [] {
      InvStep(s, actions[0]);
      RunInv(Step(s, actions[0]), actions[1..]);
    }
  }

  lemma InitialMembers()
    ensures Good(Initial()) && RefsOk(Initial())
  {
  }

  lemma InitialInv()
    ensures Inv(Initial())
  {
    var s := Initial();
    InitialMembers();
    assert Listed(s) == {} && Owing(s) == {} && Early(s) == {};
    assert TopicsAndCount(s);
  }

  // ---------------------------------------------------------------------------------------------
  // What holds in every run
  // ---------------------------------------------------------------------------------------------

  ghost predicate Reachable(s: State) {
    exists actions :: s == Run(Initial(), actions)
  }

  lemma ReachableInv(s: State)
    requires Reachable(s)
    ensures Inv(s)
  {
    var actions :| s == Run(Initial(), actions);
    InitialInv();
    RunInv(Initial(), actions);
  }

  lemma {:induction false} RunSnoc(s: State, actions: seq<Action>, a: Action)
    ensures Run(s, actions + [a]) == Step(Run(s, actions), a)
    decreases |actions|
  {
    if actions == [] {
      assert [a][1..] == [];
    } else {
      assert (actions + [a])[1..] == actions[1..] + [a];
      RunSnoc(Step(s, actions[0]), actions[1..], a);
    }
  }

  lemma InitialReachable()
    ensures Reachable(Initial())
  {
    assert Run(Initial(), []) == Initial();
  }

  lemma ReachableStep(s: State, a: Action)
    requires Reachable(s)
    ensures Reachable(Step(s, a))
  {
    var actions :| s == Run(Initial(), actions);
    RunSnoc(Initial(), actions, a);
  }
}
