/**
  The objects of StreamMemory under the machine of Lifecycle: MemoryOf says what they hold in a state, each step is
  performed on them by the method that models its code, and so they hold what the machine says in every run.
 */
module StreamRefinement {
  import opened Wrappers
  import opened Lifecycle
  import opened LifecycleTheorems
  import opened StreamMemory

  // ---------------------------------------------------------------------------------------------
  // What the machine says about the memory
  // ---------------------------------------------------------------------------------------------

  function FieldsOf(s: State, m: Id): Fields
    requires m in s.api.topicOf
  {
    Fields(s.api.topicOf[m], m in s.api.notify, m in s.api.bound, m in s.api.destroyed, m in s.marks.ready,
           m in s.marks.deferred, if m in s.refs.count then s.refs.count[m] else 0, m in s.refs.freed)
  }

  ghost function MembersOf(s: State): map<Id, Fields> {
    map m | m in s.api.topicOf :: FieldsOf(s, m)
  }

  ghost function OnOf(s: State): map<Id, Topic> {
    map m | m in Listed(s) && m in s.api.topicOf :: s.api.topicOf[m]
  }

  function StreamOf(st: Stream): StreamView {
    StreamView(st.completion == Succeeded, st.refcount, st.topics, st.removed, st.asserted)
  }

  ghost function MemoryOf(s: State): Memory {
    Memory(MembersOf(s), OnOf(s), StreamOf(s.stream))
  }

  /** A step that changes nothing in memory but the fields of one member. */
  lemma OneMember(s: State, s': State, m: Id, f: Fields)
    requires s'.api.topicOf == s.api.topicOf && Listed(s') == Listed(s) && StreamOf(s'.stream) == StreamOf(s.stream)
    requires m in s.api.topicOf && FieldsOf(s', m) == f
    requires forall x :: x in s.api.topicOf && x != m ==> FieldsOf(s', x) == FieldsOf(s, x)
    ensures MemoryOf(s') == WithField(MemoryOf(s), m, f)
  {
    assert MembersOf(s') == MembersOf(s)[m := f];
  }

  /** A step that changes nothing there. */
  lemma NoMember(s: State, s': State)
    requires s'.api.topicOf == s.api.topicOf && Listed(s') == Listed(s) && StreamOf(s'.stream) == StreamOf(s.stream)
    requires forall x :: x in s.api.topicOf ==> FieldsOf(s', x) == FieldsOf(s, x)
    ensures MemoryOf(s') == MemoryOf(s)
  {
    assert MembersOf(s') == MembersOf(s);
  }

  lemma BeginMemory(s: State, m: Id, topic: Topic, notify: bool)
    requires Inv(s) && BeginStep(s, m, topic, notify) != s
    ensures MemoryOf(BeginStep(s, m, topic, notify)) == MadeMemory(MemoryOf(s), m, topic, notify)
  {
    var s' := BeginStep(s, m, topic, notify);
    assert Ok(s, m) && RefOkOf(s, m);
    assert MembersOf(s') == MembersOf(s)[m := FieldsOf(s', m)];
    assert OnOf(s') == OnOf(s);
  }

  lemma AddMemory(s: State, m: Id)
    requires Inv(s) && s.work.now == Add(m) && Ensured(s.api, m)
    ensures m in s.api.topicOf && m !in Listed(s)
    ensures MemoryOf(AddStep(s, m)) == AddedMemory(MemoryOf(s), m)
  {
    assert Ok(s, m);
    var s' := AddStep(s, m);
    assert MembersOf(s') == MembersOf(s);
    assert OnOf(s') == OnOf(s)[m := s.api.topicOf[m]];
  }

  lemma OnlyIsLast(s: State, m: Id)
    requires m in Listed(s) && m in s.api.topicOf
    ensures OnlyOfItsTopic(s, m) <==> LastOfTopic(OnOf(s), m)
  {
    forall x ensures x in Listed(s) && x in s.api.topicOf <==> x in OnOf(s) {
    }
    if LastOfTopic(OnOf(s), m) {
      forall x | x in Listed(s) && x != m && x in s.api.topicOf ensures s.api.topicOf[x] != s.api.topicOf[m] {
        assert x in OnOf(s) && OnOf(s)[x] != OnOf(s)[m];
      }
    }
  }

  lemma RemoveMemory(s: State, m: Id)
    requires Inv(s) && s.work.now == Remove(m)
    ensures m in s.api.topicOf && (m in s.marks.ready ==> m in Listed(s))
    ensures MemoryOf(RemoveStep(s, m)) == RemovedMemory(MemoryOf(s), m)
    ensures RemoveStep(s, m).work.now ==
              if m !in s.marks.ready then Nothing
              else if LastOfTopic(OnOf(s), m) && RemoveStep(s, m).stream.refcount == 0 then Recheck(m) else Release(m)
  {
    assert Ok(s, m);
    var s' := RemoveStep(s, m);
    if m in s.marks.ready {
      assert MembersOf(s') == MembersOf(s);
      assert OnOf(s') == OnOf(s) - {m};
      OnlyIsLast(s, m);
    } else {
      OneMember(s, s', m, FieldsOf(s, m).(removed := true));
    }
  }

  lemma BindMemory(s: State, m: Id)
    requires Inv(s) && s.api.lock == HeldBy(m) && m in s.api.found
    ensures m in s.api.topicOf
    ensures MemoryOf(BindStep(s, m)) == WithField(MemoryOf(s), m, MemoryOf(s).members[m].(bound := true))
  {
    assert Ok(s, m);
    OneMember(s, BindStep(s, m), m, FieldsOf(s, m).(bound := true));
  }

  lemma CountMemory(s: State, m: Id)
    requires CountStep(s, m) != s
    ensures MemoryOf(CountStep(s, m)) == CountedMemory(MemoryOf(s))
  {
    assert MembersOf(CountStep(s, m)) == MembersOf(s);
  }

  lemma DestroyMemory(s: State, m: Id)
    requires Inv(s) && DestroyStep(s, m) != s
    ensures m in s.api.topicOf
    ensures MemoryOf(DestroyStep(s, m)) == WithField(MemoryOf(s), m, MemoryOf(s).members[m].(destroyed := true))
  {
    assert Ok(s, m) && RefOkOf(s, m);
    OneMember(s, DestroyStep(s, m), m, FieldsOf(s, m).(destroyed := true));
  }

  lemma CompleteMemory(s: State, ok: bool, order: seq<Id>)
    requires CanComplete(s) && Lists(order, Listed(s))
    ensures MemoryOf(CompleteStep(s, ok, order)) == CompletedMemory(MemoryOf(s), ok)
  {
    assert MembersOf(CompleteStep(s, ok, order)) == MembersOf(s);
  }

  lemma MakeReadyMemory(s: State, m: Id)
    requires Inv(s) && s.work.now == MakeReady(m)
    ensures m in s.api.topicOf
    ensures MemoryOf(MakeReadyStep(s, m)) == WithField(MemoryOf(s), m, ReadyFields(MemoryOf(s).members[m]))
    ensures MakeReadyStep(s, m).refs.queue[m] == s.refs.queue[m] + if Notifies(MemoryOf(s).members[m]) then 1 else 0
  {
    assert Ok(s, m) && RefOkOf(s, m);
    OneMember(s, MakeReadyStep(s, m), m, ReadyFields(FieldsOf(s, m)));
  }

  lemma RecheckMemory(s: State, m: Id)
    requires s.api.lock == Free
    ensures MemoryOf(RecheckStep(s, m)) == RecheckedMemory(MemoryOf(s))
  {
    assert MembersOf(RecheckStep(s, m)) == MembersOf(s);
  }

  /** A reference less, in a state that differs in nothing else. */
  lemma DropMemory(s: State, s': State, m: Id)
    requires m in s.api.topicOf && m in s.refs.count && (m in s.refs.freed ==> s.refs.count[m] == 0)
    requires s'.api == s.api && Listed(s') == Listed(s) && s'.stream == s.stream
    requires s'.marks.ready == s.marks.ready && s'.marks.deferred == s.marks.deferred
    requires s'.refs.count == Dropped(s.refs, m).count && s'.refs.freed == Dropped(s.refs, m).freed
    ensures MemoryOf(s') == WithField(MemoryOf(s), m, DroppedFields(MemoryOf(s).members[m]))
  {
    OneMember(s, s', m, DroppedFields(FieldsOf(s, m)));
  }

  lemma EnqueuedMemory(s: State, m: Id)
    requires Inv(s) && IsIdle(s.work) && m in Listed(s) && m !in s.api.destroyed
    ensures m in s.api.topicOf
    ensures MemoryOf(MessageStep(s, m, false)) == WithField(MemoryOf(s), m, ReferredFields(MemoryOf(s).members[m]))
  {
    assert Ok(s, m) && RefOkOf(s, m);
    OneMember(s, MessageStep(s, m, false), m, ReferredFields(FieldsOf(s, m)));
  }

  // ---------------------------------------------------------------------------------------------
  // The steps of the machine on the objects
  // ---------------------------------------------------------------------------------------------

  /** The objects hold what the machine says. */
  ghost predicate Shows(t: Tport, s: State)
    reads t, t.members.Values, t.stream, t.stream.mTopics.Values
  {
    t.Valid() && t.View() == MemoryOf(s)
  }

  /** The steps of sbfSub_create and sbfSub_destroy */
  method PerformCreate(t: Tport, s: State, m: Id, topic: Topic, notify: bool)
    requires Shows(t, s) && Inv(s)
    modifies t`members, t`view
    ensures Shows(t, BeginStep(s, m, topic, notify)) && fresh(t.members.Values - old(t.members.Values))
  {
    if m !in s.api.topicOf && s.api.lock == Free && !s.stream.removed {
      BeginMemory(s, m, topic, notify);
      t.Create(m, topic, notify);
    }
  }

  method PerformBind(t: Tport, s: State, m: Id)
    requires Shows(t, s) && Inv(s)
    modifies t`view, t.members.Values
    ensures Shows(t, BindStep(s, m))
  {
    if s.api.lock == HeldBy(m) && m in s.api.found {
      BindMemory(s, m);
      t.Bind(m);
    }
  }

  method PerformCount(t: Tport, s: State, m: Id)
    requires Shows(t, s) && Inv(s)
    modifies t.stream`mRefCount
    ensures Shows(t, CountStep(s, m))
  {
    if s.api.lock == HeldBy(m) && m in s.api.bound && m !in s.api.counted {
      CountMemory(s, m);
      t.CountStream();
    }
  }

  method PerformDestroy(t: Tport, s: State, m: Id)
    requires Shows(t, s) && Inv(s)
    modifies t`view, t.members.Values
    ensures Shows(t, DestroyStep(s, m))
  {
    if m !in s.api.destroyed && (m in s.api.created || m in s.refs.calls) {
      DestroyMemory(s, m);
      t.SetDestroyed(m);
    }
  }

  /** The completion callback, up to its traversal, which goes over the lists */
  method PerformComplete(t: Tport, s: State, ok: bool) returns (order: seq<Id>)
    requires Shows(t, s) && Inv(s)
    modifies t.stream`mReady
    ensures Shows(t, CompleteStep(s, ok, order))
    ensures CanComplete(s) ==> Lists(order, Listed(s))
  {
    order := [];
    if CanComplete(s) {
      order := t.Complete(ok);
      ListedOn(s);
      CompleteMemory(s, ok, order);
    }
  }

  predicate CanComplete(s: State) {
    IsIdle(s.work) && s.stream.completion == Waiting && s.stream.creator.Some? && Ensured(s.api, s.stream.creator.value)
  }

  lemma ListedOn(s: State)
    requires Inv(s)
    ensures OnOf(s).Keys == Listed(s)
  {
    forall m | m in Listed(s) ensures m in s.api.topicOf {
      assert Ok(s, m);
    }
  }

  method PerformAdd(t: Tport, s: State, m: Id) returns (next: Now)
    requires Shows(t, s) && Inv(s) && s.work.now == Add(m)
    modifies t.stream, t.stream.mTopics.Values
    ensures Shows(t, AddStep(s, m)) && next == AddStep(s, m).work.now
    ensures fresh(t.stream.mTopics.Values - old(t.stream.mTopics.Values))
  {
    if !Ensured(s.api, m) {
      return Add(m);
    }
    AddMemory(s, m);
    var makeReady := t.AddEventCb(m);
    next := if makeReady then MakeReady(m) else Nothing;
  }

  method PerformMakeReady(t: Tport, s: State, m: Id) returns (enqueue: bool)
    requires Shows(t, s) && Inv(s) && s.work.now == MakeReady(m)
    modifies t`view, t.members.Values
    ensures Shows(t, MakeReadyStep(s, m))
    ensures MakeReadyStep(s, m).refs.queue[m] == s.refs.queue[m] + if enqueue then 1 else 0
  {
    MakeReadyMemory(s, m);
    enqueue := t.Ready(m);
  }

  method PerformRemove(t: Tport, s: State, m: Id) returns (next: Now)
    requires Shows(t, s) && Inv(s) && s.work.now == Remove(m)
    modifies t`view, t.members.Values, t.stream, t.stream.mTopics.Values
    ensures Shows(t, RemoveStep(s, m)) && next == RemoveStep(s, m).work.now
    ensures t.stream.mTopics.Values <= old(t.stream.mTopics.Values)
  {
    RemoveMemory(s, m);
    var then_ := t.RemoveEventCb(m);
    next := match then_ case Deferred => Nothing case LookAgain => Recheck(m) case DropIt => Release(m);
  }

  method PerformRecheck(t: Tport, s: State, m: Id)
    requires Shows(t, s) && Inv(s)
    modifies t.stream`removed
    ensures Shows(t, RecheckStep(s, m))
  {
    if s.api.lock == Free {
      RecheckMemory(s, m);
      t.RemoveStreamIfUnused();
    }
  }

  method PerformRelease(t: Tport, s: State, m: Id)
    requires Shows(t, s) && Inv(s) && s.work.now == Release(m)
    modifies t`view, t.members.Values
    ensures Shows(t, ReleaseStep(s, m))
  {
    assert Ok(s, m) && RefOkOf(s, m);
    DropMemory(s, ReleaseStep(s, m), m);
    t.Drop(m);
  }

  method PerformMessage(t: Tport, s: State, m: Id, bypass: bool)
    requires Shows(t, s) && Inv(s)
    modifies t`view, t.members.Values
    ensures Shows(t, MessageStep(s, m, bypass))
  {
    if IsIdle(s.work) && m in Listed(s) && m !in s.api.destroyed {
      if bypass {
        NoMember(s, MessageStep(s, m, bypass));
      } else {
        EnqueuedMemory(s, m);
        t.AddRef(m);
      }
    }
  }

  method PerformEnd(t: Tport, s: State, m: Id)
    requires Shows(t, s) && Inv(s)
    modifies t`view, t.members.Values
    ensures Shows(t, EndStep(s, m))
  {
    if m in s.refs.running {
      assert RefOkOf(s, m);
      DropMemory(s, EndStep(s, m), m);
      t.Drop(m);
    }
  }

  /** Nothing in memory changes when an event is queued or taken, a traversal goes on or a callback begins. */
  lemma SameMemory(s: State, s': State)
    requires s'.api.topicOf == s.api.topicOf && s'.api.bound == s.api.bound && s'.api.destroyed == s.api.destroyed
    requires s'.api.notify == s.api.notify && s'.marks == s.marks && StreamOf(s'.stream) == StreamOf(s.stream)
    requires s'.refs.count == s.refs.count && s'.refs.freed == s.refs.freed
    ensures MemoryOf(s') == MemoryOf(s)
  {
    NoMember(s, s');
  }

  lemma ApiMemory(s: State, a: Action)
    requires a.Find? || a.Finish? || a.Post?
    ensures MemoryOf(Step(s, a)) == MemoryOf(s)
  {
    match a
    case Find(m) => SameMemory(s, FindStep(s, m));
    case Finish(m) => SameMemory(s, FinishStep(s, m));
    case Post(m) => SameMemory(s, PostStep(s, m));
  }

  lemma RestMemory(s: State, a: Action)
    requires a.Take? || a.Start? || a.Call?
    ensures MemoryOf(Step(s, a)) == MemoryOf(s)
  {
    match a
    case Take => SameMemory(s, TakeStep(s));
    case Start(m) => CallbackMemory(s, StartStep(s, m));
    case Call(m) => CallbackMemory(s, CallStep(s, m));
  }

  /** Only where callbacks are has changed. */
  lemma CallbackMemory(s: State, s': State)
    requires s'.api == s.api && s'.marks == s.marks && s'.stream == s.stream
    requires s'.refs.count == s.refs.count && s'.refs.freed == s.refs.freed
    ensures MemoryOf(s') == MemoryOf(s)
  {
    SameMemory(s, s');
  }

  /** The add callback, or the remove callback up to the lock */
  method PerformEvent(t: Tport, s: State) returns (next: Now)
    requires Shows(t, s) && Inv(s) && (s.work.now.Add? || s.work.now.Remove?)
    modifies t`view, t.members.Values, t.stream, t.stream.mTopics.Values
    ensures Shows(t, GoStep(s)) && next == GoStep(s).work.now
    ensures fresh(t.stream.mTopics.Values - old(t.stream.mTopics.Values))
  {
    if s.work.now.Add? {
      next := PerformAdd(t, s, s.work.now.m);
    } else {
      next := PerformRemove(t, s, s.work.now.m);
    }
  }

  method PerformGo(t: Tport, s: State)
    requires Shows(t, s) && Inv(s) && !s.work.now.Add? && !s.work.now.Remove?
    modifies t`view, t.members.Values, t.stream`removed
    ensures Shows(t, GoStep(s))
  {
    match s.work.now
    case MakeReady(m) => var enqueue := PerformMakeReady(t, s, m);
    case Recheck(m) => PerformRecheck(t, s, m);
    case Release(m) => PerformRelease(t, s, m);
    case Nothing => SameMemory(s, VisitStep(s));
    case Deliver(m) => SameMemory(s, DeliverStep(s, m));
  }

  method PerformOwn(t: Tport, s: State)
    requires Shows(t, s) && Inv(s)
    modifies t`view, t.members.Values, t.stream, t.stream.mTopics.Values
    ensures Shows(t, GoStep(s)) && fresh(t.stream.mTopics.Values - old(t.stream.mTopics.Values))
  {
    if s.work.now.Add? || s.work.now.Remove? {
      var next := PerformEvent(t, s);
    } else {
      PerformGo(t, s);
    }
  }

  method PerformApi(t: Tport, s: State, a: Action)
    requires Shows(t, s) && Inv(s) && (a.Begin? || a.Find? || a.Bind? || a.Count? || a.Finish? || a.Destroy? || a.Post?)
    modifies t`members, t`view, t.members.Values, t.stream`mRefCount
    ensures Shows(t, Step(s, a)) && fresh(t.members.Values - old(t.members.Values))
  {
    match a
    case Begin(m, topic, notify) => PerformCreate(t, s, m, topic, notify);
    case Bind(m) => PerformBind(t, s, m);
    case Count(m) => PerformCount(t, s, m);
    case Destroy(m) => PerformDestroy(t, s, m);
    case _ => ApiMemory(s, a);
  }

  /** The same choice; the order of the traversal is that of the lists. */
  predicate SameChoice(a: Action, b: Action) {
    a == b || (a.Complete? && b.Complete? && a.ok == b.ok)
  }

  method PerformRest(t: Tport, s: State, a: Action)
    requires Shows(t, s) && Inv(s) && (a.Take? || a.Message? || a.Start? || a.Call? || a.End?)
    modifies t`view, t.members.Values
    ensures Shows(t, Step(s, a))
  {
    match a
    case Message(m, bypass) => PerformMessage(t, s, m, bypass);
    case End(m) => PerformEnd(t, s, m);
    case _ => RestMemory(s, a);
  }

  method PerformOther(t: Tport, s: State, a: Action)
    requires Shows(t, s) && Inv(s) && !a.Complete? && !a.Go?
    modifies t`members, t`view, t.members.Values, t.stream`mRefCount
    ensures Shows(t, Step(s, a)) && fresh(t.members.Values - old(t.members.Values))
  {
    if a.Take? || a.Message? || a.Start? || a.Call? || a.End? {
      PerformRest(t, s, a);
    } else {
      PerformApi(t, s, a);
    }
  }

  method PerformStep(t: Tport, s: State, a: Action)
    requires Shows(t, s) && Inv(s) && !a.Complete?
    modifies t`members, t`view, t.members.Values, t.stream, t.stream.mTopics.Values
    ensures Shows(t, Step(s, a))
    ensures fresh(t.members.Values - old(t.members.Values))
    ensures fresh(t.stream.mTopics.Values - old(t.stream.mTopics.Values))
  {
    if a.Go? {
      PerformOwn(t, s);
    } else {
      PerformOther(t, s, a);
    }
  }

  /** Any choice of the scheduler: the objects go from what one state says to what the next says. */
  method Perform(t: Tport, s: State, a: Action) returns (done: Action)
    requires Shows(t, s) && Inv(s)
    modifies t`members, t`view, t.members.Values, t.stream, t.stream.mTopics.Values
    ensures Shows(t, Step(s, done)) && SameChoice(a, done)
    ensures fresh(t.members.Values - old(t.members.Values))
    ensures fresh(t.stream.mTopics.Values - old(t.stream.mTopics.Values))
  {
    done := a;
    if a.Complete? {
      var order := PerformComplete(t, s, a.ok);
      done := Complete(a.ok, order);
    } else {
      PerformStep(t, s, a);
    }
  }

  method NewTport() returns (t: Tport)
    ensures fresh(t) && fresh(t.stream) && t.members == map[] && t.stream.mTopics == map[] && Shows(t, Initial())
  {
    t := new Tport();
    assert MemoryOf(Initial()) == Memory(map[], map[], StreamView(false, 0, {}, false, false));
  }

  method PlayOne(t: Tport, s: State, done: seq<Action>, a: Action) returns (s': State, b: Action)
    requires Shows(t, s) && s == Run(Initial(), done)
    modifies t`members, t`view, t.members.Values, t.stream, t.stream.mTopics.Values
    ensures Shows(t, s') && s' == Run(Initial(), done + [b]) && SameChoice(a, b)
    ensures fresh(t.members.Values - old(t.members.Values))
    ensures fresh(t.stream.mTopics.Values - old(t.stream.mTopics.Values))
  {
    InitialInv();
    RunInv(Initial(), done);
    b := Perform(t, s, a);
    s' := Step(s, b);
    RunSnoc(Initial(), done, b);
  }

  /** In every run from the start the objects hold what the machine says. */
  method Play(script: seq<Action>) returns (t: Tport, s: State, done: seq<Action>)
    ensures Shows(t, s) && s == Run(Initial(), done)
    ensures |done| == |script| && forall i :: 0 <= i < |script| ==> SameChoice(script[i], done[i])
  {
    t := NewTport();
    s, done := Initial(), [];
    for n := 0 to |script|
      invariant Shows(t, s) && s == Run(Initial(), done)
      invariant |done| == n && forall i :: 0 <= i < n ==> SameChoice(script[i], done[i])
      invariant fresh(t) && fresh(t.stream) && fresh(t.members.Values) && fresh(t.stream.mTopics.Values)
    {
      var b;
      s, b := PlayOne(t, s, done, script[n]);
      done := done + [b];
    }
  }

  /** No list of a topic is ever empty, and its rotation pointer is NULL or a member on it. */
  lemma ListsInUse(t: Tport, s: State, topic: Topic)
    requires Shows(t, s) && Reachable(s) && topic in t.stream.mTopics
    ensures t.stream.mTopics[topic].Valid() && t.stream.mTopics[topic].subs != []
  {
    ReachableInv(s);
    assert HasMember(s, topic);
    var m :| m in Listed(s) && m in s.api.topicOf && s.api.topicOf[m] == topic;
    assert OnOf(s)[m] == topic;
    assert m in t.stream.mTopics[topic].subs;
  }

  /** The object of a freed member is destroyed and was ready, and no list has it. */
  lemma FreedObject(t: Tport, s: State, m: Id)
    requires Shows(t, s) && Reachable(s) && m in t.members && t.members[m].freed
    ensures var sub := t.members[m]; sub.mDestroyed && sub.mReady && sub.mRefCount == 0
    ensures forall topic :: topic in t.stream.mTopics ==> m !in t.stream.mTopics[topic].subs
  {
    assert t.members[m].Is(FieldsOf(s, m));
    FreedLast(s, m);
    ReachableInv(s);
    assert Ok(s, m) && RefOkOf(s, m);
    assert m !in OnOf(s);
  }
}
