/** Runs of the lifecycle that show what can go wrong, and that every stream that is added can settle. */
module LifecycleRuns {
  import opened Lifecycle
  import opened LifecycleTheorems
  import opened Wrappers

  function ManySteps(s: State, a: Action, b: Action, c: Action, d: Action, e: Action): State {
    Step(Step(Step(Step(Step(s, a), b), c), d), e)
  }

  lemma ReachableSteps(s: State, a: Action, b: Action, c: Action, d: Action, e: Action)
    requires Reachable(s)
    ensures Reachable(ManySteps(s, a, b, c, d, e))
  {
    ReachableStep(s, a);
    ReachableStep(Step(s, a), b);
    ReachableStep(Step(Step(s, a), b), c);
    ReachableStep(Step(Step(Step(s, a), b), c), d);
    ReachableStep(Step(Step(Step(Step(s, a), b), c), d), e);
  }

  /** Member 0 on topic 0 has made the stream. */
  function OneCreated(): State {
    State(Api(map[0 := 0], {}, Free, {0}, {0}, {0}, {0}, {}, {}, {}), Marks({}, {}, {}, {}, {}),
          Stream(Some(0), Waiting, 1, {}, false, false, false), Work([], Nothing, None, []),
          Refs(map[0 := 1], multiset{}, multiset{}, multiset{}, {}, multiset{}))
  }

  /** It has become ready. */
  function OneReady(): State {
    OneCreated().(marks := Marks({0}, {0}, {}, {}, {}), stream := Stream(Some(0), Succeeded, 1, {0}, false, false, false))
  }

  /** It is destroyed; the add event of member 1 on topic 1 is queued and mTportStream assigned in its create. */
  function OneJoining(): State {
    State(Api(map[0 := 0, 1 := 1], {}, HeldBy(1), {0, 1}, {0, 1}, {0}, {0}, {0}, {}, {}), Marks({0}, {0}, {}, {}, {}),
          Stream(Some(0), Succeeded, 1, {0}, false, false, false), Work([AddEvent(1)], Nothing, None, []),
          Refs(map[0 := 1, 1 := 1], multiset{}, multiset{}, multiset{}, {}, multiset{}))
  }

  /** That add event has run, ahead of the increment, and the remove event of member 0 has its turn. */
  function OneEarly(): State {
    State(Api(map[0 := 0, 1 := 1], {}, HeldBy(1), {0, 1}, {0, 1}, {0}, {0}, {0}, {}, {0}), Marks({0, 1}, {0, 1}, {}, {}, {}),
          Stream(Some(0), Succeeded, 1, {0, 1}, false, false, false), Work([], Remove(0), None, []),
          Refs(map[0 := 1, 1 := 1], multiset{}, multiset{}, multiset{}, {}, multiset{}))
  }

  lemma Creates()
    ensures OneCreated() == ManySteps(Initial(), Begin(0, 0, false), Find(0), Bind(0), Count(0), Finish(0))
  {
  }

  lemma BecomesReadyNext()
    ensures OneReady() == ManySteps(OneCreated(), Complete(true, []), Go, Go, Go, Go)
  {
    var s1 := Step(OneCreated(), Complete(true, []));
    assert s1.work == Work([], Nothing, None, [0]);
    var s2 := Step(s1, Go);
    assert s2.work == Work([], Add(0), Some(0), []);
  }

  lemma Joins()
    ensures OneJoining() == ManySteps(OneReady(), Destroy(0), Begin(1, 1, false), Find(1), Bind(1), Destroy(0))
  {
  }

  lemma AddedEarly()
    ensures OneEarly() == ManySteps(OneJoining(), Take, Go, Go, Post(0), Take)
  {
    var s1 := Step(OneJoining(), Take);
    assert s1.work == Work([], Add(1), None, []);
    var s2 := Step(s1, Go);
    assert s2.stream == OneEarly().stream && s2.work == Work([], MakeReady(1), None, []);
    var s3 := Step(s2, Go);
    assert s3.marks == OneEarly().marks;
  }

  /** The assertion can fail, although no member is used after its destroy or destroyed before its create returns. */
  lemma AssertionCanFail()
    ensures Reachable(OneEarly()) && !OneEarly().stream.asserted && Step(OneEarly(), Go).stream.asserted
  {
    InitialReachable();
    Creates();
    ReachableSteps(Initial(), Begin(0, 0, false), Find(0), Bind(0), Count(0), Finish(0));
    BecomesReadyNext();
    ReachableSteps(OneCreated(), Complete(true, []), Go, Go, Go, Go);
    Joins();
    ReachableSteps(OneReady(), Destroy(0), Begin(1, 1, false), Find(1), Bind(1), Destroy(0));
    AddedEarly();
    ReachableSteps(OneJoining(), Take, Go, Go, Post(0), Take);
    EarlyRemove();
  }

  lemma EarlyRemove()
    ensures Step(OneEarly(), Go).stream.asserted
  {
    var s := OneEarly();
    assert OnlyOfItsTopic(s, 0);
    assert 1 in s.stream.topics - {0};
  }

  // ---------------------------------------------------------------------------------------------
  // A destroy from a callback before the create has returned
  // ---------------------------------------------------------------------------------------------

  /** The add event of member 0 is next, ahead of the increment in its create. */
  function AloneJoining(): State {
    State(Api(map[0 := 0], {0}, HeldBy(0), {0}, {0}, {}, {}, {}, {}, {}), Marks({}, {}, {}, {}, {}),
          Stream(Some(0), Succeeded, 0, {}, false, false, false), Work([], Add(0), Some(0), []),
          Refs(map[0 := 1], multiset{}, multiset{}, multiset{}, {}, multiset{}))
  }

  /** Its ready callback has started. */
  function AloneCalled(): State {
    AloneJoining().(marks := Marks({0}, {0}, {}, {}, {}), stream := Stream(Some(0), Succeeded, 0, {0}, false, false, false),
                    work := Work([], Nothing, None, []),
                    refs := Refs(map[0 := 2], multiset{}, multiset{}, multiset{0}, {}, multiset{0}))
  }

  /** The callback has destroyed the member, and the event thread has removed and released it. */
  function AloneReleased(): State {
    State(Api(map[0 := 0], {0}, HeldBy(0), {0}, {0}, {}, {}, {0}, {0}, {0}), Marks({0}, {0}, {}, {0}, {0}),
          Stream(Some(0), Succeeded, -1, {}, false, false, true), Work([], Nothing, None, []),
          Refs(map[0 := 1], multiset{}, multiset{}, multiset{0}, {}, multiset{0}))
  }

  /** The callback has ended. */
  function AloneFreed(): State {
    AloneReleased().(refs := Refs(map[0 := 0], multiset{}, multiset{}, multiset{}, {0}, multiset{0}))
  }

  lemma AloneJoins()
    ensures AloneJoining() == ManySteps(Initial(), Begin(0, 0, true), Find(0), Bind(0), Complete(true, []), Go)
  {
    var s := Step(Step(Step(Initial(), Begin(0, 0, true)), Find(0)), Bind(0));
    assert Step(s, Complete(true, [])).work == Work([], Nothing, None, [0]);
  }

  lemma AloneIsCalled()
    ensures AloneCalled() == ManySteps(AloneJoining(), Go, Go, Go, Start(0), Call(0))
  {
    var s1 := Step(AloneJoining(), Go);
    assert s1.work == Work([], MakeReady(0), Some(0), []);
    var s2 := Step(s1, Go);
    assert s2.work == Work([], Nothing, Some(0), []);
    assert s2.refs == Refs(map[0 := 2], multiset{0}, multiset{}, multiset{}, {}, multiset{});
  }

  lemma AloneIsReleased()
    ensures AloneReleased() == ManySteps(AloneCalled(), Destroy(0), Post(0), Take, Go, Go)
  {
    var s := Step(Step(Step(AloneCalled(), Destroy(0)), Post(0)), Take);
    assert s.work == Work([], Remove(0), None, []);
    assert Early(s) == {0} && OnlyOfItsTopic(s, 0);
    assert s.stream.topics - {0} == {};
    assert Step(s, Go).stream == AloneReleased().stream;
    assert Step(s, Go).work == Work([], Release(0), None, []);
  }

  lemma AloneReachesCalled()
    ensures Reachable(AloneCalled())
  {
    InitialReachable();
    AloneJoins();
    ReachableSteps(Initial(), Begin(0, 0, true), Find(0), Bind(0), Complete(true, []), Go);
    AloneIsCalled();
    ReachableSteps(AloneJoining(), Go, Go, Go, Start(0), Call(0));
  }

  lemma AloneReachesFreed()
    ensures Reachable(AloneFreed())
  {
    AloneReachesCalled();
    AloneIsReleased();
    ReachableSteps(AloneCalled(), Destroy(0), Post(0), Take, Go, Go);
    AloneIsFreed();
    ReachableStep(AloneReleased(), End(0));
  }

  lemma AloneIsFreed()
    ensures AloneFreed() == Step(AloneReleased(), End(0))
  {
  }

  /** A member can be freed while its create has still to use it; the stream's reference count is below 0 then. */
  lemma FreedInCreate()
    ensures var s := AloneFreed();
            Reachable(s) && 0 in s.refs.freed && s.api.lock == HeldBy(0) && 0 !in s.api.counted && s.stream.refcount == -1
  {
    AloneReachesFreed();
  }

  /** And then the stream stays: nothing is left to do, its one member is removed and it is not. */
  lemma StreamCanStay()
    ensures var s := Step(Step(AloneFreed(), Count(0)), Finish(0));
            && Reachable(s) && Settled(s) && s.api.found == s.marks.unlinked == {0}
            && s.stream.refcount == 0 && s.stream.topics == {} && !s.stream.removed
  {
    AloneReachesFreed();
    ReachableStep(AloneFreed(), Count(0));
    ReachableStep(Step(AloneFreed(), Count(0)), Finish(0));
  }

  // ---------------------------------------------------------------------------------------------
  // Callbacks that start after a destroy
  // ---------------------------------------------------------------------------------------------

  /** Member 0 is created and ready, and its ready callback is queued. */
  function OneNotified(): State {
    OneReady().(api := OneCreated().api.(notify := {0}),
                refs := Refs(map[0 := 2], multiset{0}, multiset{}, multiset{}, {}, multiset{}))
  }

  /** That callback and a message that bypasses the queue have passed the check of mDestroyed before the destroy. */
  function OneLate(): State {
    OneNotified().(api := OneCreated().api.(notify := {0}, destroyed := {0}), work := Work([], Deliver(0), None, []),
                   refs := Refs(map[0 := 2], multiset{}, multiset{0}, multiset{}, {}, multiset{}))
  }

  function OneNotifying(): State {
    OneCreated().(api := OneCreated().api.(notify := {0}))
  }

  lemma OneIsNotifying()
    ensures OneNotifying() == ManySteps(Initial(), Begin(0, 0, true), Find(0), Bind(0), Count(0), Finish(0))
  {
  }

  lemma OneIsNotified()
    ensures OneNotified() == ManySteps(OneNotifying(), Complete(true, []), Go, Go, Go, Go)
  {
    var s1 := Step(OneNotifying(), Complete(true, []));
    assert s1.work == Work([], Nothing, None, [0]);
    var s2 := Step(s1, Go);
    assert s2.work == Work([], Add(0), Some(0), []);
    assert Step(Step(s2, Go), Go).marks == OneNotified().marks;
  }

  lemma OneIsLate()
    ensures OneLate() == Step(Step(Step(OneNotified(), Start(0)), Message(0, true)), Destroy(0))
  {
    assert 0 in Listed(OneNotified());
  }

  lemma OneReachesNotified()
    ensures Reachable(OneNotified())
  {
    InitialReachable();
    OneIsNotifying();
    ReachableSteps(Initial(), Begin(0, 0, true), Find(0), Bind(0), Count(0), Finish(0));
    OneIsNotified();
    ReachableSteps(OneNotifying(), Complete(true, []), Go, Go, Go, Go);
  }

  lemma ReachableThree(s: State, a: Action, b: Action, c: Action)
    requires Reachable(s)
    ensures Reachable(Step(Step(Step(s, a), b), c))
  {
    ReachableStep(s, a);
    ReachableStep(Step(s, a), b);
    ReachableStep(Step(Step(s, a), b), c);
  }

  lemma OneReachesLate()
    ensures Reachable(OneLate())
  {
    OneReachesNotified();
    OneIsLate();
    ReachableThree(OneNotified(), Start(0), Message(0, true), Destroy(0));
  }

  lemma OneIsCalled()
    ensures Step(Step(OneLate(), Call(0)), Go).refs.calls[0] == 2
  {
  }

  /** Both start after the destroy: as many as AtMostTwoLate allows. */
  lemma CalledAfterDestroy()
    ensures Reachable(OneLate()) && 0 in OneLate().api.destroyed && OneLate().refs.calls[0] == 0
    ensures Step(Step(OneLate(), Call(0)), Go).refs.calls[0] == 2
  {
    OneReachesLate();
    OneIsCalled();
  }

  // ---------------------------------------------------------------------------------------------
  // Every stream that is added can settle
  // ---------------------------------------------------------------------------------------------

  function Rank(now: Now): nat {
    match now
    case Nothing => 0
    case Add(_) => 2
    case MakeReady(_) => 1
    case Remove(_) => 3
    case Recheck(_) => 2
    case Release(_) => 1
    case Deliver(_) => 1
  }

  /** An upper bound on what the event thread has still to do. */
  function Effort(w: Work): nat {
    Rank(w.now) + (if w.visiting.Some? then 4 else 0) + 7 * |w.pending| + 4 * |w.events|
  }

  predicate Drained(w: Work) {
    IsIdle(w) && w.events == []
  }

  function Forward(s: State): Action {
    if IsIdle(s.work) then Take else Go
  }

  /** While no create holds the lock the event thread is never stuck, and each of its steps leaves it less to do. */
  lemma MovesForward(s: State)
    requires Inv(s) && s.api.lock == Free && !Drained(s.work)
    ensures Effort(Step(s, Forward(s)).work) < Effort(s.work)
    ensures Step(s, Forward(s)).api == s.api && Step(s, Forward(s)).stream.completion == s.stream.completion
  {
    if s.work.now.Add? {
      assert Ok(s, s.work.now.m);
    }
  }

  /** The steps of the event thread until nothing is left for it. */
  ghost function Drain(s: State): (actions: seq<Action>)
    requires Inv(s) && s.api.lock == Free
    ensures forall a :: a in actions ==> a.Take? || a.Go?
    ensures Drained(Run(s, actions).work) && Run(s, actions).api == s.api
    ensures Run(s, actions).stream.completion == s.stream.completion
    decreases Effort(s.work)
  {
    if Drained(s.work) then []
    else
      var a := Forward(s);
      MovesForward(s);
      InvStep(s, a);
      var rest := Drain(Step(s, a));
      assert ([a] + rest)[1..] == rest;
      [a] + rest
  }

  lemma {:induction false} RunConcat(s: State, before: seq<Action>, after: seq<Action>)
    ensures Run(s, before + after) == Run(Run(s, before), after)
    decreases |before|
  {
    if before == [] {
      assert before + after == after;
    } else {
      assert (before + after)[1..] == before[1..] + after;
      RunConcat(Step(s, before[0]), before[1..], after);
    }
  }

  lemma {:induction false} Listing(ms: set<Id>) returns (order: seq<Id>)
    ensures Lists(order, ms)
  {
    order := [];
    if ms != {} {
      var m :| m in ms;
      order := Listing(ms - {m});
      Pushed(order, m);
      order := order + [m];
    }
  }

  /** What the application has called is as before. */
  predicate SameCalls(api: Api, api': Api) {
    && api'.topicOf == api.topicOf && api'.notify == api.notify && api'.destroyed == api.destroyed
    && api'.posted == api.posted
  }

  /** The create that holds the lock can go on to its end, whatever the event thread does. */
  lemma Unlocks(s: State, m: Id)
    requires Inv(s) && s.api.lock == HeldBy(m)
    ensures var s' := Run(s, [Find(m), Bind(m), Count(m), Finish(m)]);
            s'.api.lock == Free && SameCalls(s.api, s'.api) && s'.stream.completion == s.stream.completion
  {
    assert Ok(s, m);
    var s1 := Step(s, Find(m));
    var s2 := Step(s1, Bind(m));
    var s3 := Step(s2, Count(m));
    var s4 := Step(s3, Finish(m));
    assert s4.api.lock == Free && s4.stream.completion == s.stream.completion;
    FourSteps(s, Find(m), Bind(m), Count(m), Finish(m));
  }

  lemma FourSteps(s: State, a: Action, b: Action, c: Action, d: Action)
    ensures Run(s, [a, b, c, d]) == Step(Step(Step(Step(s, a), b), c), d)
  {
    assert [] + [a] == [a] && [a] + [b] == [a, b] && [a, b] + [c] == [a, b, c] && [a, b, c] + [d] == [a, b, c, d];
    RunSnoc(s, [], a);
    RunSnoc(s, [a], b);
    RunSnoc(s, [a, b], c);
    RunSnoc(s, [a, b, c], d);
  }

  /** The steps of a create under way, and then those of the event thread, until nothing is left for either. */
  lemma Quiets(s: State) returns (actions: seq<Action>)
    requires Inv(s)
    ensures var s' := Run(s, actions);
            && Inv(s') && s'.api.lock == Free && Drained(s'.work) && SameCalls(s.api, s'.api)
            && s'.stream.completion == s.stream.completion
  {
    actions := [];
    if s.api.lock.HeldBy? {
      var m := s.api.lock.m;
      actions := [Find(m), Bind(m), Count(m), Finish(m)];
      Unlocks(s, m);
    }
    RunInv(s, actions);
    var rest := Drain(Run(s, actions));
    RunInv(Run(s, actions), rest);
    RunConcat(s, actions, rest);
    actions := actions + rest;
  }

  /**
    From every state a stream with a member can settle, unless it could not be added, without another call of
    the application: no order of the steps before leads to a deadlock or loses an event.
   */
  lemma CanSettle(s: State) returns (actions: seq<Action>)
    requires Reachable(s) && s.api.topicOf != map[] && s.stream.completion != Failed
    ensures var s' := Run(s, actions);
            && Settled(s') && SameCalls(s.api, s'.api)
            && s'.marks.ready == s.api.topicOf.Keys && s'.marks.released == s.api.posted
  {
    ReachableInv(s);
    actions := Quiets(s);
    var s1 := Run(s, actions);
    if s1.stream.completion == Waiting {
      var m :| m in s1.api.topicOf;
      assert Ok(s1, m);
      var order := Listing(Listed(s1));
      var s2 := Step(s1, Complete(true, order));
      InvStep(s1, Complete(true, order));
      RunSnoc(s, actions, Complete(true, order));
      var rest := Quiets(s2);
      RunConcat(s, actions + [Complete(true, order)], rest);
      actions := actions + [Complete(true, order)] + rest;
    }
    SettledAll(Run(s, actions));
  }

  lemma SettledAll(s: State)
    requires Inv(s) && Settled(s)
    ensures s.marks.ready == s.api.topicOf.Keys && s.marks.released == s.api.posted
  {
    forall m: Id
      ensures m in s.marks.ready <==> m in s.api.topicOf
      ensures m in s.marks.released <==> m in s.api.posted
    {
      assert Ok(s, m);
    }
  }

  /** A member that the application has from its create can be destroyed at any time, and it is freed in the end. */
  lemma CanDestroy(s: State, m: Id) returns (actions: seq<Action>)
    requires Reachable(s) && m in s.api.created && m !in s.api.destroyed && s.stream.completion != Failed
    ensures var s' := Run(Run(s, [Destroy(m), Post(m)]), actions);
            && Settled(s') && m in s'.marks.released && m in s'.refs.freed
            && s'.api.destroyed == s.api.destroyed + {m}
  {
    var s1 := Step(s, Destroy(m));
    ReachableStep(s, Destroy(m));
    ReachableStep(s1, Post(m));
    assert [Destroy(m), Post(m)][1..] == [Post(m)];
    assert Run(s, [Destroy(m), Post(m)]) == Run(s1, [Post(m)]) == Step(s1, Post(m));
    NotPosted(s, m);
    var s2 := Step(s1, Post(m));
    assert m in s2.api.posted && s2.api.topicOf != map[];
    actions := CanSettle(s2);
    ReachableInv(s2);
    RunInv(s2, actions);
    var rest := EndsAll(Run(s2, actions), m);
    RunConcat(s2, actions, rest);
    actions := actions + rest;
  }

  lemma NotPosted(s: State, m: Id)
    requires Reachable(s) && m in s.api.created && m !in s.api.destroyed
    ensures m !in s.api.posted && m in s.api.topicOf
  {
    ReachableInv(s);
    assert Ok(s, m);
  }

  /** The callbacks of a member that have been queued for it begin and end, and then it is freed. */
  lemma EndsAll(s: State, m: Id) returns (actions: seq<Action>)
    requires Inv(s) && Settled(s) && m in s.marks.released
    ensures var s' := Run(s, actions);
            && m in s'.refs.freed && s'.api == s.api && s'.marks == s.marks && s'.stream == s.stream && s'.work == s.work
    decreases 3 * s.refs.queue[m] + 2 * s.refs.cleared[m] + s.refs.running[m]
  {
    actions := [];
    assert Ok(s, m);
    assert RefOkOf(s, m);
    if m !in s.refs.freed {
      var a := if m in s.refs.running then End(m) else if m in s.refs.cleared then Call(m) else Start(m);
      InvStep(s, a);
      var rest := EndsAll(Step(s, a), m);
      actions := [a] + rest;
      assert actions[1..] == rest;
    }
  }
}
