/** What holds of a stream and its members in every run of the machine in Lifecycle. */
module LifecycleTheorems {
  import opened Wrappers
  import opened Lifecycle

  /**
    The stream's reference count is its topics and the members whose create has incremented it and whose add
    event has not run, less the one member, if any, whose add event has run between the assignment of
    mTportStream and the increment in its create. Without such a member it is exactly topics and pending adds.
    It goes below 0, which is 2^32 - 1 in the code, exactly if there is such a member and nothing else: then that
    member was destroyed and removed before its create came to the increment.
   */
  lemma RefCountExact(s: State)
    requires Reachable(s)
    ensures s.stream.refcount == |s.stream.topics| + |Owing(s)| - |Early(s)| >= -1
    ensures |Early(s)| <= 1 && (forall m :: m in Early(s) ==> s.api.lock == HeldBy(m))
    ensures s.api.lock == Free ==> s.stream.refcount == |s.stream.topics| + |s.api.found - s.marks.added|
    ensures s.stream.refcount < 0 <==> s.stream.topics == {} && Owing(s) == {} && Early(s) != {}
    ensures s.stream.refcount < 0 ==> Early(s) <= s.api.premature
  {
    ReachableInv(s);
    EarlyHolds(s);
    if s.api.lock == Free {
      LockFree(s);
    }
    assert s.stream.topics == {} <==> |s.stream.topics| == 0;
    assert Owing(s) == {} <==> |Owing(s)| == 0;
    assert Early(s) == {} <==> |Early(s)| == 0;
    assert s.stream.topics == {} ==> Listed(s) == {};
  }

  /**
    The assertion of sbfTport_removeTopic fails in a step exactly when that step removes a topic, one topic is
    left, no add is pending and the add event of a member has run ahead of its create's increment.
   */
  lemma AssertionFailsExactly(s: State, a: Action)
    requires Reachable(s) && !s.stream.asserted
    ensures Step(s, a).stream.asserted
       <==> && a.Go? && s.work.now.Remove? && s.work.now.m in s.marks.ready && OnlyOfItsTopic(s, s.work.now.m)
            && |s.stream.topics| == 2 && Owing(s) == {} && Early(s) != {}
  {
    ReachableInv(s);
    if a.Go? && s.work.now.Remove? {
      RemoveAsserts(s, s.work.now.m);
    }
  }

  lemma RemoveAsserts(s: State, m: Id)
    requires Inv(s) && !s.stream.asserted && s.work.now == Remove(m)
    ensures RemoveStep(s, m).stream.asserted
       <==> m in s.marks.ready && OnlyOfItsTopic(s, m) && |s.stream.topics| == 2 && Owing(s) == {} && Early(s) != {}
  {
    assert Ok(s, m);
    EarlyHolds(s);
    if m in s.marks.ready && OnlyOfItsTopic(s, m) {
      assert m in Listed(s);
      LastTopicAsserts(s, s.api.topicOf[m]);
    }
  }

  lemma LastTopicAsserts(s: State, t: Topic)
    requires CountOk(s) && |Early(s)| <= 1 && t in s.stream.topics && !s.stream.asserted
    ensures WithoutTopic(s.stream, t, Early(s) != {}).asserted
       <==> |s.stream.topics| == 2 && Owing(s) == {} && Early(s) != {}
  {
    var left := s.stream.topics - {t};
    assert s.stream.topics == left + {t};
    assert |s.stream.topics| == |left| + 1;
    assert left == {} <==> |left| == 0;
    assert Owing(s) == {} <==> |Owing(s)| == 0;
    assert Early(s) == {} <==> |Early(s)| == 0;
  }

  lemma SomeEvent(es: seq<Event>)
    ensures es == [] || exists m :: AddEvent(m) in es || RemoveEvent(m) in es
  {
    if es != [] {
      var e := es[0];
      assert e in es && (e == AddEvent(e.m) || e == RemoveEvent(e.m));
    }
  }

  /** A removed stream has no topic, no member that waits to be added and no event of a member left. */
  lemma RemovedSafely(s: State)
    requires Reachable(s) && s.stream.removed
    ensures s.stream.topics == {} && s.api.found <= s.marks.unlinked && s.work.events == []
    ensures forall m: Id :: m !in s.work.pending && OwnOf(s.work.now, m) in {NothingOwn, RecheckOwn, ReleaseOwn}
  {
    ReachableInv(s);
    SomeEvent(s.work.events);
    assert Listed(s) == {};
    forall m: Id
      ensures m in s.api.found ==> m in s.marks.unlinked
      ensures AddEvent(m) !in s.work.events && RemoveEvent(m) !in s.work.events
      ensures m !in s.work.pending && OwnOf(s.work.now, m) in {NothingOwn, RecheckOwn, ReleaseOwn}
    {
      assert Ok(s, m);
      assert m !in Listed(s);
    }
  }

  /**
    The removal of the last topic of a stream without pending adds finds the count at 0 if and only if every
    added member is counted; one that is not has been destroyed by a callback.
   */
  lemma LastTopicSeen(s: State, m: Id)
    requires Reachable(s) && s.work.now == Remove(m) && m in s.marks.ready
    requires OnlyOfItsTopic(s, m) && s.stream.topics == {s.api.topicOf[m]} && s.api.found <= s.marks.added
    ensures GoStep(s).work.now == Recheck(m) <==> Early(s) == {}
    ensures GoStep(s).stream.hurried <==> Early(s) != {}
    ensures Early(s) <= s.api.premature
  {
    ReachableInv(s);
    NothingOwed(s);
    EarlyHolds(s);
    assert Early(s) == {} <==> |Early(s)| == 0;
    assert s.stream.topics - {s.api.topicOf[m]} == {};
    forall x | x in Early(s) ensures x in s.api.premature {
      assert Ok(s, x);
      assert x in Listed(s) ==> s.api.topicOf[x] == s.api.topicOf[m];
    }
  }

  /**
    When all its members are removed and the event thread is idle, the stream is gone if and only if every
    member that had been added was counted when the last topic went. That is so unless a member was destroyed
    from a callback before its create had returned.
   */
  lemma GoneWithItsMembers(s: State)
    requires Reachable(s) && IsIdle(s.work) && s.api.found != {} && s.api.found <= s.marks.unlinked
    ensures s.stream.removed <==> !s.stream.hurried
    ensures s.api.premature == {} ==> s.stream.removed
  {
    ReachableInv(s);
    forall m: Id ensures m in s.api.found ==> m in s.marks.added {
      assert Ok(s, m);
    }
    assert Listed(s) == {} by {
      forall m: Id ensures m !in Listed(s) {
        assert Ok(s, m);
      }
    }
    assert forall t :: t in s.stream.topics ==> HasMember(s, t);
    assert s.stream.topics == {};
  }

  /** There is nothing for the event thread to do. */
  predicate Settled(s: State) {
    IsIdle(s.work) && s.work.events == [] && s.api.lock == Free && s.stream.completion == Succeeded
  }

  /**
    On a stream that was added, when nothing is left to do, every member is ready and every one whose destroy
    has queued its remove event is unlinked and released; it is freed when its last callback has ended.
   */
  lemma AllDone(s: State, m: Id)
    requires Reachable(s) && Settled(s) && m in s.api.topicOf
    ensures m in s.marks.ready
    ensures m in s.api.posted <==> m in s.marks.released
    ensures m in s.refs.freed <==> m in s.api.posted && m !in s.refs.queue + s.refs.cleared + s.refs.running
  {
    ReachableInv(s);
    assert Ok(s, m);
    assert RefOkOf(s, m);
  }

  /**
    A member is freed only after it is released, and never while a callback for it is queued or has begun. Its
    create has returned then, unless the member was destroyed from a callback before that.
   */
  lemma FreedLast(s: State, m: Id)
    requires Reachable(s) && m in s.refs.freed
    ensures m in s.marks.released && m !in s.refs.queue + s.refs.cleared + s.refs.running && m !in Listed(s)
    ensures RemoveEvent(m) !in s.work.events && AddEvent(m) !in s.work.events && OwnOf(s.work.now, m) == NothingOwn
    ensures m in s.api.created || (m in s.api.premature && s.api.lock == HeldBy(m))
  {
    ReachableInv(s);
    assert Ok(s, m);
    assert RefOkOf(s, m);
  }

  /** What can happen to a member once. */
  datatype What = BecomesReady | IsRemoved | IsFreed

  predicate Has(s: State, what: What, m: Id) {
    match what
    case BecomesReady => m in s.marks.ready
    case IsRemoved => m in s.marks.unlinked
    case IsFreed => m in s.refs.freed
  }

  /** The step runs sbfSub_ready, takes the member off its list or calls sbfSubFree for it. */
  predicate Happens(s: State, a: Action, what: What, m: Id) {
    match what
    case BecomesReady => a.Go? && s.work.now == MakeReady(m)
    case IsRemoved => a.Go? && s.work.now == Remove(m) && m in s.marks.ready
    case IsFreed =>
      && m in s.refs.count && s.refs.count[m] == 1
      && ((a.Go? && s.work.now == Release(m)) || (a == End(m) && m in s.refs.running))
  }

  function Times(s: State, actions: seq<Action>, what: What, m: Id): nat
    decreases |actions|
  {
    if actions == [] then 0
    else (if Happens(s, actions[0], what, m) then 1 else 0) + Times(Step(s, actions[0]), actions[1..], what, m)
  }

  /** It happens only to a member to which it has not happened, and then it has. */
  lemma HappensOnce(s: State, a: Action, what: What, m: Id)
    requires Inv(s)
    ensures Happens(s, a, what, m) ==> !Has(s, what, m)
    ensures Has(Step(s, a), what, m) <==> Has(s, what, m) || Happens(s, a, what, m)
  {
    assert Ok(s, m);
    assert RefOkOf(s, m);
    match what
    case BecomesReady => ReadyStep(s, a, m);
    case IsRemoved => UnlinkedStep(s, a, m);
    case IsFreed => FreedStep(s, a, m);
  }

  lemma ReadyStep(s: State, a: Action, m: Id)
    ensures m in Step(s, a).marks.ready <==> m in s.marks.ready || Happens(s, a, BecomesReady, m)
  {
  }

  lemma UnlinkedStep(s: State, a: Action, m: Id)
    ensures m in Step(s, a).marks.unlinked <==> m in s.marks.unlinked || Happens(s, a, IsRemoved, m)
  {
  }

  lemma FreedStep(s: State, a: Action, m: Id)
    requires Inv(s) && Ok(s, m) && RefOkOf(s, m)
    ensures Has(Step(s, a), IsFreed, m) <==> Has(s, IsFreed, m) || Happens(s, a, IsFreed, m)
  {
  }

  /** In every run each member becomes ready at most once, is removed at most once and is freed at most once. */
  lemma {:induction false} ExactlyOnce(s: State, actions: seq<Action>, what: What, m: Id)
    requires Inv(s)
    ensures Times(s, actions, what, m) == (if Has(Run(s, actions), what, m) then 1 else 0) - (if Has(s, what, m) then 1 else 0)
    decreases |actions|
  {
    if actions != [] {
      HappensOnce(s, actions[0], what, m);
      InvStep(s, actions[0]);
      ExactlyOnce(Step(s, actions[0]), actions[1..], what, m);
    }
  }

  // ---------------------------------------------------------------------------------------------
  // Callbacks after a destroy
  // ---------------------------------------------------------------------------------------------

  /** Calls of the member's callbacks that have passed the check of mDestroyed and not begun. */
  function Late(s: State, m: Id): nat {
    s.refs.cleared[m] + (if s.work.now == Deliver(m) then 1 else 0)
  }

  lemma LateStep(s: State, a: Action, m: Id)
    requires m in s.api.destroyed
    ensures m in Step(s, a).api.destroyed
    ensures Step(s, a).refs.calls[m] + Late(Step(s, a), m) == s.refs.calls[m] + Late(s, m)
  {
    if a.Go? {
      LateGo(s, m);
    } else {
      LateOther(s, a, m);
    }
  }

  lemma LateOther(s: State, a: Action, m: Id)
    requires m in s.api.destroyed && !a.Go?
    ensures m in Step(s, a).api.destroyed
    ensures Step(s, a).refs.calls[m] + Late(Step(s, a), m) == s.refs.calls[m] + Late(s, m)
  {
  }

  lemma LateGo(s: State, m: Id)
    requires m in s.api.destroyed
    ensures m in GoStep(s).api.destroyed
    ensures GoStep(s).refs.calls[m] + Late(GoStep(s), m) == s.refs.calls[m] + Late(s, m)
  {
  }

  /**
    After a destroy the callbacks that start are exactly those that passed the check of mDestroyed before it:
    in every run each start takes one of them and none is added.
   */
  lemma {:induction false} LateCalls(s: State, actions: seq<Action>, m: Id)
    requires m in s.api.destroyed
    ensures Run(s, actions).refs.calls[m] + Late(Run(s, actions), m) == s.refs.calls[m] + Late(s, m)
    decreases |actions|
  {
    if actions != [] {
      LateStep(s, actions[0], m);
      LateCalls(Step(s, actions[0]), actions[1..], m);
    }
  }

  /** In the run the queue of the member begins one of its callbacks only after the one before has ended. */
  ghost predicate OneByOne(s: State, actions: seq<Action>, m: Id)
    decreases |actions|
  {
    actions != [] ==>
      && (actions[0] == Start(m) ==> m !in s.refs.cleared + s.refs.running)
      && OneByOne(Step(s, actions[0]), actions[1..], m)
  }

  lemma {:induction false} OneAtWork(s: State, actions: seq<Action>, m: Id)
    requires OneByOne(s, actions, m) && s.refs.cleared[m] + s.refs.running[m] <= 1
    ensures Run(s, actions).refs.cleared[m] + Run(s, actions).refs.running[m] <= 1
    decreases |actions|
  {
    if actions != [] {
      OneAtWork(Step(s, actions[0]), actions[1..], m);
    }
  }

  /**
    With one thread for its queue, at most two callbacks of a member start after its destroy, one of the queue
    and one that bypasses it.
   */
  lemma AtMostTwoLate(before: seq<Action>, after: seq<Action>, m: Id)
    requires OneByOne(Initial(), before, m) && m in Run(Initial(), before).api.destroyed
    ensures Run(Run(Initial(), before), after).refs.calls[m] <= Run(Initial(), before).refs.calls[m] + 2
  {
    OneAtWork(Initial(), before, m);
    LateCalls(Run(Initial(), before), after, m);
  }

  // ---------------------------------------------------------------------------------------------
  // Every callback of a live member calls the user once
  // ---------------------------------------------------------------------------------------------

  /** What happens to the callbacks of a member, as seen from outside. */
  datatype Deed = Queued | Bypassed | Begun | Skipped

  /**
    A callback is queued or handed over for a member that is not destroyed: a message, or its readiness if it
    has a ready callback. A queued one begins when the application's queue takes it, and is skipped if its
    member has been destroyed by then.
   */
  predicate Does(s: State, a: Action, deed: Deed, m: Id) {
    match deed
    case Queued => m !in s.api.destroyed && (Heard(s, a, m, false) || (a.Go? && s.work.now == MakeReady(m) && m in s.api.notify))
    case Bypassed => m !in s.api.destroyed && Heard(s, a, m, true)
    case Begun => a == Start(m) && m in s.refs.queue
    case Skipped => a == Start(m) && m in s.refs.queue && m in s.api.destroyed
  }

  /** A message arrives for the member, which is on a list, between two events. */
  predicate Heard(s: State, a: Action, m: Id, bypass: bool) {
    a == Message(m, bypass) && IsIdle(s.work) && m in s.marks.added && m !in s.marks.unlinked
  }

  function Tally(s: State, actions: seq<Action>, deed: Deed, m: Id): nat
    decreases |actions|
  {
    if actions == [] then 0
    else (if Does(s, actions[0], deed, m) then 1 else 0) + Tally(Step(s, actions[0]), actions[1..], deed, m)
  }

  function One(b: bool): nat {
    if b then 1 else 0
  }

  /** Calls that have been made or are certain to be made. */
  function Due(s: State, m: Id): nat {
    s.refs.calls[m] + Late(s, m)
  }

  lemma AccountHeard(s: State, x: Id, bypass: bool, m: Id)
    requires Inv(s)
    ensures var a, s' := Message(x, bypass), MessageStep(s, x, bypass);
            && s'.refs.queue[m] == s.refs.queue[m] + One(Does(s, a, Queued, m))
            && Due(s', m) == Due(s, m) + One(Does(s, a, Bypassed, m))
  {
    assert Ok(s, m);
    assert RefOkOf(s, m);
  }

  lemma AccountGo(s: State, m: Id)
    requires Inv(s)
    ensures var s' := GoStep(s);
            s'.refs.queue[m] == s.refs.queue[m] + One(Does(s, Go, Queued, m)) && Due(s', m) == Due(s, m)
  {
    assert Ok(s, m);
    assert RefOkOf(s, m);
  }

  lemma AccountStart(s: State, x: Id, m: Id)
    ensures var a, s' := Start(x), StartStep(s, x);
            && s'.refs.queue[m] + One(Does(s, a, Begun, m)) == s.refs.queue[m]
            && Due(s', m) + One(Does(s, a, Skipped, m)) == Due(s, m) + One(Does(s, a, Begun, m))
  {
  }

  lemma AccountOther(s: State, a: Action, m: Id)
    requires !a.Message? && !a.Go? && !a.Start?
    ensures Step(s, a).refs.queue[m] == s.refs.queue[m] && Due(Step(s, a), m) == Due(s, m)
  {
  }

  lemma AccountStep(s: State, a: Action, m: Id)
    requires Inv(s)
    ensures Step(s, a).refs.queue[m] + One(Does(s, a, Begun, m)) == s.refs.queue[m] + One(Does(s, a, Queued, m))
    ensures Due(Step(s, a), m) + One(Does(s, a, Skipped, m))
         == Due(s, m) + One(Does(s, a, Begun, m)) + One(Does(s, a, Bypassed, m))
  {
    match a
    case Message(x, bypass) => AccountHeard(s, x, bypass, m);
    case Go => AccountGo(s, m);
    case Start(x) => AccountStart(s, x, m);
    case _ => AccountOther(s, a, m);
  }

  lemma {:induction false} AccountRun(s: State, actions: seq<Action>, m: Id)
    requires Inv(s)
    ensures Run(s, actions).refs.queue[m] + Tally(s, actions, Begun, m) == s.refs.queue[m] + Tally(s, actions, Queued, m)
    ensures Due(Run(s, actions), m) + Tally(s, actions, Skipped, m)
         == Due(s, m) + Tally(s, actions, Begun, m) + Tally(s, actions, Bypassed, m)
    decreases |actions|
  {
    if actions != [] {
      AccountStep(s, actions[0], m);
      InvStep(s, actions[0]);
      AccountRun(Step(s, actions[0]), actions[1..], m);
    }
  }

  /** A destroyed member stays destroyed. */
  lemma StaysDestroyed(s: State, a: Action, m: Id)
    requires m in s.api.destroyed
    ensures m in Step(s, a).api.destroyed
  {
  }

  lemma {:induction false} NoneSkipped(s: State, actions: seq<Action>, m: Id)
    requires m !in Run(s, actions).api.destroyed
    ensures m !in s.api.destroyed && Tally(s, actions, Skipped, m) == 0
    decreases |actions|
  {
    if actions != [] {
      NoneSkipped(Step(s, actions[0]), actions[1..], m);
      if m in s.api.destroyed {
        StaysDestroyed(s, actions[0], m);
        assert false;
      }
    }
  }

  /**
    In every run each callback that was queued for a member is still queued or has begun, and each one that has
    begun or bypasses the queue has called the user once or is just about to, but for those skipped because
    their member was destroyed. For a member that is not destroyed none is skipped: it gets every message.
   */
  lemma CalledOncePerCallback(actions: seq<Action>, m: Id)
    ensures var s := Run(Initial(), actions);
            var total := (deed: Deed) => Tally(Initial(), actions, deed, m);
            && total(Queued) == total(Begun) + s.refs.queue[m]
            && total(Begun) + total(Bypassed)
               == s.refs.calls[m] + s.refs.cleared[m] + (if s.work.now == Deliver(m) then 1 else 0) + total(Skipped)
            && (m !in s.api.destroyed ==> total(Skipped) == 0)
  {
    InitialInv();
    AccountRun(Initial(), actions, m);
    if m !in Run(Initial(), actions).api.destroyed {
      NoneSkipped(Initial(), actions, m);
    }
  }

  lemma FailedStep(s: State, a: Action)
    requires s.stream.completion == Failed
    ensures Step(s, a).stream.completion == Failed
  {
  }

  /** If the handler reports that the stream could not be added, no member ever becomes ready. */
  lemma NotAddedNeverReady(s: State, order: seq<Id>, actions: seq<Action>)
    requires Reachable(s) && IsIdle(s.work) && s.api.lock == Free && s.stream.completion == Waiting
    requires s.stream.creator.Some? && Lists(order, s.marks.added - s.marks.unlinked)
    ensures Run(Step(s, Complete(false, order)), actions).marks.ready == {}
  {
    ReachableInv(s);
    InvStep(s, Complete(false, order));
    FailedForGood(Step(s, Complete(false, order)), actions);
  }

  lemma {:induction false} FailedForGood(s: State, actions: seq<Action>)
    requires Inv(s) && s.stream.completion == Failed
    ensures Run(s, actions).stream.completion == Failed && Run(s, actions).marks.ready == {}
    decreases |actions|
  {
    if actions == [] {
      forall m: Id ensures m !in s.marks.ready {
        assert Ok(s, m);
      }
    } else {
      FailedStep(s, actions[0]);
      InvStep(s, actions[0]);
      FailedForGood(Step(s, actions[0]), actions[1..]);
    }
  }
}
