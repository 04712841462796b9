/** When the pool of ItemPool makes new items and what a get or put that nobody interrupts comes to. */
module PoolTheorems {
  import opened ItemPool

  lemma HolderIs(s: State, p: Thread)
    requires Inv(s) && InCritical(PcOf(s, p))
    ensures s.lock == HeldBy(p) && HolderPc(s) == PcOf(s, p)
  {
    assert InCritical(PcOf(s, p)) <==> s.lock == HeldBy(p);
  }

  // ---------------------------------------------------------------------------------------------
  // A new item is made only when there is none
  // ---------------------------------------------------------------------------------------------

  /** The thread's get has come away with nothing and goes on to make an item. */
  predicate EmptyHanded(pc: Pc) {
    pc == GetUnlock(NULL) || pc == GetNew
  }

  /** The thread has the lock and neither chain has an item. */
  predicate FindsNothing(s: State, p: Thread) {
    s.lock == HeldBy(p) && s.lists.available == [] && s.lists.free == []
  }

  lemma EmptyHandedStep(s: State, a: Action, p: Thread)
    requires Inv(s) && !EmptyHanded(PcOf(s, p)) && EmptyHanded(PcOf(Step(s, a), p))
    ensures a == Go(p) && FindsNothing(s, p)
  {
    match PcOf(s, p) {
      case GetTakeAll => HolderIs(s, p);
      case GetAdvance(_) => HolderIs(s, p);
      case _ =>
    }
  }

  /** A get comes away with nothing only if both lists are empty in that step, while it holds the lock. */
  lemma NothingOnlyIfEmpty(script: seq<Action>, p: Thread)
    requires var s := Run(script);
             !EmptyHanded(PcOf(s, p)) && EmptyHanded(PcOf(Step(s, Go(p)), p))
    ensures FindsNothing(Run(script), p)
  {
    RunInv(script);
    EmptyHandedStep(Run(script), Go(p), p);
  }

  /** The get of the thread that is under way has found both lists empty, in a step of its own with the lock held. */
  predicate HasFoundNothing(script: seq<Action>, p: Thread) {
    script != [] &&
    var before, a := script[..|script| - 1], script[|script| - 1];
    || (a == Go(p) && FindsNothing(Run(before), p))
    || (EmptyHanded(PcOf(Run(before), p)) && HasFoundNothing(before, p))
  }

  lemma {:induction false} EmptyHandedHasFoundNothing(script: seq<Action>, p: Thread)
    requires EmptyHanded(PcOf(Run(script), p))
    ensures HasFoundNothing(script, p)
  {
    var before := script[..|script| - 1];
    if EmptyHanded(PcOf(Run(before), p)) {
      EmptyHandedHasFoundNothing(before, p);
    } else {
      RunInv(before);
      EmptyHandedStep(Run(before), script[|script| - 1], p);
    }
  }

  lemma CreatedStep(s: State, a: Action)
    requires Step(s, a).created != s.created
    ensures a.Go? && PcOf(s, a.p) == GetNew && Step(s, a).created == s.created + 1
  {
    var p := a.p;
    match PcOf(s, p)
    case GetLock =>
    case GetRead =>
    case GetTakeAll =>
    case GetAdvance(_) =>
    case GetUnlock(_) =>
    case GetNew =>
    case _ =>
  }

  /**
    The pool gives its items out again: in every run an item is made only by a get that found both lists empty
    while it held the lock, and never otherwise.
   */
  lemma NewOnlyWhenEmpty(script: seq<Action>, a: Action)
    requires Step(Run(script), a).created != Run(script).created
    ensures a.Go? && HasFoundNothing(script, a.p) && Step(Run(script), a).created == Run(script).created + 1
  {
    CreatedStep(Run(script), a);
    EmptyHandedHasFoundNothing(script, a.p);
  }

  // ---------------------------------------------------------------------------------------------
  // A call that nobody interrupts
  // ---------------------------------------------------------------------------------------------

  /** n steps of the thread alone */
  function Alone(s: State, p: Thread, n: nat): State
    decreases n
  {
    if n == 0 then s else Step(Alone(s, p, n - 1), Go(p))
  }

  /** The call has ended with the item in the caller's hands, and the lists hold what is given. */
  predicate Got(s: State, p: Thread, item: Item, available: seq<Item>, free: seq<Item>) {
    && PcOf(s, p) == Idle && s.lock == Open && item in s.place && s.place[item] == Held
    && s.lists.available == available && s.lists.free == free
  }

  /** The get has the lock and has looked at mAvailable. */
  lemma GetLooks(s: State, p: Thread)
    requires Inv(s) && PcOf(s, p).Idle? && s.lock == Open
    ensures var s2 := Alone(Step(s, Get(p)), p, 2);
            && Inv(s2) && s2.lock == HeldBy(p)
            && s2.lists == s.lists && s2.place == s.place && s2.created == s.created
            && PcOf(s2, p) == if s.lists.available == [] then GetTakeAll else GetAdvance(s.lists.available[0])
  {
    var s0 := Step(s, Get(p));
    StepInv(s, Get(p));
    var s1 := Step(s0, Go(p));
    StepInv(s0, Go(p));
    assert s1 == Alone(s0, p, 1);
    assert PcOf(s1, p) == GetRead;
    StepInv(s1, Go(p));
    assert Step(s1, Go(p)) == Alone(s0, p, 2);
    assert HolderPc(s) == Idle;
  }

  lemma GetPops(s: State, p: Thread)
    requires Inv(s) && PcOf(s, p).GetAdvance?
    ensures var item, s' := PcOf(s, p).item, Step(Step(s, Go(p)), Go(p));
            && s.lists.available != [] && item == s.lists.available[0]
            && Got(s', p, item, s.lists.available[1..], s.lists.free) && s'.created == s.created
  {
    HolderIs(s, p);
    var s1 := Step(s, Go(p));
    assert PcOf(s1, p) == GetUnlock(PcOf(s, p).item);
  }

  /** The get takes over the free list. */
  lemma GetTakesAll(s: State, p: Thread)
    requires Inv(s) && PcOf(s, p).GetTakeAll?
    ensures var s' := Step(s, Go(p));
            && Inv(s') && s'.created == s.created && s'.lists.available == s.lists.free && s'.lists.free == []
            && s.lists.available == []
            && PcOf(s', p) == if s.lists.free == [] then GetUnlock(NULL) else GetAdvance(s.lists.free[0])
  {
    HolderIs(s, p);
    StepInv(s, Go(p));
  }

  lemma GetMakes(s: State, p: Thread)
    requires PcOf(s, p) == GetUnlock(NULL)
    ensures var s' := Step(Step(s, Go(p)), Go(p));
            Got(s', p, s.created + 1, s.lists.available, s.lists.free) && s'.created == s.created + 1
  {
    assert PcOf(Step(s, Go(p)), p) == GetNew;
  }

  /**
    A get that nobody interrupts returns the first item of the available list; if that is empty it takes over the
    free list and returns its first item, the one put last; and if both are empty it makes a new item.
   */
  lemma GetAlone(script: seq<Action>, p: Thread)
    requires PcOf(Run(script), p).Idle? && Run(script).lock == Open
    ensures var s := Run(script);
            var s0, available, free := Step(s, Get(p)), s.lists.available, s.lists.free;
            if available != [] then
              var s' := Alone(s0, p, 4);
              Got(s', p, available[0], available[1..], free) && s'.created == s.created
            else
              var s' := Alone(s0, p, 5);
              if free != [] then Got(s', p, free[0], free[1..], []) && s'.created == s.created
              else Got(s', p, s.created + 1, [], []) && s'.created == s.created + 1
  {
    var s := Run(script);
    RunInv(script);
    GetLooks(s, p);
    var s0 := Step(s, Get(p));
    var s2 := Alone(s0, p, 2);
    assert Alone(s0, p, 4) == Step(Step(s2, Go(p)), Go(p));
    if s.lists.available != [] {
      GetPops(s2, p);
    } else {
      var s3 := Step(s2, Go(p));
      assert Alone(s0, p, 5) == Step(Step(s3, Go(p)), Go(p));
      GetTakesAll(s2, p);
      if s.lists.free != [] {
        GetPops(s3, p);
      } else {
        GetMakes(s3, p);
      }
    }
  }

  /** A put that nobody interrupts leaves its item first on the free list. */
  lemma PutAlone(script: seq<Action>, p: Thread, item: Item)
    requires PcOf(Run(script), p).Idle? && item in Run(script).place && Run(script).place[item] == Held
    ensures var s := Run(script);
            var s' := Alone(Step(s, Put(p, item)), p, 3);
            && PcOf(s', p) == Idle && s'.place == s.place[item := Free] && s'.created == s.created
            && s'.lists.free == [item] + s.lists.free && s'.lists.available == s.lists.available
  {
    var s := Run(script);
    var s0 := Step(s, Put(p, item));
    var s1 := Step(s0, Go(p));
    assert s1 == Alone(s0, p, 1) && PcOf(s1, p) == PutLink(item, s.lists.mFree);
    var s2 := Step(s1, Go(p));
    assert s2 == Alone(s0, p, 2) && PcOf(s2, p) == PutSwap(item) && Next(s2.lists, item) == s.lists.mFree;
    assert Step(s2, Go(p)) == Alone(s0, p, 3);
  }
}
