/**
  The item pool of src/common/sbfPoolInline.h: puts push onto mFree with a compare-and-swap and no
  lock, gets pop from mAvailable under a spin lock and take over the whole of mFree with one swap when
  mAvailable is empty. Every access to a shared word is one step; steps of any number of threads
  interleave in any order.

  NULL is 0 and items are numbered from 1 in the order they are allocated. `available` and `free` of
  Lists are the chains that hang off the two heads and `place` is who has each item: history that no
  step reads.
 */
module ItemPool {
  type Item = nat
  type Thread = nat

  const NULL: Item := 0

  datatype Pc =
    | Idle
    | PutRead(item: Item)
    | PutLink(item: Item, head: Item)
    | PutSwap(item: Item)
    | GetLock
    | GetRead
    | GetTakeAll
    | GetAdvance(item: Item)
    | GetUnlock(item: Item)
    | GetNew

  datatype Place = Held | Available | Free | With(p: Thread)

  datatype Lists = Lists(mAvailable: Item, mFree: Item, next: map<Item, Item>, available: seq<Item>, free: seq<Item>)

  datatype Lock = Open | HeldBy(p: Thread)

  datatype State = State(lists: Lists, lock: Lock, pcs: map<Thread, Pc>, place: map<Item, Place>, created: nat)

  datatype Action = Get(p: Thread) | Put(p: Thread, item: Item) | Go(p: Thread)

  const INITIAL: State := State(Lists(NULL, NULL, map[], [], []), Open, map[], map[], 0)

  function PcOf(s: State, p: Thread): Pc {
    if p in s.pcs then s.pcs[p] else Idle
  }

  function Next(l: Lists, i: Item): Item {
    if i in l.next then l.next[i] else NULL
  }

  // ---------------------------------------------------------------------------------------------
  // Steps
  // ---------------------------------------------------------------------------------------------

  function Goto(s: State, p: Thread, pc: Pc): State {
    s.(pcs := s.pcs[p := pc])
  }

  /** item->mNext = head */
  function WriteNext(l: Lists, item: Item, head: Item): Lists {
    l.(next := if head == NULL then l.next - {item} else l.next[item := head])
  }

  /** mFree = item, by a compare-and-swap that found item->mNext there */
  function Push(l: Lists, item: Item): Lists {
    l.(mFree := item, free := [item] + l.free)
  }

  /** exchange (&mFree, NULL), when mAvailable is NULL */
  function TakeAll(l: Lists): Lists {
    l.(mFree := NULL, available := l.free, free := [])
  }

  /** mAvailable = item->mNext, where item heads the available chain */
  function Pop(l: Lists, item: Item): Lists {
    l.(mAvailable := Next(l, item), available := if l.available == [] then [] else l.available[1..])
  }

  function PutStep(s: State, p: Thread): State {
    match PcOf(s, p)
    case PutRead(item) => Goto(s, p, PutLink(item, s.lists.mFree))
    case PutLink(item, head) => Goto(s.(lists := WriteNext(s.lists, item, head)), p, PutSwap(item))
    case PutSwap(item) =>
      if s.lists.mFree == Next(s.lists, item) then
        Goto(s.(lists := Push(s.lists, item), place := s.place[item := Free]), p, Idle)
      else Goto(s, p, PutRead(item))
    case _ => s
  }

  function GetStep(s: State, p: Thread): State {
    match PcOf(s, p)
    case GetLock => if s.lock.HeldBy? then s else Goto(s.(lock := HeldBy(p)), p, GetRead)
    case GetRead =>
      Goto(s, p, if s.lists.mAvailable == NULL then GetTakeAll else GetAdvance(s.lists.mAvailable))
    case GetTakeAll =>
      var head := s.lists.mFree;
      Goto(s.(lists := TakeAll(s.lists), place := Moved(s.place, s.lists.free)),
           p, if head == NULL then GetUnlock(NULL) else GetAdvance(head))
    case GetAdvance(item) =>
      Goto(s.(lists := Pop(s.lists, item), place := s.place[item := With(p)]), p, GetUnlock(item))
    case GetUnlock(item) =>
      if item == NULL then Goto(s.(lock := Open), p, GetNew)
      else Goto(s.(lock := Open, place := s.place[item := Held]), p, Idle)
    case GetNew =>
      var item := s.created + 1;
      Goto(s.(lists := WriteNext(s.lists, item, NULL), place := s.place[item := Held], created := item), p, Idle)
    case _ => s
  }

  /** The whole free chain becomes the available chain. */
  function Moved(place: map<Item, Place>, chain: seq<Item>): map<Item, Place> {
    map i | i in place :: if i in chain then Available else place[i]
  }

  function Step(s: State, a: Action): State {
    match a
    case Get(p) => if PcOf(s, p).Idle? then Goto(s, p, GetLock) else s
    case Put(p, item) =>
      if PcOf(s, p).Idle? && item in s.place && s.place[item] == Held
      then Goto(s.(place := s.place[item := With(p)]), p, PutRead(item))
      else s
    case Go(p) =>
      if PcOf(s, p).PutRead? || PcOf(s, p).PutLink? || PcOf(s, p).PutSwap? then PutStep(s, p) else GetStep(s, p)
  }

  // ---------------------------------------------------------------------------------------------
  // Chains
  // ---------------------------------------------------------------------------------------------

  /** The links from head run through exactly these items and end in NULL. */
  predicate IsChain(l: Lists, head: Item, chain: seq<Item>)
    decreases |chain|
  {
    if chain == [] then head == NULL
    else head != NULL && head == chain[0] && IsChain(l, Next(l, head), chain[1..])
  }

  lemma {:induction false} ChainFrame(l: Lists, l': Lists, head: Item, chain: seq<Item>)
    requires IsChain(l, head, chain)
    requires forall i :: i in chain ==> Next(l', i) == Next(l, i)
    ensures IsChain(l', head, chain)
    decreases |chain|
  {
    if chain != [] {
      ChainFrame(l, l', Next(l, head), chain[1..]);
    }
  }

  /** No item twice, and the items are exactly those recorded as being in this place. */
  ghost predicate Listed(place: map<Item, Place>, chain: seq<Item>, where: Place) {
    && (forall i, j :: 0 <= i < j < |chain| ==> chain[i] != chain[j])
    && (forall i :: i in chain <==> i in place && place[i] == where)
  }

  lemma ListedFrame(place: map<Item, Place>, chain: seq<Item>, where: Place, item: Item, to: Place)
    requires Listed(place, chain, where) && to != where
    requires item in place ==> place[item] != where
    ensures Listed(place[item := to], chain, where)
  {
    var place' := place[item := to];
    forall i ensures i in chain <==> i in place' && place'[i] == where {
      assert i in chain <==> i in place && place[i] == where;
    }
  }

  lemma ListedPush(place: map<Item, Place>, chain: seq<Item>, where: Place, item: Item)
    requires Listed(place, chain, where)
    requires item in place ==> place[item] != where
    ensures Listed(place[item := where], [item] + chain, where)
  {
    var place' := place[item := where];
    assert item !in chain;
    forall i ensures i in [item] + chain <==> i in place' && place'[i] == where {
      assert i in chain <==> i in place && place[i] == where;
    }
  }

  lemma ListedPop(place: map<Item, Place>, chain: seq<Item>, where: Place, to: Place)
    requires Listed(place, chain, where) && chain != [] && to != where
    ensures Listed(place[chain[0] := to], chain[1..], where)
  {
    var place' := place[chain[0] := to];
    forall i ensures i in chain[1..] <==> i in place' && place'[i] == where {
      assert i in chain <==> i in place && place[i] == where;
      assert i in chain <==> i == chain[0] || i in chain[1..];
    }
  }

  lemma ListedMove(place: map<Item, Place>, chain: seq<Item>)
    requires Listed(place, chain, Free) && Listed(place, [], Available)
    ensures Listed(Moved(place, chain), chain, Available)
    ensures Listed(Moved(place, chain), [], Free)
  {
    var place' := Moved(place, chain);
    forall i ensures (i in chain <==> i in place' && place'[i] == Available) && !(i in place' && place'[i] == Free) {
      assert i in chain <==> i in place && place[i] == Free;
      assert !(i in place && place[i] == Available) by { assert i !in []; }
    }
  }

  // ---------------------------------------------------------------------------------------------
  // Invariant
  // ---------------------------------------------------------------------------------------------

  predicate InCritical(pc: Pc) {
    pc.GetRead? || pc.GetTakeAll? || pc.GetAdvance? || pc.GetUnlock?
  }

  /** The item that the thread has taken out of the pool or not yet put into it. */
  function Carried(pc: Pc): Item {
    match pc
    case PutRead(item) => item
    case PutLink(item, _) => item
    case PutSwap(item) => item
    case GetUnlock(item) => item
    case _ => NULL
  }

  function HolderPc(s: State): Pc {
    if s.lock.HeldBy? then PcOf(s, s.lock.p) else Idle
  }

  /** The available chain hangs off mAvailable unless the lock holder has its first item in hand. */
  ghost predicate AvailableInv(l: Lists, holder: Pc) {
    match holder
    case GetTakeAll => l.mAvailable == NULL && l.available == []
    case GetAdvance(item) => item != NULL && IsChain(l, item, l.available)
    case _ => IsChain(l, l.mAvailable, l.available)
  }

  ghost predicate PlacesInv(place: map<Item, Place>, l: Lists, created: nat) {
    && (forall i :: i in place <==> 1 <= i <= created)
    && Listed(place, l.free, Free)
    && Listed(place, l.available, Available)
  }

  ghost predicate LockInv(s: State) {
    forall p :: InCritical(PcOf(s, p)) <==> s.lock == HeldBy(p)
  }

  ghost predicate CarriedInv(place: map<Item, Place>, pcs: map<Thread, Pc>) {
    forall i, p :: i != NULL ==>
      ((i in place && place[i] == With(p)) <==> (p in pcs && Carried(pcs[p]) == i))
  }

  ghost predicate Inv(s: State) {
    && IsChain(s.lists, s.lists.mFree, s.lists.free)
    && AvailableInv(s.lists, HolderPc(s))
    && PlacesInv(s.place, s.lists, s.created)
    && LockInv(s)
    && CarriedInv(s.place, s.pcs)
    && (forall p :: p in s.pcs && (s.pcs[p].PutRead? || s.pcs[p].PutLink? || s.pcs[p].PutSwap?) ==> s.pcs[p].item != NULL)
  }

  /** A write to the link of an item that is in neither chain. */
  lemma WriteFrame(l: Lists, holder: Pc, item: Item, head: Item)
    requires IsChain(l, l.mFree, l.free) && AvailableInv(l, holder)
    requires item !in l.free && item !in l.available
    ensures var l' := WriteNext(l, item, head); IsChain(l', l'.mFree, l'.free) && AvailableInv(l', holder)
  {
    var l' := WriteNext(l, item, head);
    ChainFrame(l, l', l.mFree, l.free);
    if holder.GetAdvance? {
      ChainFrame(l, l', holder.item, l.available);
    } else if !holder.GetTakeAll? {
      ChainFrame(l, l', l.mAvailable, l.available);
    }
  }

  /** Only the step's own thread moves; it stays outside the critical section. */
  lemma OutsideFrame(s: State, s': State, p: Thread, pc: Pc)
    requires LockInv(s) && s'.lock == s.lock && s'.pcs == s.pcs[p := pc]
    requires !InCritical(PcOf(s, p)) && !InCritical(pc)
    ensures LockInv(s') && HolderPc(s') == HolderPc(s)
  {
    forall q ensures InCritical(PcOf(s', q)) <==> s'.lock == HeldBy(q) {
      assert InCritical(PcOf(s, q)) <==> s.lock == HeldBy(q);
    }
  }

  lemma CarriedSame(place: map<Item, Place>, pcs: map<Thread, Pc>, p: Thread, pc: Pc)
    requires CarriedInv(place, pcs)
    requires Carried(pc) == if p in pcs then Carried(pcs[p]) else NULL
    ensures CarriedInv(place, pcs[p := pc])
  {
    forall i, q | i != NULL
      ensures (i in place && place[i] == With(q)) <==> (q in pcs[p := pc] && Carried(pcs[p := pc][q]) == i)
    {
      assert (i in place && place[i] == With(q)) <==> (q in pcs && Carried(pcs[q]) == i);
    }
  }

  /** The thread lets go of the item that it carried. */
  lemma CarriedDrop(place: map<Item, Place>, pcs: map<Thread, Pc>, p: Thread, pc: Pc, to: Place)
    requires CarriedInv(place, pcs) && p in pcs && Carried(pcs[p]) != NULL
    requires Carried(pc) == NULL && !to.With?
    ensures CarriedInv(place[Carried(pcs[p]) := to], pcs[p := pc])
  {
    var item := Carried(pcs[p]);
    var place', pcs' := place[item := to], pcs[p := pc];
    forall i, q | i != NULL
      ensures (i in place' && place'[i] == With(q)) <==> (q in pcs' && Carried(pcs'[q]) == i)
    {
      assert (i in place && place[i] == With(q)) <==> (q in pcs && Carried(pcs[q]) == i);
      assert (i in place && place[i] == With(p)) <==> (p in pcs && Carried(pcs[p]) == i);
    }
  }

  /** The thread picks up an item that nobody carried. */
  lemma CarriedTake(place: map<Item, Place>, pcs: map<Thread, Pc>, p: Thread, pc: Pc, item: Item)
    requires CarriedInv(place, pcs) && (p in pcs ==> Carried(pcs[p]) == NULL)
    requires item != NULL && Carried(pc) == item && (item in place ==> !place[item].With?)
    ensures CarriedInv(place[item := With(p)], pcs[p := pc])
  {
    var place', pcs' := place[item := With(p)], pcs[p := pc];
    forall i, q | i != NULL
      ensures (i in place' && place'[i] == With(q)) <==> (q in pcs' && Carried(pcs'[q]) == i)
    {
      assert (i in place && place[i] == With(q)) <==> (q in pcs && Carried(pcs[q]) == i);
    }
  }

  lemma NewPut(s: State, p: Thread, item: Item)
    requires Inv(s) && PcOf(s, p).Idle? && item in s.place && s.place[item] == Held
    ensures Inv(Step(s, Put(p, item)))
  {
    var s' := Step(s, Put(p, item));
    OutsideFrame(s, s', p, PutRead(item));
    CarriedTake(s.place, s.pcs, p, PutRead(item), item);
    ListedFrame(s.place, s.lists.free, Free, item, With(p));
    ListedFrame(s.place, s.lists.available, Available, item, With(p));
  }

  lemma NewGet(s: State, p: Thread)
    requires Inv(s) && PcOf(s, p).Idle?
    ensures Inv(Step(s, Get(p)))
  {
    OutsideFrame(s, Step(s, Get(p)), p, GetLock);
    CarriedSame(s.place, s.pcs, p, GetLock);
  }

  lemma ReadFree(s: State, p: Thread)
    requires Inv(s) && PcOf(s, p).PutRead?
    ensures Inv(PutStep(s, p))
  {
    var pc := PutLink(PcOf(s, p).item, s.lists.mFree);
    OutsideFrame(s, PutStep(s, p), p, pc);
    CarriedSame(s.place, s.pcs, p, pc);
  }

  lemma LinkItem(s: State, p: Thread)
    requires Inv(s) && PcOf(s, p).PutLink?
    ensures Inv(PutStep(s, p))
  {
    var PutLink(item, head) := PcOf(s, p);
    OutsideFrame(s, PutStep(s, p), p, PutSwap(item));
    CarriedSame(s.place, s.pcs, p, PutSwap(item));
    assert s.place[item] == With(p);
    WriteFrame(s.lists, HolderPc(s), item, head);
  }

  lemma PushItem(s: State, p: Thread)
    requires Inv(s) && PcOf(s, p).PutSwap? && s.lists.mFree == Next(s.lists, PcOf(s, p).item)
    ensures Inv(PutStep(s, p))
  {
    var PutSwap(item) := PcOf(s, p);
    var l, l' := s.lists, Push(s.lists, item);
    assert s.place[item] == With(p);
    OutsideFrame(s, PutStep(s, p), p, Idle);
    CarriedDrop(s.place, s.pcs, p, Idle, Free);
    ListedPush(s.place, l.free, Free, item);
    ListedFrame(s.place, l.available, Available, item, Free);
    ChainFrame(l, l', l.mFree, l.free);
    assert l'.free[1..] == l.free;
    if HolderPc(s).GetAdvance? {
      ChainFrame(l, l', HolderPc(s).item, l.available);
    } else if !HolderPc(s).GetTakeAll? {
      ChainFrame(l, l', l.mAvailable, l.available);
    }
  }

  lemma RetryPut(s: State, p: Thread)
    requires Inv(s) && PcOf(s, p).PutSwap? && s.lists.mFree != Next(s.lists, PcOf(s, p).item)
    ensures Inv(PutStep(s, p))
  {
    OutsideFrame(s, PutStep(s, p), p, PutRead(PcOf(s, p).item));
    CarriedSame(s.place, s.pcs, p, PutRead(PcOf(s, p).item));
  }

  lemma TakeLock(s: State, p: Thread)
    requires Inv(s) && PcOf(s, p).GetLock? && s.lock.Open?
    ensures Inv(GetStep(s, p))
  {
    CarriedSame(s.place, s.pcs, p, GetRead);
    forall q ensures InCritical(PcOf(GetStep(s, p), q)) <==> HeldBy(p) == HeldBy(q) {
      assert InCritical(PcOf(s, q)) <==> s.lock == HeldBy(q);
    }
  }

  /** A step of the lock holder that keeps the lock. */
  lemma HolderFrame(s: State, s': State, p: Thread, pc: Pc)
    requires LockInv(s) && s'.lock == s.lock && s'.pcs == s.pcs[p := pc]
    requires InCritical(PcOf(s, p)) && InCritical(pc)
    ensures LockInv(s') && HolderPc(s) == PcOf(s, p) && HolderPc(s') == pc
  {
    assert InCritical(PcOf(s, p)) <==> s.lock == HeldBy(p);
    forall q ensures InCritical(PcOf(s', q)) <==> s'.lock == HeldBy(q) {
      assert InCritical(PcOf(s, q)) <==> s.lock == HeldBy(q);
    }
  }

  lemma ReadAvailable(s: State, p: Thread)
    requires Inv(s) && PcOf(s, p).GetRead?
    ensures Inv(GetStep(s, p))
  {
    var pc := if s.lists.mAvailable == NULL then GetTakeAll else GetAdvance(s.lists.mAvailable);
    HolderFrame(s, GetStep(s, p), p, pc);
    CarriedSame(s.place, s.pcs, p, pc);
  }

  lemma TakeFree(s: State, p: Thread)
    requires Inv(s) && PcOf(s, p).GetTakeAll?
    ensures Inv(GetStep(s, p))
  {
    var l, l' := s.lists, TakeAll(s.lists);
    var pc := if l.mFree == NULL then GetUnlock(NULL) else GetAdvance(l.mFree);
    HolderFrame(s, GetStep(s, p), p, pc);
    CarriedSame(s.place, s.pcs, p, pc);
    ListedMove(s.place, l.free);
    ChainFrame(l, l', l.mFree, l.free);
    forall i, q | i != NULL
      ensures (i in s.place && s.place[i] == With(q)) <==>
              (i in Moved(s.place, l.free) && Moved(s.place, l.free)[i] == With(q))
    {
      assert i in l.free <==> i in s.place && s.place[i] == Free;
    }
  }

  lemma PopItem(s: State, p: Thread)
    requires Inv(s) && PcOf(s, p).GetAdvance?
    ensures Inv(GetStep(s, p))
  {
    var GetAdvance(item) := PcOf(s, p);
    var l, l' := s.lists, Pop(s.lists, item);
    HolderFrame(s, GetStep(s, p), p, GetUnlock(item));
    assert item == l.available[0] && item in l.available;
    CarriedTake(s.place, s.pcs, p, GetUnlock(item), item);
    ListedPop(s.place, l.available, Available, With(p));
    ListedFrame(s.place, l.free, Free, item, With(p));
    ChainFrame(l, l', l.mFree, l.free);
    ChainFrame(l, l', Next(l, item), l.available[1..]);
  }

  lemma ReleaseLock(s: State, s': State, p: Thread, pc: Pc)
    requires LockInv(s) && s'.lock == Open && s'.pcs == s.pcs[p := pc]
    requires InCritical(PcOf(s, p)) && !InCritical(pc)
    ensures LockInv(s')
  {
    assert InCritical(PcOf(s, p)) <==> s.lock == HeldBy(p);
    forall q ensures InCritical(PcOf(s', q)) <==> s'.lock == HeldBy(q) {
      assert InCritical(PcOf(s, q)) <==> s.lock == HeldBy(q);
    }
  }

  lemma Unlock(s: State, p: Thread)
    requires Inv(s) && PcOf(s, p).GetUnlock?
    ensures Inv(GetStep(s, p))
  {
    var GetUnlock(item) := PcOf(s, p);
    assert InCritical(PcOf(s, p)) <==> s.lock == HeldBy(p);
    if item == NULL {
      ReleaseLock(s, GetStep(s, p), p, GetNew);
      CarriedSame(s.place, s.pcs, p, GetNew);
    } else {
      assert s.place[item] == With(p);
      ReleaseLock(s, GetStep(s, p), p, Idle);
      CarriedDrop(s.place, s.pcs, p, Idle, Held);
      ListedFrame(s.place, s.lists.available, Available, item, Held);
      ListedFrame(s.place, s.lists.free, Free, item, Held);
    }
  }

  lemma NewItem(s: State, p: Thread)
    requires Inv(s) && PcOf(s, p).GetNew?
    ensures Inv(GetStep(s, p))
  {
    var item := s.created + 1;
    assert item !in s.place;
    OutsideFrame(s, GetStep(s, p), p, Idle);
    CarriedSame(s.place, s.pcs, p, Idle);
    var place' := s.place[item := Held];
    forall i, q | i != NULL
      ensures (i in place' && place'[i] == With(q)) <==> (i in s.place && s.place[i] == With(q))
    {
    }
    WriteFrame(s.lists, HolderPc(s), item, NULL);
    ListedFrame(s.place, s.lists.available, Available, item, Held);
    ListedFrame(s.place, s.lists.free, Free, item, Held);
  }

  lemma PutInv(s: State, p: Thread)
    requires Inv(s)
    ensures Inv(PutStep(s, p))
  {
    match PcOf(s, p)
    case PutRead(_) => ReadFree(s, p);
    case PutLink(_, _) => LinkItem(s, p);
    case PutSwap(item) =>
      if s.lists.mFree == Next(s.lists, item) { PushItem(s, p); } else { RetryPut(s, p); }
    case _ =>
  }

  lemma GetInv(s: State, p: Thread)
    requires Inv(s)
    ensures Inv(GetStep(s, p))
  {
    match PcOf(s, p)
    case GetLock => if s.lock.Open? { TakeLock(s, p); }
    case GetRead => ReadAvailable(s, p);
    case GetTakeAll => TakeFree(s, p);
    case GetAdvance(_) => PopItem(s, p);
    case GetUnlock(_) => Unlock(s, p);
    case GetNew => NewItem(s, p);
    case _ =>
  }

  lemma StepInv(s: State, a: Action)
    requires Inv(s)
    ensures Inv(Step(s, a))
  {
    match a
    case Get(p) => if PcOf(s, p).Idle? { NewGet(s, p); }
    case Put(p, item) => if Step(s, a) != s { NewPut(s, p, item); }
    case Go(p) => PutInv(s, p); GetInv(s, p);
  }

  // ---------------------------------------------------------------------------------------------
  // Every run
  // ---------------------------------------------------------------------------------------------

  /** The state after a whole run of the scheduler, starting from sbfPool_create. */
  function Run(script: seq<Action>): State {
    if script == [] then INITIAL
    else Step(Run(script[..|script| - 1]), script[|script| - 1])
  }

  lemma {:induction false} RunInv(script: seq<Action>)
    ensures Inv(Run(script))
  {
    if script != [] {
      RunInv(script[..|script| - 1]);
      StepInv(Run(script[..|script| - 1]), script[|script| - 1]);
    }
  }

  /** The item is in this place, going by the links and the threads alone. */
  ghost predicate IsAt(s: State, item: Item, where: Place) {
    match where
    case Held => item in s.place && s.place[item] == Held
    case Available => item in s.lists.available
    case Free => item in s.lists.free
    case With(p) => Carried(PcOf(s, p)) == item
  }

  /**
    Exclusivity and conservation: every item ever created is in exactly one of the callers' hands, the
    chain off mAvailable, the chain off mFree, or one thread's call of get or put; both chains end in
    NULL and hold no item twice.
   */
  lemma ExactlyOnePlace(script: seq<Action>, item: Item)
    requires 1 <= item <= Run(script).created
    ensures var s := Run(script);
            exists where :: IsAt(s, item, where) && forall other :: IsAt(s, item, other) ==> other == where
  {
    var s := Run(script);
    RunInv(script);
    var where := s.place[item];
    forall other ensures IsAt(s, item, other) <==> other == where {
      match other
      case With(p) => assert (item in s.place && s.place[item] == With(p)) <==> (p in s.pcs && Carried(s.pcs[p]) == item);
      case Free => assert item in s.lists.free <==> item in s.place && s.place[item] == Free;
      case Available => assert item in s.lists.available <==> item in s.place && s.place[item] == Available;
      case Held =>
    }
    assert IsAt(s, item, where);
  }

  lemma ChainsAcyclicAndDisjoint(script: seq<Action>)
    ensures var s := Run(script);
            && IsChain(s.lists, s.lists.mFree, s.lists.free)
            && (s.lock.Open? ==> IsChain(s.lists, s.lists.mAvailable, s.lists.available))
            && forall i, j :: 0 <= i < j < |s.lists.free + s.lists.available| ==>
                 (s.lists.free + s.lists.available)[i] != (s.lists.free + s.lists.available)[j]
  {
    var s := Run(script);
    RunInv(script);
    var f, a := s.lists.free, s.lists.available;
    forall i, j | 0 <= i < j < |f + a| ensures (f + a)[i] != (f + a)[j] {
      if i < |f| <= j {
        assert (f + a)[i] in f && (f + a)[j] in a;
      }
    }
  }

  /**
    A head that was taken and came back does no harm: whatever ran between a put's read of mFree and a
    compare-and-swap that succeeds, the push puts its item in front of exactly the chain that is there now.
   */
  lemma PushPrependsToTheCurrentChain(script: seq<Action>, p: Thread)
    requires PcOf(Run(script), p).PutSwap?
    requires Run(script).lists.mFree == Next(Run(script).lists, PcOf(Run(script), p).item)
    ensures var s := Run(script);
            var s' := Step(s, Go(p));
            && s'.lists.free == [PcOf(s, p).item] + s.lists.free
            && IsChain(s'.lists, s'.lists.mFree, s'.lists.free)
            && s'.lists.available == s.lists.available
  {
    RunInv(script);
    StepInv(Run(script), Go(p));
  }

  /** Only one get at a time is between the spin lock and its release. */
  lemma OneGetInside(script: seq<Action>, p: Thread, q: Thread)
    requires InCritical(PcOf(Run(script), p)) && InCritical(PcOf(Run(script), q))
    ensures p == q && Run(script).lock == HeldBy(p)
  {
    var s := Run(script);
    RunInv(script);
    assert InCritical(PcOf(s, p)) <==> s.lock == HeldBy(p);
    assert InCritical(PcOf(s, q)) <==> s.lock == HeldBy(q);
  }
}
