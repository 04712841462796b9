/** The weight of each thread (src/transport/sbfTportWeight.c). */
module Weights {
  import opened Wrappers

  const UINT_MAX := 0xffff_ffff

  type uint = x: int | 0 <= x <= UINT_MAX

  /** Not ~mThreads & mask: the transport may use the thread. */
  predicate Allowed(threads: bv64, mask: bv64) {
    !threads & mask == 0
  }

  /** Bit i of the word */
  predicate Bit(w: bv64, i: nat) {
    if i == 0 then w & 1 == 1 else Bit(w >> 1, i - 1)
  }

  lemma AndShifted(threads: bv64, mask: bv64)
    ensures (!threads & mask) >> 1 == !(threads >> 1) & (mask >> 1)
    ensures (!threads & mask) & 1 == 1 <==> mask & 1 == 1 && threads & 1 != 1
  {
  }

  lemma {:induction false} BitLeft(threads: bv64, mask: bv64, i: nat)
    ensures Bit(!threads & mask, i) <==> Bit(mask, i) && !Bit(threads, i)
    decreases i
  {
    AndShifted(threads, mask);
    if i > 0 {
      BitLeft(threads >> 1, mask >> 1, i - 1);
    }
  }

  lemma {:induction false} SomeBit(w: bv64) returns (i: nat)
    requires w != 0
    ensures Bit(w, i)
    decreases w
  {
    i := 0;
    if w & 1 != 1 {
      i := SomeBit(w >> 1);
      i := i + 1;
    }
  }

  lemma {:induction false} NoBit(i: nat)
    ensures !Bit(0, i)
  {
    if i > 0 {
      NoBit(i - 1);
    }
  }

  /** The transport may use the thread exactly if each bit of the thread's mask is one of its own. */
  lemma AllowedExactly(threads: bv64, mask: bv64)
    ensures Allowed(threads, mask) <==> forall i :: Bit(mask, i) ==> Bit(threads, i)
  {
    if !threads & mask != 0 {
      var i := SomeBit(!threads & mask);
      BitLeft(threads, mask, i);
    } else {
      forall i | Bit(mask, i) ensures Bit(threads, i) {
        BitLeft(threads, mask, i);
        NoBit(i);
      }
    }
  }

  predicate Eligible(threads: bv64, masks: seq<bv64>, weights: seq<uint>, i: nat)
    requires |masks| == |weights|
  {
    i < |masks| && Allowed(threads, masks[i]) && weights[i] < UINT_MAX
  }

  /** mWeights, with the masks of the threads. */
  class ThreadWeights {
    const threads: bv64
    const masks: seq<bv64>
    const weights: array<uint>

    constructor (threads: bv64, masks: seq<bv64>)
      ensures Valid() && this.threads == threads && this.masks == masks && fresh(weights)
      ensures forall i :: 0 <= i < weights.Length ==> weights[i] == 0
    {
      this.threads, this.masks := threads, masks;
      weights := new uint[|masks|](_ => 0);
    }

    predicate Valid() {
      weights.Length == |masks|
    }

    /** sbfTport_adjustWeight, in the arithmetic of unsigned int */
    method AdjustWeight(index: nat, change: int)
      requires Valid() && index < weights.Length
      modifies weights
      ensures weights[..] == old(weights[..])[index := (old(weights[index]) + change) % 0x1_0000_0000]
    {
      weights[index] := (weights[index] + change) % 0x1_0000_0000;
    }

    /** sbfTport_nextThread: the first of the lightest allowed threads, if one has a weight below UINT_MAX */
    method NextThread() returns (found: Option<nat>)
      requires Valid()
      ensures found.None? <==> forall i :: 0 <= i < |masks| ==> !Eligible(threads, masks, weights[..], i)
      ensures found.Some? ==>
        && Eligible(threads, masks, weights[..], found.value)
        && (forall i :: 0 <= i < |masks| && Allowed(threads, masks[i]) ==> weights[found.value] <= weights[i])
        && (forall i :: 0 <= i < found.value && Allowed(threads, masks[i]) ==> weights[found.value] < weights[i])
    {
      found := None;
      var weight: uint := UINT_MAX;
      for i := 0 to |masks|
        invariant found.None? ==> weight == UINT_MAX
        invariant found.None? ==> forall k :: 0 <= k < i && Allowed(threads, masks[k]) ==> weights[k] == UINT_MAX
        invariant found.Some? ==>
          && found.value < i && Eligible(threads, masks, weights[..], found.value) && weight == weights[found.value]
          && (forall k :: 0 <= k < i && Allowed(threads, masks[k]) ==> weight <= weights[k])
          && (forall k :: 0 <= k < found.value && Allowed(threads, masks[k]) ==> weight < weights[k])
      {
        if Allowed(threads, masks[i]) {
          if weights[i] < weight {
            found := Some(i);
            weight := weights[i];
          }
        }
      }
    }
  }

  // ---------------------------------------------------------------------------------------------
  // The balance
  // ---------------------------------------------------------------------------------------------

  type Sub = nat

  datatype Placement = Placement(thread: nat, weight: uint)

  /** A subscriber is placed on a thread in its create; its weight is taken off when it is removed. */
  datatype Action = Place(sub: Sub, p: Placement) | TakeOff(sub: Sub, p: Placement)

  /** The subscribers that have been placed and those that have been taken off, in whichever order. */
  datatype State = State(weights: seq<uint>, placed: map<Sub, Placement>, off: map<Sub, Placement>)

  function Adjusted(weights: seq<uint>, index: nat, change: int): seq<uint>
    requires index < |weights|
  {
    weights[index := (weights[index] + change) % 0x1_0000_0000]
  }

  /** sbfSubSetStream and sbfSubRemoveEventCb, each once for a subscriber */
  function Step(s: State, a: Action): State {
    if a.p.thread >= |s.weights| then s
    else
      match a
      case Place(sub, p) =>
        if sub in s.placed then s
        else s.(weights := Adjusted(s.weights, p.thread, p.weight), placed := s.placed[sub := p])
      case TakeOff(sub, p) =>
        if sub in s.off then s
        else s.(weights := Adjusted(s.weights, p.thread, -(p.weight as int)), off := s.off[sub := p])
  }

  function Run(s: State, actions: seq<Action>): State {
    if actions == [] then s else Step(Run(s, actions[..|actions| - 1]), actions[|actions| - 1])
  }

  function Share(p: Placement, thread: nat): nat {
    if p.thread == thread then p.weight else 0
  }

  /** The summed weights of the subscribers on the thread. */
  ghost function Sum(placed: map<Sub, Placement>, thread: nat): nat
    decreases |placed|
  {
    if placed == map[] then 0
    else
      assert placed.Keys != {};
      var sub :| sub in placed;
      RemoveSmaller(placed, sub);
      Share(placed[sub], thread) + Sum(placed - {sub}, thread)
  }

  lemma RemoveSmaller(placed: map<Sub, Placement>, sub: Sub)
    requires sub in placed
    ensures |placed - {sub}| < |placed|
  {
    assert (placed - {sub}).Keys == placed.Keys - {sub};
    assert |placed.Keys| == |placed| && |(placed - {sub}).Keys| == |placed - {sub}|;
  }

  /** Whichever subscriber is counted first makes no difference. */
  lemma {:induction false} SumRemove(placed: map<Sub, Placement>, sub: Sub, thread: nat)
    requires sub in placed
    ensures Sum(placed, thread) == Share(placed[sub], thread) + Sum(placed - {sub}, thread)
    decreases |placed|
  {
    assert placed.Keys != {};
    var first :| first in placed && Sum(placed, thread) == Share(placed[first], thread) + Sum(placed - {first}, thread);
    if first != sub {
      RemoveSmaller(placed, first);
      RemoveSmaller(placed, sub);
      SumRemove(placed - {first}, sub, thread);
      SumRemove(placed - {sub}, first, thread);
      assert placed - {first} - {sub} == placed - {sub} - {first};
    }
  }

  ghost predicate Balanced(s: State) {
    forall t :: 0 <= t < |s.weights| ==> s.weights[t] == (Sum(s.placed, t) - Sum(s.off, t)) % 0x1_0000_0000
  }

  lemma Wrap(sum: int, change: int)
    ensures (sum % 0x1_0000_0000 + change) % 0x1_0000_0000 == (sum + change) % 0x1_0000_0000
  {
  }

  lemma SumAdd(placed: map<Sub, Placement>, sub: Sub, p: Placement, thread: nat)
    requires sub !in placed
    ensures Sum(placed[sub := p], thread) == Sum(placed, thread) + Share(p, thread)
  {
    SumRemove(placed[sub := p], sub, thread);
    assert placed[sub := p] - {sub} == placed;
  }

  lemma PlaceBalanced(s: State, sub: Sub, p: Placement, t: nat)
    requires Balanced(s) && sub !in s.placed && p.thread < |s.weights| && t < |s.weights|
    ensures Adjusted(s.weights, p.thread, p.weight)[t] == (Sum(s.placed[sub := p], t) - Sum(s.off, t)) % 0x1_0000_0000
  {
    SumAdd(s.placed, sub, p, t);
    Wrap(Sum(s.placed, t) - Sum(s.off, t), p.weight);
  }

  lemma TakeOffBalanced(s: State, sub: Sub, p: Placement, t: nat)
    requires Balanced(s) && sub !in s.off && p.thread < |s.weights| && t < |s.weights|
    ensures Adjusted(s.weights, p.thread, -(p.weight as int))[t]
         == (Sum(s.placed, t) - Sum(s.off[sub := p], t)) % 0x1_0000_0000
  {
    SumAdd(s.off, sub, p, t);
    Wrap(Sum(s.placed, t) - Sum(s.off, t), -(p.weight as int));
  }

  lemma StepBalanced(s: State, a: Action)
    requires Balanced(s)
    ensures Balanced(Step(s, a))
  {
    var s' := Step(s, a);
    if s' != s {
      forall t | 0 <= t < |s'.weights| ensures s'.weights[t] == (Sum(s'.placed, t) - Sum(s'.off, t)) % 0x1_0000_0000 {
        match a
        case Place(sub, p) => PlaceBalanced(s, sub, p, t);
        case TakeOff(sub, p) => TakeOffBalanced(s, sub, p, t);
      }
    }
  }

  /**
    In every run the weight of a thread is the sum over the subscribers placed less that over those taken off,
    in the arithmetic of unsigned int.
   */
  lemma {:induction false} RunBalanced(s: State, actions: seq<Action>)
    requires Balanced(s)
    ensures Balanced(Run(s, actions))
  {
    if actions != [] {
      RunBalanced(s, actions[..|actions| - 1]);
      StepBalanced(Run(s, actions[..|actions| - 1]), actions[|actions| - 1]);
    }
  }

  /** When none has been taken off that is not placed, that is the sum over the subscribers still on the thread. */
  lemma {:induction false} SumOfRest(placed: map<Sub, Placement>, off: map<Sub, Placement>, thread: nat)
    requires forall sub :: sub in off ==> sub in placed && placed[sub] == off[sub]
    ensures Sum(placed, thread) - Sum(off, thread) == Sum(placed - off.Keys, thread)
    decreases |off|
  {
    if off == map[] {
      assert placed - off.Keys == placed;
    } else {
      assert off.Keys != {};
      var sub :| sub in off;
      RemoveSmaller(off, sub);
      SumRemove(off, sub, thread);
      SumRemove(placed, sub, thread);
      SumOfRest(placed - {sub}, off - {sub}, thread);
      assert (off - {sub}).Keys == off.Keys - {sub};
      assert placed - {sub} - (off - {sub}).Keys == placed - off.Keys;
    }
  }

  /** A transport begins with no weight on any thread. */
  lemma InitiallyBalanced(weights: seq<uint>)
    requires forall t :: 0 <= t < |weights| ==> weights[t] == 0
    ensures Balanced(State(weights, map[], map[]))
  {
  }
}
