/** The subscribers of a topic and the rotation of dispatches (src/transport/sbfHandler.c, src/transport/sbfSub.c). */
module Dispatch {
  type Sub = nat

  import opened Wrappers

  /** TAILQ_NEXT */
  function After(subs: seq<Sub>, i: nat): Option<Sub> {
    if i + 1 < |subs| then Some(subs[i + 1]) else None
  }

  /** Every subscriber from place i on, and then those before it. */
  function Rotated(subs: seq<Sub>, i: nat): seq<Sub>
    requires i <= |subs|
  {
    subs[i..] + subs[..i]
  }

  /** Each subscriber gets the message exactly once. */
  lemma RotatedIsAll(subs: seq<Sub>, i: nat)
    requires i <= |subs|
    ensures multiset(Rotated(subs, i)) == multiset(subs)
  {
    assert subs == subs[..i] + subs[i..];
  }

  /** Where a dispatch starts, given the rotation pointer. */
  function StartOf(subs: seq<Sub>, next: Option<Sub>): (i: nat)
    requires Distinct(subs) && subs != [] && (next.Some? ==> next.value in subs)
    ensures i < |subs| && subs[i] == if next.None? then subs[0] else next.value
  {
    if next.None? then 0 else IndexOf(subs, next.value)
  }

  function IndexOf(subs: seq<Sub>, sub: Sub): (i: nat)
    requires sub in subs
    ensures i < |subs| && subs[i] == sub
  {
    if subs[0] == sub then 0 else
      assert subs == [subs[0]] + subs[1..];
      1 + IndexOf(subs[1..], sub)
  }

  /** TAILQ_REMOVE: the others keep their order. */
  function Without(subs: seq<Sub>, sub: Sub): seq<Sub>
    requires sub in subs
  {
    subs[..IndexOf(subs, sub)] + subs[IndexOf(subs, sub) + 1..]
  }

  lemma WithoutOne(subs: seq<Sub>, sub: Sub)
    requires Distinct(subs) && sub in subs
    ensures Distinct(Without(subs, sub)) && forall x :: x in Without(subs, sub) <==> x in subs && x != sub
    ensures multiset(Without(subs, sub)) == multiset(subs) - multiset{sub}
  {
    var i := IndexOf(subs, sub);
    assert subs == subs[..i] + [sub] + subs[i + 1..];
    forall x | x in subs && x != sub ensures x in Without(subs, sub) {
      assert x in subs[..i] || x in subs[i + 1..];
    }
  }

  /** The mTopic, mSubs and mNext fields of struct sbfTportTopicImpl. */
  class Topic {
    const name: nat
    var subs: seq<Sub>
    var next: Option<Sub>

    constructor (name: nat)
      ensures Valid() && this.name == name && subs == [] && next == None
    {
      this.name := name;
      subs, next := [], None;
    }

    /** The rotation pointer is NULL or a current subscriber. */
    predicate Valid()
      reads this
    {
      Distinct(subs) && (next.Some? ==> next.value in subs)
    }

    /** TAILQ_INSERT_TAIL */
    method Insert(sub: Sub)
      requires Valid() && sub !in subs
      modifies this`subs
      ensures Valid() && subs == old(subs) + [sub]
    {
      subs := subs + [sub];
    }

    method Find(sub: Sub) returns (i: nat)
      requires sub in subs
      ensures i < |subs| && subs[i] == sub
    {
      i := 0;
      while subs[i] != sub
        invariant i < |subs| && sub !in subs[..i]
        decreases |subs| - i
      {
        i := i + 1;
      }
    }

    /** The list part of sbfSubRemoveEventCb: a rotation pointer at the subscriber moves on first. */
    method Remove(sub: Sub)
      requires Valid() && sub in subs
      modifies this`subs, this`next
      ensures Valid() && subs == Without(old(subs), sub)
      ensures next == if old(next) == Some(sub) then After(old(subs), IndexOf(old(subs), sub)) else old(next)
    {
      var i := Find(sub);
      assert i == IndexOf(subs, sub);
      WithoutOne(subs, sub);
      if next == Some(sub) {
        next := After(subs, i);
      }
      subs := subs[..i] + subs[i + 1..];
    }

    /** sbfHandlerDispatchMessage: who gets the message, in turn */
    method DispatchMessage() returns (calls: seq<Sub>)
      requires Valid() && subs != []
      modifies this`next
      ensures Valid()
      ensures calls == Rotated(subs, StartOf(subs, old(next)))
      ensures next == After(subs, StartOf(subs, old(next)))
    {
      if next.None? {
        next := Some(subs[0]);
      }
      ghost var start := StartOf(subs, old(next));
      var sub := next.value;
      var i := Find(sub);
      assert i == start;
      calls := [sub];
      i := if i + 1 < |subs| then i + 1 else 0;
      while subs[i] != next.value
        invariant 0 <= i < |subs|
        invariant start < i ==> calls == subs[start..i]
        invariant i <= start ==> calls == subs[start..] + subs[..i]
        decreases if i <= start then start - i else |subs| - i + start
      {
        calls := calls + [subs[i]];
        i := if i + 1 < |subs| then i + 1 else 0;
      }
      next := After(subs, i);
    }

    /** Messages for the topic one after the other, while nobody is added or removed. */
    method DispatchMessages(k: nat) returns (calls: seq<seq<Sub>>)
      requires Valid() && subs != []
      modifies this`next
      ensures Valid() && |calls| == k
      ensures InTurn(subs, StartOf(subs, old(next)), calls)
      ensures forall w, sub :: 0 <= w <= k - |subs| && sub in subs ==> FirstOnce(calls, w, |subs|, sub)
    {
      ghost var start := StartOf(subs, next);
      calls := [];
      for i := 0 to k
        invariant Valid() && |calls| == i && StartOf(subs, next) == Turn(|subs|, start, i)
        invariant InTurn(subs, start, calls)
      {
        NextStart(subs, StartOf(subs, next));
        var one := DispatchMessage();
        calls := calls + [one];
      }
      forall w, sub | 0 <= w <= k - |subs| && sub in subs ensures FirstOnce(calls, w, |subs|, sub) {
        EachFirstOnce(subs, start, calls, w, sub);
      }
    }
  }

  /** The start of a dispatch to n subscribers, a number of dispatches after one with the given start. */
  function Turn(n: nat, start: nat, j: nat): (i: nat)
    requires start < n
    ensures i < n
  {
    if j == 0 then start
    else
      var before := Turn(n, start, j - 1);
      if before + 1 < n then before + 1 else 0
  }

  /** Each dispatch goes once round, and starts one place further than the one before. */
  ghost predicate InTurn(subs: seq<Sub>, start: nat, calls: seq<seq<Sub>>)
    requires start < |subs|
  {
    forall j :: 0 <= j < |calls| ==> calls[j] == Rotated(subs, Turn(|subs|, start, j))
  }

  /** Of the n dispatches from the w-th on exactly one calls the subscriber first. */
  ghost predicate FirstOnce(calls: seq<seq<Sub>>, w: nat, n: nat, sub: Sub)
    requires w + n <= |calls|
  {
    exists j :: w <= j < w + n && First(calls[j], sub) && forall i :: w <= i < w + n && First(calls[i], sub) ==> i == j
  }

  predicate First(calls: seq<Sub>, sub: Sub) {
    calls != [] && calls[0] == sub
  }

  /** A dispatch after one that started at i starts at the next place, or at the first again. */
  lemma NextStart(subs: seq<Sub>, i: nat)
    requires Distinct(subs) && i < |subs|
    ensures After(subs, i).Some? ==> After(subs, i).value in subs
    ensures StartOf(subs, After(subs, i)) == if i + 1 < |subs| then i + 1 else 0
  {
  }

  lemma {:induction false} TurnAt(n: nat, start: nat, w: nat, j: nat)
    requires start < n && j < n
    ensures var first := Turn(n, start, w); Turn(n, start, w + j) == if first + j < n then first + j else first + j - n
  {
    if j > 0 {
      TurnAt(n, start, w, j - 1);
    }
  }

  lemma FirstAt(subs: seq<Sub>, start: nat, calls: seq<seq<Sub>>, w: nat, i: nat, sub: Sub)
    requires Distinct(subs) && start < |subs| && InTurn(subs, start, calls) && w <= i < w + |subs| <= |calls| && sub in subs
    ensures var first, p := Turn(|subs|, start, w), IndexOf(subs, sub);
            First(calls[i], sub) <==> i == w + (if first <= p then 0 else |subs|) + p - first
  {
    TurnAt(|subs|, start, w, i - w);
    assert calls[i][0] == subs[Turn(|subs|, start, i)];
  }

  /** Any n consecutive dispatches to n subscribers call each of them first exactly once. */
  lemma EachFirstOnce(subs: seq<Sub>, start: nat, calls: seq<seq<Sub>>, w: nat, sub: Sub)
    requires Distinct(subs) && start < |subs| && InTurn(subs, start, calls) && w + |subs| <= |calls| && sub in subs
    ensures FirstOnce(calls, w, |subs|, sub)
  {
    var p, first := IndexOf(subs, sub), Turn(|subs|, start, w);
    var j := w + (if first <= p then 0 else |subs|) + p - first;
    FirstAt(subs, start, calls, w, j, sub);
    forall i | w <= i < w + |subs| && First(calls[i], sub) ensures i == j {
      FirstAt(subs, start, calls, w, i, sub);
    }
  }
}
