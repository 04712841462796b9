/** The weights of the threads over the life of the subscribers on a stream. */
module WeightBalance {
  import L = Lifecycle
  import W = Weights

  /** The calls of sbfTport_adjustWeight: at the end of a create, and when a subscriber is taken off its list. */
  function Effect(s: L.State, a: L.Action, p: L.Id -> W.Placement): seq<W.Action> {
    if a.Finish? && s.api.lock == L.HeldBy(a.m) && a.m in s.api.counted then [W.Place(a.m, p(a.m))]
    else if a.Go? && s.work.now.Remove? && s.work.now.m in s.marks.ready then [W.TakeOff(s.work.now.m, p(s.work.now.m))]
    else []
  }

  function After(w: W.State, s: L.State, a: L.Action, p: L.Id -> W.Placement): W.State {
    var effect := Effect(s, a, p);
    if effect == [] then w else W.Step(w, effect[0])
  }

  function Run(w: W.State, s: L.State, actions: seq<L.Action>, p: L.Id -> W.Placement): W.State
    decreases |actions|
  {
    if actions == [] then w else Run(After(w, s, actions[0], p), L.Step(s, actions[0]), actions[1..], p)
  }

  /** Exactly the subscribers that are created have been placed and those removed taken off, each where it belongs. */
  ghost predicate Placed(w: W.State, s: L.State, p: L.Id -> W.Placement) {
    && w.placed.Keys == s.api.created && w.off.Keys == s.marks.unlinked
    && (forall m :: m in w.placed ==> w.placed[m] == p(m)) && (forall m :: m in w.off ==> w.off[m] == p(m))
    && (forall m: L.Id :: p(m).thread < |w.weights|)
  }

  /** No other step changes which creates have returned and who is removed. */
  lemma NoEffect(s: L.State, a: L.Action, p: L.Id -> W.Placement)
    requires Effect(s, a, p) == []
    ensures L.Step(s, a).api.created == s.api.created && L.Step(s, a).marks.unlinked == s.marks.unlinked
  {
  }

  lemma FinishPlaced(w: W.State, s: L.State, m: L.Id, p: L.Id -> W.Placement)
    requires Placed(w, s, p) && m !in s.api.created && s.api.lock == L.HeldBy(m) && m in s.api.counted
    ensures Placed(W.Step(w, W.Place(m, p(m))), L.FinishStep(s, m), p)
  {
    assert p(m).thread < |w.weights|;
    assert w.placed[m := p(m)].Keys == s.api.created + {m};
  }

  lemma RemovePlaced(w: W.State, s: L.State, m: L.Id, p: L.Id -> W.Placement)
    requires Placed(w, s, p) && m !in s.marks.unlinked && m in s.marks.ready
    ensures Placed(W.Step(w, W.TakeOff(m, p(m))), L.RemoveStep(s, m), p)
  {
    assert p(m).thread < |w.weights|;
    assert w.off[m := p(m)].Keys == s.marks.unlinked + {m};
  }

  lemma StepPlaced(w: W.State, s: L.State, a: L.Action, p: L.Id -> W.Placement)
    requires L.Inv(s) && Placed(w, s, p)
    ensures Placed(After(w, s, a, p), L.Step(s, a), p)
  {
    if Effect(s, a, p) == [] {
      NoEffect(s, a, p);
    } else if a.Finish? {
      assert L.Ok(s, a.m);
      FinishPlaced(w, s, a.m, p);
    } else {
      assert L.Ok(s, s.work.now.m);
      RemovePlaced(w, s, s.work.now.m, p);
    }
  }

  /** The balance is kept, and every subscriber is placed once and taken off once. */
  lemma {:induction false} StaysBalanced(w: W.State, s: L.State, actions: seq<L.Action>, p: L.Id -> W.Placement)
    requires L.Inv(s) && Placed(w, s, p) && W.Balanced(w)
    ensures W.Balanced(Run(w, s, actions, p)) && Placed(Run(w, s, actions, p), L.Run(s, actions), p)
    decreases |actions|
  {
    if actions != [] {
      StepPlaced(w, s, actions[0], p);
      L.InvStep(s, actions[0]);
      var effect := Effect(s, actions[0], p);
      if effect != [] {
        W.StepBalanced(w, effect[0]);
      }
      StaysBalanced(After(w, s, actions[0], p), L.Step(s, actions[0]), actions[1..], p);
    }
  }

  lemma OffWasPlaced(w: W.State, s: L.State, p: L.Id -> W.Placement, m: L.Id)
    requires L.Inv(s) && Placed(w, s, p) && s.api.lock == L.Free && m in w.off
    ensures m in w.placed && w.placed[m] == w.off[m]
  {
    assert L.Ok(s, m);
  }

  lemma QuietBalance(w: W.State, s: L.State, p: L.Id -> W.Placement)
    requires L.Inv(s) && Placed(w, s, p) && s.api.lock == L.Free && W.Balanced(w)
    ensures forall t :: 0 <= t < |w.weights| ==> w.weights[t] == W.Sum(w.placed - s.marks.unlinked, t) % 0x1_0000_0000
  {
    forall m | m in w.off ensures m in w.placed && w.placed[m] == w.off[m] {
      OffWasPlaced(w, s, p, m);
    }
    forall t | 0 <= t < |w.weights| ensures w.weights[t] == W.Sum(w.placed - s.marks.unlinked, t) % 0x1_0000_0000 {
      W.SumOfRest(w.placed, w.off, t);
    }
  }

  /**
    In every run of a new stream on threads without weight, the weight of each thread is, modulo 2^32, the summed
    weights of the subscribers whose create has placed them less those of the removed ones. While no create is
    under way that is the sum over the subscribers that are created and not yet removed. (A subscriber that its
    own callback destroys can be taken off before its create places it.)
   */
  lemma AlwaysBalanced(weights: seq<W.uint>, actions: seq<L.Action>, p: L.Id -> W.Placement)
    requires (forall t :: 0 <= t < |weights| ==> weights[t] == 0) && forall m: L.Id :: p(m).thread < |weights|
    ensures var w, s := Run(W.State(weights, map[], map[]), L.Initial(), actions, p), L.Run(L.Initial(), actions);
            && W.Balanced(w) && w.placed.Keys == s.api.created && w.off.Keys == s.marks.unlinked
            && (s.api.lock == L.Free ==>
                  forall t :: 0 <= t < |w.weights| ==>
                    w.weights[t] == W.Sum(w.placed - s.marks.unlinked, t) % 0x1_0000_0000)
  {
    var w0 := W.State(weights, map[], map[]);
    W.InitiallyBalanced(weights);
    L.InitialInv();
    StaysBalanced(w0, L.Initial(), actions, p);
    L.RunInv(L.Initial(), actions);
    if L.Run(L.Initial(), actions).api.lock == L.Free {
      QuietBalance(Run(w0, L.Initial(), actions, p), L.Run(L.Initial(), actions), p);
    }
  }
}
