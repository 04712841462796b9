/** What the queue promises, in every run of the machine in MpscQueue. */
module QueueTheorems {
  import opened MpscQueue

  /**
    Nothing is lost, duplicated or reordered: what has been returned followed by what is still in the
    queue is exactly what has been exchanged into mHead, in that order.
   */
  lemma ReturnedInExchangeOrder(blocking: bool, script: seq<Action>)
    ensures var s := Run(blocking, script);
            s.returned + Undelivered(s.chain) == Items(s.chain.order)
  {
    var s := Run(blocking, script);
    RunInv(blocking, script);
    ItemsOfChain(s.chain);
  }

  /**
    Each producer's items come out in the order it enqueued them, and all of them do: returned, still
    queued and in hand together are what the producer has sent.
   */
  lemma ProducerFifo(blocking: bool, script: seq<Action>, p: Thread)
    ensures var s := Run(blocking, script);
            SentBy(s.sent, p) == ItemsOf(s.returned, p) + ItemsOf(Undelivered(s.chain), p) + InHand(Pc(s.producers, p))
  {
    var s := Run(blocking, script);
    RunHistory(blocking, script);
    assert SentOk(s.chain.order, s.producers, s.sent, p);
    ItemsOfWindow(s.chain, p);
  }

  /** sbfQueueNext returns NULL only if the queue is empty or a producer's enqueue overlapped the call. */
  lemma NullOnlyWhenEmptyOrOverlapped(blocking: bool, script: seq<Action>)
    requires var s := Run(blocking, script);
             && InNext(s.consumer) && !InNext(Step(s, Consume).consumer)
             && Step(s, Consume).returned == s.returned
    ensures var s := Run(blocking, script);
            Undelivered(s.chain) == [] || s.overlapped
  {
    var s := Run(blocking, script);
    RunInv(blocking, script);
    NullWhen(s);
    if s.chain.tail !in s.chain.next && |s.chain.order| > s.chain.pos + 1 {
      MissingLink(s);
    } else if s.chain.tail == STUB {
      OnlyStub(s.chain);
    }
  }

  /** The three places at which sbfQueueNext gives up. */
  lemma NullWhen(s: State)
    requires InNext(s.consumer) && !InNext(Step(s, Consume).consumer) && Step(s, Consume).returned == s.returned
    ensures var c := s.chain;
            match s.consumer
            case ReadNext => c.tail == STUB && c.tail !in c.next
            case ReadHead => c.tail != c.head
            case ReadAfterStub => c.tail !in c.next
            case _ => false
  {
    if PutsStub(s.consumer) {
      StubStaysInside(s);
      assert false;
    } else if s.consumer.ReadHead? {
      FlagSame(s);
    }
  }

  /** How many steps sbfQueueNext can still take. */
  function StepsLeft(k: Consumer): (n: nat)
    ensures n <= 7 && (InNext(k) ==> n > 0)
  {
    match k
    case ReadNext => 7
    case ReadNextAgain => 6
    case ReadHead => 5
    case ClearStub => 4
    case ExchangeStub => 3
    case LinkStub(_, _) => 2
    case ReadAfterStub => 1
    case _ => 0
  }

  lemma StubStaysInside(s: State)
    requires PutsStub(s.consumer)
    ensures InNext(Step(s, Consume).consumer) && StepsLeft(Step(s, Consume).consumer) < StepsLeft(s.consumer)
  {
    match s.consumer
    case ClearStub =>
    case ExchangeStub =>
    case LinkStub(_, _) =>
  }

  lemma FewerStepsLeft(s: State)
    requires InNext(s.consumer) && InNext(Step(s, Consume).consumer)
    ensures StepsLeft(Step(s, Consume).consumer) < StepsLeft(s.consumer)
  {
    if Reads(s.consumer) {
      ReadGoesOn(s);
    } else if PutsStub(s.consumer) {
      StubStaysInside(s);
    } else {
      assert s.consumer == ReadHead && Step(s, Consume).consumer == ClearStub;
    }
  }

  lemma ReadGoesOn(s: State)
    requires Reads(s.consumer) && InNext(Step(s, Consume).consumer)
    ensures StepsLeft(Step(s, Consume).consumer) < StepsLeft(s.consumer)
  {
    match s.consumer
    case ReadNext =>
    case ReadNextAgain =>
    case ReadAfterStub =>
  }

  lemma OthersKeepTheConsumer(s: State, a: Action)
    requires InNext(s.consumer) && !a.Consume?
    ensures Step(s, a).consumer == s.consumer
  {
    match a
    case Enqueue(p, item) =>
    case Produce(p) => ProducersKeepTheConsumer(s, p);
    case Dequeue =>
    case Interrupt =>
    case Spurious =>
  }

  lemma ProducersKeepTheConsumer(s: State, p: Thread)
    requires !s.consumer.Asleep?
    ensures ProduceStep(s, p).consumer == s.consumer
  {
    match Pc(s.producers, p)
    case Idle =>
    case Clear(item) =>
    case Exchange(item) =>
    case Link(item, last, at) =>
    case Test =>
    case Wake =>
  }

  lemma StepsLeftStep(s: State, a: Action)
    requires InNext(s.consumer) && InNext(Step(s, a).consumer)
    ensures StepsLeft(Step(s, a).consumer) + (if a.Consume? then 1 else 0) <= StepsLeft(s.consumer)
  {
    if a.Consume? {
      FewerStepsLeft(s);
    } else {
      OthersKeepTheConsumer(s, a);
    }
  }

  function Consumes(actions: seq<Action>): nat {
    if actions == [] then 0
    else Consumes(actions[..|actions| - 1]) + if actions[|actions| - 1].Consume? then 1 else 0
  }

  /** The consumer is inside sbfQueueNext after the script and all through what follows. */
  predicate InsideThrough(blocking: bool, script: seq<Action>, more: seq<Action>) {
    && InNext(Run(blocking, script + more).consumer)
    && (more == [] || InsideThrough(blocking, script, more[..|more| - 1]))
  }

  /** sbfQueueNext never waits for a producer: whatever they do, it ends within seven of its own steps. */
  lemma {:induction false} NextIsWaitFree(blocking: bool, script: seq<Action>, more: seq<Action>)
    requires InsideThrough(blocking, script, more)
    ensures Consumes(more) < 7
    ensures Consumes(more) + StepsLeft(Run(blocking, script + more).consumer) <= StepsLeft(Run(blocking, script).consumer)
  {
    if more == [] {
      assert script + more == script;
    } else {
      NextIsWaitFree(blocking, script, more[..|more| - 1]);
      OneMore(blocking, script, more);
    }
    StillInside(blocking, script, more);
  }

  lemma OneMore(blocking: bool, script: seq<Action>, more: seq<Action>)
    requires more != [] && InsideThrough(blocking, script, more)
    ensures var n := |more| - 1;
            StepsLeft(Run(blocking, script + more).consumer) + (if more[n].Consume? then 1 else 0)
            <= StepsLeft(Run(blocking, script + more[..n]).consumer)
  {
    var n := |more| - 1;
    RunMore(blocking, script, more);
    StillInside(blocking, script, more[..n]);
    StillInside(blocking, script, more);
    StepsLeftStep(Run(blocking, script + more[..n]), more[n]);
  }

  lemma StillInside(blocking: bool, script: seq<Action>, more: seq<Action>)
    requires InsideThrough(blocking, script, more)
    ensures InNext(Run(blocking, script + more).consumer) && 0 < StepsLeft(Run(blocking, script + more).consumer)
  {
  }

  lemma RunMore(blocking: bool, script: seq<Action>, more: seq<Action>)
    requires more != []
    ensures Run(blocking, script + more) == Step(Run(blocking, script + more[..|more| - 1]), more[|more| - 1])
  {
    assert (script + more)[..|script + more| - 1] == script + more[..|more| - 1];
  }

  /** Within n steps of the consumer alone, sbfQueueNext has returned what makes `returned` this. */
  predicate Returns(s: State, n: nat, returned: seq<Entry>)
    decreases n
  {
    s.returned == returned || (n > 0 && Returns(Step(s, Consume), n - 1, returned))
  }

  /** The first item is the one at mTail. */
  lemma FirstItem(c: Chain)
    requires WindowInv(c) && c.tail != STUB
    ensures Undelivered(c) != [] && Undelivered(c)[0] == Entry(c.tail, SenderAt(c.order, c.pos))
  {
    var w := c.order[c.pos..];
    assert w == [c.order[c.pos]] + c.order[c.pos + 1..];
    ItemsSplit([c.order[c.pos]], c.order[c.pos + 1..]);
    assert Items([c.order[c.pos]]) == [c.order[c.pos]];
  }

  /** With the stub at mTail the items are those behind it. */
  lemma BehindTheStub(c: Chain)
    requires WindowInv(c) && c.tail == STUB && c.tail in c.next && c.pos + 1 < |c.order| && Linked(c, c.pos + 1)
    ensures Undelivered(Advance(c)) == Undelivered(c) && Advance(c).tail != STUB
  {
    assert c.order[c.pos..] == [c.order[c.pos]] + c.order[c.pos + 1..];
    ItemsSplit([c.order[c.pos]], c.order[c.pos + 1..]);
    assert Items([c.order[c.pos]]) == [];
  }

  /** The stub is put back and the link that this writes is read again. */
  lemma PutsStubBack(s: State)
    requires ChainOk(s) && s.consumer.ReadHead? && s.chain.tail == s.chain.head
    ensures Returns(s, 5, s.returned + [Entry(s.chain.tail, SenderAt(s.chain.order, s.chain.pos))])
  {
    var c := s.chain;
    assert c.pos == |c.order| - 1;
    var s1 := s.(consumer := ClearStub);
    assert Step(s, Consume) == s1;
    var c2 := ClearLink(c, STUB);
    var s2 := s.(chain := c2, consumer := ExchangeStub);
    assert Step(s1, Consume) == s2;
    var c3 := ExchangeHead(c2, Entry(STUB, 0));
    var s3 := s.(chain := c3, consumer := LinkStub(c.head, |c.order|));
    assert Step(s2, Consume) == s3;
    LinksStub(s3);
    var returned := s.returned + [Entry(c.tail, SenderAt(c.order, c.pos))];
    assert Returns(s3, 2, returned);
    assert Returns(s2, 3, returned);
    assert Returns(s1, 4, returned);
  }

  lemma LinksStub(s: State)
    requires s.consumer.LinkStub? && s.consumer.last == s.chain.tail
    ensures Returns(s, 2, s.returned + [Entry(s.chain.tail, SenderAt(s.chain.order, s.chain.pos))])
  {
    var s1 := s.(chain := WriteLink(s.chain, s.chain.tail, STUB), consumer := ReadAfterStub);
    assert Step(s, Consume) == s1;
    var s2 := ReturnItem(s1);
    assert Step(s1, Consume) == s2;
    assert Returns(s2, 0, s2.returned);
    assert Returns(s1, 1, s2.returned);
  }

  /** With an item at mTail and nobody inside sbfQueueEnqueue1, the item is returned. */
  lemma ReturnsTail(s: State)
    requires ChainOk(s) && !Busy(s.producers) && s.chain.tail != STUB
    requires s.consumer.ReadNext? || s.consumer.ReadNextAgain?
    ensures Returns(s, 6, s.returned + [Entry(s.chain.tail, SenderAt(s.chain.order, s.chain.pos))])
  {
    if s.chain.tail in s.chain.next {
      var s1 := ReturnItem(s);
      assert Step(s, Consume) == s1;
      assert Returns(s1, 5, s1.returned);
    } else {
      var s1 := s.(consumer := ReadHead);
      assert Step(s, Consume) == s1;
      if s.chain.pos + 1 < |s.chain.order| {
        MissingLink(s);
        assert false;
      }
      ChainStep(s, Consume);
      PutsStubBack(s1);
    }
  }

  /**
    The queue gives its items out: with an item queued and no producer inside sbfQueueEnqueue1, a call
    of sbfQueueNext returns the first one within seven steps, the last item included.
   */
  lemma NextReturnsTheFirst(blocking: bool, script: seq<Action>)
    requires var s := Run(blocking, script);
             s.consumer.ReadNext? && !Busy(s.producers) && Undelivered(s.chain) != []
    ensures var s := Run(blocking, script);
            Returns(s, 7, s.returned + [Undelivered(s.chain)[0]])
  {
    RunInv(blocking, script);
    ReturnsFirst(Run(blocking, script));
  }

  lemma ReturnsFirst(s: State)
    requires ChainOk(s) && s.consumer.ReadNext? && !Busy(s.producers) && Undelivered(s.chain) != []
    ensures Returns(s, 7, s.returned + [Undelivered(s.chain)[0]])
  {
    var c := s.chain;
    if c.tail != STUB {
      FirstItem(c);
      ReturnsTail(s);
      More(s, 6, s.returned + [Undelivered(c)[0]]);
    } else {
      if c.pos + 1 == |c.order| {
        OnlyStub(c);
        assert false;
      }
      if c.tail !in c.next {
        MissingLink(s);
        assert false;
      }
      SecondIsJoined(c, s.producers, s.consumer);
      BehindTheStub(c);
      var s1 := s.(chain := Advance(c), consumer := ReadNextAgain);
      assert Step(s, Consume) == s1;
      ChainStep(s, Consume);
      FirstItem(s1.chain);
      ReturnsTail(s1);
    }
  }

  lemma {:induction false} More(s: State, n: nat, returned: seq<Entry>)
    requires Returns(s, n, returned)
    ensures Returns(s, n + 1, returned)
    decreases n
  {
    if s.returned != returned {
      More(Step(s, Consume), n - 1, returned);
    }
  }

  /** An empty queue is the stub alone. */
  lemma EmptyIsOnlyStub(c: Chain)
    requires WindowInv(c) && Undelivered(c) == []
    ensures c.tail == STUB && c.tail !in c.next && |c.order| == c.pos + 1
  {
    if c.tail != STUB {
      FirstItem(c);
      assert false;
    }
  }

  /** A queue that does not block returns NULL from an empty queue at once; one that does puts its caller to sleep. */
  lemma EmptyGivesNothing(blocking: bool, script: seq<Action>)
    requires var s := Run(blocking, script);
             s.consumer.ReadNext? && Undelivered(s.chain) == [] && !s.second
    ensures var s1 := Step(Run(blocking, script), Consume);
            if !s1.blocking then s1.consumer.Outside? && s1.returned == Run(blocking, script).returned
            else
              var s4 := Step(Step(Step(s1, Consume), Consume), Consume);
              s4.consumer.Asleep? && s4.waiting && s4.returned == Run(blocking, script).returned
  {
    RunWindow(blocking, script);
    EmptySleeps(Run(blocking, script));
  }

  lemma EmptySleeps(s: State)
    requires WindowInv(s.chain) && s.consumer.ReadNext? && Undelivered(s.chain) == [] && !s.second
    ensures var s1 := Step(s, Consume);
            if !s1.blocking then s1.consumer.Outside? && s1.returned == s.returned
            else
              var s4 := Step(Step(Step(s1, Consume), Consume), Consume);
              s4.consumer.Asleep? && s4.waiting && s4.returned == s.returned
  {
    EmptyIsOnlyStub(s.chain);
    var s1 := s.(consumer := if s.blocking then SetFlag else Outside);
    assert Step(s, Consume) == s1;
    if s.blocking {
      var s2 := s.(waiting := true, consumer := ReadNext, second := true, overlapped := Busy(s.producers));
      assert Step(s1, Consume) == s2;
      var s3 := s2.(consumer := Wait);
      assert Step(s2, Consume) == s3;
      assert Step(s3, Consume) == s3.(consumer := Asleep);
    }
  }

  /** The caller has left sbfQueueDequeue through its second call of sbfQueueNext. */
  predicate LeftAfterFlag(s: State) {
    s.consumer.Outside? && s.second
  }

  lemma FlagDownConsume(s: State)
    requires LeftAfterFlag(ConsumeStep(s)) && (!s.blocking ==> !s.waiting) && (LeftAfterFlag(s) ==> !s.waiting)
    ensures !ConsumeStep(s).waiting
  {
    if Reads(s.consumer) {
    } else if PutsStub(s.consumer) {
      StubStaysInside(s);
      assert false;
    } else {
      match s.consumer
      case ReadHead =>
      case SetFlag =>
      case ClearFlag =>
      case Wait =>
      case _ =>
    }
  }

  lemma FlagDownProduce(s: State, p: Thread)
    requires LeftAfterFlag(ProduceStep(s, p)) && (LeftAfterFlag(s) ==> !s.waiting)
    ensures !ProduceStep(s, p).waiting
  {
    match Pc(s.producers, p)
    case Idle =>
    case Clear(_) =>
    case Exchange(_) =>
    case Link(_, _, _) =>
    case Test =>
    case Wake =>
  }

  /** A caller that has put up the flag and then got an item has taken the flag down again. */
  lemma {:induction false} FlagIsDown(blocking: bool, script: seq<Action>)
    requires LeftAfterFlag(Run(blocking, script))
    ensures !Run(blocking, script).waiting
  {
    if script != [] {
      var before, a := script[..|script| - 1], script[|script| - 1];
      var s := Run(blocking, before);
      RunInv(blocking, before);
      if LeftAfterFlag(s) {
        FlagIsDown(blocking, before);
      }
      match a
      case Consume => FlagDownConsume(s);
      case Produce(p) => FlagDownProduce(s, p);
      case _ =>
    }
  }

  /** The steps of one enqueue that nobody interrupts, up to the test of the flag. */
  function Inserted(s: State, p: Thread, item: Node): State {
    Step(Step(Step(Step(s, Enqueue(p, item)), Produce(p)), Produce(p)), Produce(p))
  }

  /** An enqueue puts its item behind all others. */
  lemma EnqueueAppends(blocking: bool, script: seq<Action>, p: Thread, item: Node)
    requires var s := Run(blocking, script); Pc(s.producers, p).Idle? && Free(s, item)
    ensures var s := Run(blocking, script);
            var s' := Inserted(s, p, item);
            && Undelivered(s'.chain) == Undelivered(s.chain) + [Entry(item, p)]
            && s'.returned == s.returned
            && Pc(s'.producers, p) == (if s'.blocking then Test else Idle)
  {
    RunInv(blocking, script);
    InsertAppends(Run(blocking, script), p, item);
  }

  lemma InsertAppends(s: State, p: Thread, item: Node)
    requires ChainOk(s) && Pc(s.producers, p).Idle? && Free(s, item)
    ensures var s' := Inserted(s, p, item);
            && Undelivered(s'.chain) == Undelivered(s.chain) + [Entry(item, p)]
            && s'.producers == s.producers[p := if s.blocking then Test else Idle]
            && ChainOk(s')
            && s' == s.(chain := s'.chain, producers := s'.producers, sent := s'.sent, overlapped := true)
  {
    var s1 := Accepted(s, p, item);
    ChainStep(s, Enqueue(p, item));
    assert Step(s, Enqueue(p, item)) == s1;
    InsertionSteps(s1, p, item);
    OneMoreItem(s.chain, Inserted(s, p, item).chain, Entry(item, p));
  }

  lemma InsertionSteps(s1: State, p: Thread, item: Node)
    requires ChainOk(s1) && Pc(s1.producers, p) == Clear(item)
    ensures var s4 := Step(Step(Step(s1, Produce(p)), Produce(p)), Produce(p));
            && ChainOk(s4)
            && s4.chain.order == s1.chain.order + [Entry(item, p)] && s4.chain.pos == s1.chain.pos
            && s4.producers == s1.producers[p := if s1.blocking then Test else Idle]
            && s4 == s1.(chain := s4.chain, producers := s4.producers)
  {
    var c, ps := s1.chain, s1.producers;
    var s2 := s1.(chain := ClearLink(c, item), producers := ps[p := Exchange(item)]);
    ClearsNext(s1, s2, p, item);
    var c3 := ExchangeHead(s2.chain, Entry(item, p));
    var s3 := s2.(chain := c3, producers := s2.producers[p := Link(item, c.head, |c.order|)]);
    ExchangesNext(s2, s3, p, item);
    var s4 := s3.(chain := WriteLink(c3, c.head, item), producers := s3.producers[p := if s1.blocking then Test else Idle]);
    LinksNext(s3, s4, p);
  }

  lemma ClearsNext(s: State, s': State, p: Thread, item: Node)
    requires ChainOk(s) && Pc(s.producers, p) == Clear(item)
    requires s' == s.(chain := ClearLink(s.chain, item), producers := s.producers[p := Exchange(item)])
    ensures Step(s, Produce(p)) == s' && ChainOk(s')
  {
    ChainStep(s, Produce(p));
  }

  lemma ExchangesNext(s: State, s': State, p: Thread, item: Node)
    requires ChainOk(s) && Pc(s.producers, p) == Exchange(item)
    requires s' == s.(chain := ExchangeHead(s.chain, Entry(item, p)),
                      producers := s.producers[p := Link(item, s.chain.head, |s.chain.order|)])
    ensures Step(s, Produce(p)) == s' && ChainOk(s')
  {
    ChainStep(s, Produce(p));
  }

  lemma LinksNext(s: State, s': State, p: Thread)
    requires ChainOk(s) && Pc(s.producers, p).Link?
    requires var Link(item, last, _) := Pc(s.producers, p);
             s' == s.(chain := WriteLink(s.chain, last, item), producers := s.producers[p := if s.blocking then Test else Idle])
    ensures Step(s, Produce(p)) == s' && ChainOk(s')
  {
    ChainStep(s, Produce(p));
  }

  lemma OneMoreItem(c: Chain, c': Chain, e: Entry)
    requires c.pos <= |c.order| && c'.order == c.order + [e] && c'.pos == c.pos && e.node != STUB
    ensures Undelivered(c') == Undelivered(c) + [e]
  {
    assert c'.order[c'.pos..] == c.order[c.pos..] + [e];
    ItemsSplit(c.order[c.pos..], [e]);
    assert Items([e]) == [e];
  }

  /** A sleeping consumer gets the next item that is enqueued: the enqueue wakes it and its call returns the item. */
  lemma SleeperIsServed(blocking: bool, script: seq<Action>, p: Thread, item: Node)
    requires var s := Run(blocking, script);
             s.consumer.Asleep? && (forall q :: Pc(s.producers, q).Idle?) && Free(s, item)
    ensures var s := Run(blocking, script);
            var s' := Step(Step(Inserted(s, p, item), Produce(p)), Produce(p));
            s'.consumer.ReadNext? && Returns(s', 7, s.returned + [Entry(item, p)])
  {
    var s := Run(blocking, script);
    RunInv(blocking, script);
    assert Pc(s.producers, p).Idle? && Pc(s.producers, s.waker).Idle?;
    assert Calm(s);
    OnlyStub(s.chain);
    InsertAppends(s, p, item);
    WokenAndServed(s, Inserted(s, p, item), p, item);
  }

  lemma WokenAndServed(s: State, s': State, p: Thread, item: Node)
    requires ChainOk(s') && s'.consumer.Asleep? && s'.waiting && Undelivered(s'.chain) == [Entry(item, p)]
    requires (forall q :: Pc(s.producers, q).Idle?) && s'.producers == s.producers[p := Test]
    requires s'.returned == s.returned
    ensures var s2 := Step(Step(s', Produce(p)), Produce(p));
            s2.consumer.ReadNext? && Returns(s2, 7, s.returned + [Entry(item, p)])
  {
    var s1 := Step(s', Produce(p));
    ChainStep(s', Produce(p));
    assert s1.producers == s.producers[p := Wake];
    var s2 := Step(s1, Produce(p));
    ChainStep(s1, Produce(p));
    assert s2.producers == s.producers[p := Idle];
    forall q | q in s2.producers ensures !Inserting(s2.producers[q]) {
      assert Pc(s.producers, q).Idle?;
    }
    ReturnsFirst(s2);
  }

  /** The step of a producer that has taken the flag down wakes a sleeping consumer. */
  lemma WakeReachesTheConsumer(s: State, p: Thread)
    requires Pc(s.producers, p).Wake? && s.consumer.Asleep?
    ensures ProduceStep(s, p).consumer == ReadNext
  {
  }

  /**
    No lost wakeup. While the consumer sleeps and an item is waiting, some producer is on its way: with
    the flag still up one that has exchanged the head but not run its compare-and-swap, and with the
    flag down the one that took it down, whose next step, the call of the futex, wakes the consumer.
   */
  lemma NoLostWakeup(blocking: bool, script: seq<Action>)
    requires var s := Run(blocking, script);
             s.consumer.Asleep? && Undelivered(s.chain) != []
    ensures var s := Run(blocking, script);
            if s.waiting then exists p :: Pc(s.producers, p).Link? || Pc(s.producers, p).Test?
            else Pc(s.producers, s.waker).Wake? && Step(s, Produce(s.waker)).consumer == ReadNext
  {
    var s := Run(blocking, script);
    RunInv(blocking, script);
    if Calm(s) {
      OnlyStub(s.chain);
      assert false;
    }
    if !s.waiting {
      WakeReachesTheConsumer(s, s.waker);
    }
  }

  /**
    Safe reuse: no thread still has a write to the link of a node outside the queue, so an item that
    was returned may be enqueued again at once, by anyone; and the stub is in the queue at most once.
   */
  lemma SafeReuse(blocking: bool, script: seq<Action>, n: Node)
    requires !InWindow(Run(blocking, script).chain, n)
    ensures var s := Run(blocking, script);
            && (forall p :: Pc(s.producers, p).Link? ==> Pc(s.producers, p).last != n)
            && (s.consumer.LinkStub? ==> s.consumer.last != n)
  {
    var s := Run(blocking, script);
    RunInv(blocking, script);
    forall p | Pc(s.producers, p).Link? ensures Pc(s.producers, p).last != n {
      assert ProducerInv(s.chain, Pc(s.producers, p), p);
    }
  }

  lemma AdvanceLeaves(c: Chain)
    requires WindowInv(c) && c.tail in c.next
    ensures !InWindow(Advance(c), c.tail)
  {
    var c' := Advance(c);
    forall i | c'.pos <= i < |c'.order| ensures c'.order[i].node != c.tail {
      assert c.order[c.pos].node != c.order[i].node;
    }
  }

  /** Only a read of a link that is there makes sbfQueueNext return an item. */
  lemma ReturnsWhen(s: State)
    requires ConsumeStep(s).returned != s.returned
    ensures Reads(s.consumer) && s.chain.tail in s.chain.next && (s.consumer.ReadNext? ==> s.chain.tail != STUB)
    ensures ConsumeStep(s) == ReturnItem(s)
  {
    FlagSame(s);
    StubReturnsNothing(s);
  }

  lemma StubReturnsNothing(s: State)
    ensures StubStep(s).returned == s.returned
  {
  }

  /** The nodes of the queue are distinct, and the item just returned has left it. */
  lemma ReturnedLeavesTheQueue(blocking: bool, script: seq<Action>)
    requires |Step(Run(blocking, script), Consume).returned| > |Run(blocking, script).returned|
    ensures var s' := Step(Run(blocking, script), Consume);
            && s'.returned != []
            && !InWindow(s'.chain, s'.returned[|s'.returned| - 1].node)
            && s'.returned[|s'.returned| - 1].node != STUB
  {
    RunWindow(blocking, script);
    ReturnsWhen(Run(blocking, script));
    LastReturned(Run(blocking, script));
  }

  lemma LastReturned(s: State)
    requires s.chain.tail in s.chain.next && WindowInv(s.chain) && ConsumerInv(s.chain, s.consumer)
    requires Reads(s.consumer) && (s.consumer.ReadNext? ==> s.chain.tail != STUB)
    ensures var s' := ReturnItem(s);
            && s'.returned != []
            && !InWindow(s'.chain, s'.returned[|s'.returned| - 1].node)
            && s'.returned[|s'.returned| - 1].node != STUB
  {
    AdvanceLeaves(s.chain);
  }
}
