/**
  The queue as the items and words that its threads write in place, one shared access at a time. An item
  is an object with its mNext field, known by a number, its address. Each method is one step of the
  scheduler and is proved to be the step of the state machine in MpscQueue on what the objects hold, so
  what QueueTheorems says of every run holds of every run of these methods.
 */
module QueueMemory {
  import opened MpscQueue
  import opened ItemMemory

  class Queue {
    const blocking: bool
    const items: Items
    var mHead: Node
    var mTail: Node
    var mWaiting: bool
    var producers: map<Thread, Producer>
    var consumer: Consumer
    var second: bool

    // History: what has happened so far. No branch depends on it.
    var order: seq<Entry>
    var pos: nat
    var returned: seq<Entry>
    var sent: map<Thread, seq<Node>>
    var waker: Thread
    var overlapped: bool

    ghost predicate Valid()
      reads this, items, items.items.Values
    {
      && items.Valid() && STUB in items.items && mHead in items.items && mTail in items.items
      && PcsHeld(items.items.Keys, producers) && (consumer.LinkStub? ==> consumer.last in items.items)
    }

    ghost function Words(): Chain
      reads this, items
    {
      Chain(mHead, mTail, items.next, order, pos)
    }

    ghost function View(): State
      reads this, items
    {
      State(blocking, Words(), mWaiting, producers, consumer, second, returned, sent, waker, overlapped)
    }

    constructor (blocking: bool)
      ensures Valid() && View() == Initial(blocking) && fresh(items) && fresh(items.items.Values)
    {
      this.blocking := blocking;
      items := new Items();
      mHead, mTail, mWaiting := STUB, STUB, false;
      producers, consumer, second := map[], Outside, false;
      order, pos, returned, sent, waker, overlapped := [Entry(STUB, 0)], 0, [], map[], 0, false;
      new;
      items.Adopt(STUB);
    }

    method Prepare(item: Node)
      requires Valid()
      modifies items`items
      ensures Valid() && View() == old(View()) && item in items.items
      ensures fresh(items.items.Values - old(items.items.Values))
    {
      if item !in items.items {
        items.Adopt(item);
      }
    }

    method Accept(p: Thread, item: Node)
      requires Valid() && item in items.items
      modifies this`producers, this`sent, this`overlapped
      ensures Valid() && View() == Accepted(old(View()), p, item)
    {
      producers, sent, overlapped := producers[p := Clear(item)], sent[p := SentBy(sent, p) + [item]], true;
    }

    /** A caller passes an item that it owns to sbfQueueEnqueue. */
    method Enqueue(p: Thread, item: Node)
      requires Valid() && Pc(View().producers, p).Idle? && Free(View(), item)
      modifies items`items, this`producers, this`sent, this`overlapped
      ensures Valid() && View() == EnqueueStep(old(View()), p, item)
      ensures fresh(items.items.Values - old(items.items.Values))
    {
      Prepare(item);
      Accept(p, item);
    }

    /** last->mNext = item */
    method WriteNext(last: Node, n: Node)
      requires Valid() && last in items.items && n in items.items
      modifies items`next, items.items.Values
      ensures Valid() && View() == old(View()).(chain := WriteLink(old(Words()), last, n))
    {
      items.Write(last, n);
    }

    method ProduceClear(p: Thread)
      requires Valid() && Pc(producers, p).Clear?
      modifies items`next, this`producers, items.items.Values
      ensures Valid() && View() == ProduceStep(old(View()), p)
    {
      var item := producers[p].item;
      items.Clear(item);
      producers := producers[p := Exchange(item)];
    }

    /** last = exchange (&mHead, item) */
    method ProduceExchange(p: Thread)
      requires Valid() && Pc(producers, p).Exchange?
      modifies this`mHead, this`order, this`producers
      ensures Valid() && View() == ProduceStep(old(View()), p)
    {
      var item, last := producers[p].item, mHead;
      mHead := item;
      producers := producers[p := Link(item, last, |order|)];
      order := order + [Entry(item, p)];
    }

    method ProduceLink(p: Thread)
      requires Valid() && Pc(producers, p).Link?
      modifies items`next, this`producers, items.items.Values
      ensures Valid() && View() == ProduceStep(old(View()), p)
    {
      WriteNext(producers[p].last, producers[p].item);
      producers := producers[p := if blocking then Test else Idle];
    }

    /** The compare-and-swap on mWaiting, and the call of the futex */
    method ProduceWake(p: Thread)
      requires Valid() && !Inserting(Pc(producers, p))
      modifies this`mWaiting, this`waker, this`producers, this`consumer, this`second, this`overlapped
      ensures Valid() && View() == ProduceStep(old(View()), p)
    {
      match Pc(producers, p)
      case Test =>
        if mWaiting {
          mWaiting, waker, producers := false, p, producers[p := Wake];
        } else {
          producers := producers[p := Idle];
        }
      case Wake =>
        producers := producers[p := Idle];
        if consumer.Asleep? {
          StartNext(false);
        }
      case _ =>
    }

    /** The next shared access of a producer inside sbfQueueEnqueue. */
    method Produce(p: Thread)
      requires Valid()
      modifies this, items`next, items.items.Values
      ensures Valid() && View() == ProduceStep(old(View()), p) && items.items == old(items.items)
    {
      match Pc(producers, p)
      case Clear(_) => ProduceClear(p);
      case Exchange(_) => ProduceExchange(p);
      case Link(_, _, _) => ProduceLink(p);
      case _ => ProduceWake(p);
    }

    method StartNext(second: bool)
      requires Valid()
      modifies this`consumer, this`second, this`overlapped
      ensures Valid() && View() == BeginNext(old(View()), second)
    {
      consumer, this.second := ReadNext, second;
      overlapped := Busy(producers);
    }

    /** sbfQueueNext advances mTail and returns the old one. */
    method TakeTail(next: Node)
      requires Valid() && mTail in items.next && next == items.next[mTail] && next in items.items
      modifies this`returned, this`mTail, this`pos, this`consumer
      ensures Valid() && View() == ReturnItem(old(View()))
    {
      returned := returned + [Entry(mTail, SenderAt(order, pos))];
      mTail, pos, consumer := next, pos + 1, if second then ClearFlag else Outside;
    }

    method GiveUp()
      requires Valid()
      modifies this`consumer
      ensures Valid() && View() == old(View()).(consumer := AfterNull(old(View())))
    {
      consumer := if !blocking then Outside else if second then Wait else SetFlag;
    }

    method FoundLink(next: Node)
      requires Valid() && Reads(consumer)
      requires mTail in items.next && next == items.next[mTail] && next in items.items
      modifies this`returned, this`mTail, this`pos, this`consumer
      ensures Valid() && View() == Found(old(View()))
    {
      if consumer.ReadNext? && mTail == STUB {
        mTail, pos, consumer := next, pos + 1, ReadNextAgain;
      } else {
        TakeTail(next);
      }
    }

    method MissedLink()
      requires Valid() && Reads(consumer) && mTail !in items.next
      modifies this`consumer
      ensures Valid() && View() == Missing(old(View()))
    {
      if consumer.ReadAfterStub? || (consumer.ReadNext? && mTail == STUB) {
        GiveUp();
      } else {
        consumer := ReadHead;
      }
    }

    /** A read of tail->mNext by sbfQueueNext. */
    method ReadTailLink()
      requires Valid() && Reads(consumer)
      modifies this`returned, this`mTail, this`pos, this`consumer
      ensures Valid() && View() == ConsumeStep(old(View()))
    {
      var found, next := items.Read(mTail);
      if found {
        FoundLink(next);
      } else {
        MissedLink();
      }
    }

    method ClearStubLink()
      requires Valid() && consumer.ClearStub?
      modifies items`next, items.items.Values, this`consumer
      ensures Valid() && View() == StubStep(old(View()))
    {
      items.Clear(STUB);
      consumer := ExchangeStub;
    }

    method LinkTheStub()
      requires Valid() && consumer.LinkStub?
      modifies items`next, items.items.Values, this`consumer
      ensures Valid()
      ensures View() == old(View()).(chain := WriteLink(old(Words()), old(consumer).last, STUB), consumer := ReadAfterStub)
    {
      WriteNext(consumer.last, STUB);
      consumer := ReadAfterStub;
    }

    method ExchangeTheStub()
      requires Valid() && consumer.ExchangeStub?
      modifies this`consumer, this`mHead, this`order
      ensures Valid() && View() == StubStep(old(View()))
    {
      consumer, mHead, order := LinkStub(mHead, |order|), STUB, order + [Entry(STUB, 0)];
    }

    /** The re-insertion of the stub by sbfQueueEnqueue1. */
    method PutStub()
      requires Valid() && PutsStub(consumer)
      modifies items`next, items.items.Values, this`consumer, this`mHead, this`order
      ensures Valid() && View() == StubStep(old(View())) && items.items == old(items.items)
    {
      match consumer
      case ClearStub => ClearStubLink();
      case ExchangeStub => ExchangeTheStub();
      case LinkStub(_, _) =>
        LinkStubStep(View());
        LinkTheStub();
    }

    method SetTheFlag()
      requires Valid() && (consumer.SetFlag? || consumer.ClearFlag?)
      modifies this`mWaiting, this`consumer, this`second, this`overlapped
      ensures Valid() && View() == FlagStep(old(View()))
    {
      mWaiting := consumer.SetFlag?;
      if mWaiting {
        StartNext(true);
      } else {
        consumer := Outside;
      }
    }

    /** The accesses to mHead and to the flag */
    method TestFlag()
      requires Valid()
      modifies this`mWaiting, this`consumer, this`second, this`overlapped
      ensures Valid() && View() == FlagStep(old(View()))
    {
      if consumer.ReadHead? {
        if mTail != mHead {
          GiveUp();
        } else {
          consumer := ClearStub;
        }
      } else if consumer.SetFlag? || consumer.ClearFlag? {
        SetTheFlag();
      } else if consumer.Wait? {
        if mWaiting {
          consumer := Asleep;
        } else {
          StartNext(false);
        }
      }
    }

    /** The next shared access of the consumer inside sbfQueueDequeue. */
    method Consume()
      requires Valid()
      modifies this, items`next, items.items.Values
      ensures Valid() && View() == ConsumeStep(old(View())) && items.items == old(items.items)
    {
      if Reads(consumer) {
        ReadTailLink();
      } else if PutsStub(consumer) {
        PutStub();
      } else {
        TestFlag();
      }
    }

    /** One choice of the scheduler; a choice that is not possible is skipped. */
    method Choose(a: Action)
      requires Valid()
      modifies this, items, items.items.Values
      ensures Valid() && View() == Step(old(View()), a) && fresh(items.items.Values - old(items.items.Values))
    {
      match a
      case Enqueue(p, item) =>
        if Pc(producers, p).Idle? && MayEnqueue(order, pos, producers, item) {
          Enqueue(p, item);
        }
      case Produce(p) => Produce(p);
      case Dequeue =>
        if consumer.Outside? {
          StartNext(false);
        }
      case Consume => Consume();
      case Interrupt =>
        if consumer.Asleep? {
          consumer := Wait;
        }
      case Spurious =>
        if consumer.Asleep? {
          StartNext(false);
        }
    }

    /** A whole run of a new queue. */
    method Play(script: seq<Action>)
      requires Valid() && View() == Initial(blocking)
      modifies this, items, items.items.Values
      ensures Valid() && View() == Run(blocking, script) && Inv(View())
    {
      for n := 0 to |script|
        invariant Valid() && View() == Run(blocking, script[..n]) && fresh(items.items.Values - old(items.items.Values))
      {
        Choose(script[n]);
        assert script[..n + 1][..n] == script[..n];
      }
      assert script[..|script|] == script;
      RunInv(blocking, script);
    }
  }

  lemma LinkStubStep(s: State)
    requires s.consumer.LinkStub?
    ensures StubStep(s) == s.(chain := WriteLink(s.chain, s.consumer.last, STUB), consumer := ReadAfterStub)
  {
  }

  /** The items that a producer works on are there. */
  predicate InHandOf(known: set<Node>, pc: Producer) {
    match pc
    case Clear(item) => item in known
    case Exchange(item) => item in known
    case Link(item, last, _) => item in known && last in known
    case _ => true
  }

  ghost predicate PcsHeld(known: set<Node>, ps: map<Thread, Producer>) {
    forall p :: p in ps ==> InHandOf(known, ps[p])
  }
}
