/**
  The multi-producer, single-consumer queue of src/core/sbfQueueLinux.h.

  Every access to a shared word (mHead, mWaiting and the mNext fields) is one atomic step, steps
  interleave in any order, and memory is sequentially consistent. Whether the queue blocks is fixed
  for the lifetime of the queue. Null links are absent keys of `next`.

  The state also carries history that no step reads: `order` is every node ever exchanged into mHead
  together with the thread that did it, `pos` is the place of mTail in that order, `returned` is what
  sbfQueueNext has handed out, `sent` is what each producer has passed to sbfQueueEnqueue, `waker` is
  the last producer whose compare-and-swap succeeded and `overlapped` says whether some producer was
  inside sbfQueueEnqueue1 at any point of the current call of sbfQueueNext.
 */
module MpscQueue {
  type Node = nat
  type Thread = nat

  /** The address of mEmpty. */
  const STUB: Node := 0

  datatype Entry = Entry(node: Node, who: Thread)

  /** What a producer is about to do. */
  datatype Producer =
    | Idle
    | Clear(item: Node)
    | Exchange(item: Node)
    | Link(item: Node, last: Node, at: nat)
    | Test
    | Wake

  /** What the consumer is about to do; the local `tail` of sbfQueueNext always equals mTail. */
  datatype Consumer =
    | Outside
    | ReadNext
    | ReadNextAgain
    | ReadHead
    | ClearStub
    | ExchangeStub
    | LinkStub(last: Node, at: nat)
    | ReadAfterStub
    | SetFlag
    | ClearFlag
    | Wait
    | Asleep

  /** mHead, mTail and the mNext fields, with every exchange made so far and the place of mTail in it. */
  datatype Chain = Chain(head: Node, tail: Node, next: map<Node, Node>, order: seq<Entry>, pos: nat)

  datatype State = State(
    blocking: bool,
    chain: Chain,
    waiting: bool,
    producers: map<Thread, Producer>,
    consumer: Consumer,
    second: bool,
    returned: seq<Entry>,
    sent: map<Thread, seq<Node>>,
    waker: Thread,
    overlapped: bool)

  /** One choice of the scheduler. A choice that is not possible leaves the state alone. */
  datatype Action =
    | Enqueue(p: Thread, item: Node)
    | Produce(p: Thread)
    | Dequeue
    | Consume
    | Interrupt
    | Spurious

  function Initial(blocking: bool): State {
    State(blocking, Chain(STUB, STUB, map[], [Entry(STUB, 0)], 0), false, map[], Outside, false, [], map[], 0, false)
  }

  function Pc(ps: map<Thread, Producer>, p: Thread): Producer {
    if p in ps then ps[p] else Idle
  }

  function SentBy(sent: map<Thread, seq<Node>>, p: Thread): seq<Node> {
    if p in sent then sent[p] else []
  }

  /** The producer is inside sbfQueueEnqueue1. */
  predicate Inserting(pc: Producer) {
    pc.Clear? || pc.Exchange? || pc.Link?
  }

  predicate Busy(ps: map<Thread, Producer>) {
    exists p :: p in ps && Inserting(ps[p])
  }

  /** The node lies between mTail and mHead. */
  predicate InWindow(c: Chain, n: Node) {
    Within(c.order, c.pos, n)
  }

  predicate Within(order: seq<Entry>, pos: nat, n: Node) {
    exists i :: pos <= i < |order| && order[i].node == n
  }

  /** The producer owns the node and has not yet exchanged it into mHead. */
  predicate Claims(ps: map<Thread, Producer>, p: Thread, n: Node) {
    Pc(ps, p) == Clear(n) || Pc(ps, p) == Exchange(n)
  }

  /** A caller may enqueue a node that it owns: not the stub, not queued and not another caller's. */
  predicate Free(s: State, n: Node) {
    MayEnqueue(s.chain.order, s.chain.pos, s.producers, n)
  }

  predicate MayEnqueue(order: seq<Entry>, pos: nat, ps: map<Thread, Producer>, n: Node) {
    n != STUB && !Within(order, pos, n) && !exists p :: p in ps && Claims(ps, p, n)
  }

  // ---------------------------------------------------------------------------------------------
  // Steps
  // ---------------------------------------------------------------------------------------------

  /** item->mNext = NULL */
  function ClearLink(c: Chain, item: Node): Chain {
    c.(next := c.next - {item})
  }

  /** last = exchange (&mHead, item) */
  function ExchangeHead(c: Chain, e: Entry): Chain {
    c.(head := e.node, order := c.order + [e])
  }

  /** last->mNext = item */
  function WriteLink(c: Chain, last: Node, item: Node): Chain {
    c.(next := c.next[last := item])
  }

  /** mTail = tail->mNext */
  function Advance(c: Chain): Chain
    requires c.tail in c.next
  {
    c.(tail := c.next[c.tail], pos := c.pos + 1)
  }

  function EnqueueStep(s: State, p: Thread, item: Node): State {
    if Pc(s.producers, p) != Idle || !Free(s, item) then s else Accepted(s, p, item)
  }

  function Accepted(s: State, p: Thread, item: Node): State {
    s.(producers := s.producers[p := Clear(item)], sent := s.sent[p := SentBy(s.sent, p) + [item]], overlapped := true)
  }

  function ProduceStep(s: State, p: Thread): State {
    match Pc(s.producers, p)
    case Idle => s
    case Clear(item) =>
      s.(chain := ClearLink(s.chain, item), producers := s.producers[p := Exchange(item)])
    case Exchange(item) =>
      s.(chain := ExchangeHead(s.chain, Entry(item, p)),
         producers := s.producers[p := Link(item, s.chain.head, |s.chain.order|)])
    case Link(item, last, at) =>
      s.(chain := WriteLink(s.chain, last, item),
         producers := s.producers[p := if s.blocking then Test else Idle])
    case Test =>
      if s.waiting then s.(waiting := false, waker := p, producers := s.producers[p := Wake])
      else s.(producers := s.producers[p := Idle])
    case Wake =>
      var s' := s.(producers := s.producers[p := Idle]);
      if s.consumer.Asleep? then BeginNext(s', false) else s'
  }

  /** The first instruction of sbfQueueNext comes next. */
  function BeginNext(s: State, second: bool): State {
    s.(consumer := ReadNext, second := second, overlapped := Busy(s.producers))
  }

  function SenderAt(order: seq<Entry>, pos: nat): Thread {
    if pos < |order| then order[pos].who else 0
  }

  /** sbfQueueNext advances mTail and returns the old one. */
  function ReturnItem(s: State): State
    requires s.chain.tail in s.chain.next
  {
    s.(chain := Advance(s.chain),
       returned := s.returned + [Entry(s.chain.tail, SenderAt(s.chain.order, s.chain.pos))],
       consumer := if s.second then ClearFlag else Outside)
  }

  /** What comes after sbfQueueNext has returned NULL. */
  function AfterNull(s: State): Consumer {
    if !s.blocking then Outside else if s.second then Wait else SetFlag
  }

  /** A read of tail->mNext found a node. */
  function Found(s: State): State
    requires s.chain.tail in s.chain.next
  {
    if s.consumer.ReadNext? && s.chain.tail == STUB then s.(chain := Advance(s.chain), consumer := ReadNextAgain)
    else ReturnItem(s)
  }

  /** A read of tail->mNext found NULL. */
  function Missing(s: State): State {
    s.(consumer := if s.consumer.ReadAfterStub? || (s.consumer.ReadNext? && s.chain.tail == STUB) then AfterNull(s)
                   else ReadHead)
  }

  /** The consumer is about to read tail->mNext. */
  predicate Reads(k: Consumer) {
    k.ReadNext? || k.ReadNextAgain? || k.ReadAfterStub?
  }

  /** The consumer is inside sbfQueueEnqueue1, with the stub. */
  predicate PutsStub(k: Consumer) {
    k.ClearStub? || k.ExchangeStub? || k.LinkStub?
  }

  function StubStep(s: State): State {
    var c := s.chain;
    match s.consumer
    case ClearStub => s.(chain := ClearLink(c, STUB), consumer := ExchangeStub)
    case ExchangeStub => s.(chain := ExchangeHead(c, Entry(STUB, 0)), consumer := LinkStub(c.head, |c.order|))
    case LinkStub(last, _) => s.(chain := WriteLink(c, last, STUB), consumer := ReadAfterStub)
    case _ => s
  }

  /** The steps that read mHead and those that read or write the flag */
  function FlagStep(s: State): State {
    match s.consumer
    case ReadHead => s.(consumer := if s.chain.tail != s.chain.head then AfterNull(s) else ClearStub)
    case SetFlag => BeginNext(s.(waiting := true), true)
    case ClearFlag => s.(waiting := false, consumer := Outside)
    case Wait => if s.waiting then s.(consumer := Asleep) else BeginNext(s, false)
    case _ => s
  }

  function ConsumeStep(s: State): State {
    var c := s.chain;
    if Reads(s.consumer) then
      if c.tail in c.next then Found(s) else Missing(s)
    else if PutsStub(s.consumer) then StubStep(s)
    else FlagStep(s)
  }

  function Step(s: State, a: Action): State {
    match a
    case Enqueue(p, item) => EnqueueStep(s, p, item)
    case Produce(p) => ProduceStep(s, p)
    case Dequeue => if s.consumer.Outside? then BeginNext(s, false) else s
    case Consume => ConsumeStep(s)
    case Interrupt => if s.consumer.Asleep? then s.(consumer := Wait) else s
    case Spurious => if s.consumer.Asleep? then BeginNext(s, false) else s
  }

  // ---------------------------------------------------------------------------------------------
  // The chain
  // ---------------------------------------------------------------------------------------------

  /** The link into the entry at `at` is the next thing that its thread writes. */
  predicate Pending(c: Chain, ps: map<Thread, Producer>, k: Consumer, at: nat)
    requires 0 < at < |c.order|
  {
    var e := c.order[at];
    if e.node == STUB then k == LinkStub(c.order[at - 1].node, at)
    else Pc(ps, e.who) == Link(e.node, c.order[at - 1].node, at)
  }

  predicate Linked(c: Chain, at: nat)
    requires 0 < at < |c.order|
  {
    c.order[at - 1].node in c.next && c.next[c.order[at - 1].node] == c.order[at].node
  }

  predicate Joined(c: Chain, ps: map<Thread, Producer>, k: Consumer, at: nat)
    requires 0 < at < |c.order|
  {
    Linked(c, at) || (c.order[at - 1].node !in c.next && Pending(c, ps, k, at))
  }

  ghost predicate WindowInv(c: Chain) {
    && c.pos < |c.order|
    && c.order[c.pos].node == c.tail
    && c.order[|c.order| - 1].node == c.head
    && c.head !in c.next
    && (forall i, j :: c.pos <= i < j < |c.order| ==> c.order[i].node != c.order[j].node)
  }

  ghost predicate JoinedInv(c: Chain, ps: map<Thread, Producer>, k: Consumer) {
    forall at :: c.pos < at < |c.order| ==> Joined(c, ps, k, at)
  }

  /** The entry at `at` is `e`, its predecessor is `last` and the link between them is not written. */
  predicate Unlinked(c: Chain, e: Entry, last: Node, at: nat) {
    c.pos < at < |c.order| && c.order[at] == e && c.order[at - 1].node == last && last !in c.next
  }

  ghost predicate ProducerInv(c: Chain, pc: Producer, p: Thread) {
    match pc
    case Clear(item) => item != STUB && !InWindow(c, item)
    case Exchange(item) => item != STUB && !InWindow(c, item) && item !in c.next
    case Link(item, last, at) => item != STUB && Unlinked(c, Entry(item, p), last, at)
    case _ => true
  }

  ghost predicate ProducersInv(c: Chain, ps: map<Thread, Producer>) {
    forall p :: ProducerInv(c, Pc(ps, p), p)
  }

  ghost predicate ClaimsInv(ps: map<Thread, Producer>) {
    forall p, q, n :: p != q && Claims(ps, p, n) ==> !Claims(ps, q, n)
  }

  ghost predicate ConsumerInv(c: Chain, k: Consumer) {
    match k
    case ReadNextAgain => c.tail != STUB
    case ReadHead => c.tail != STUB
    case ClearStub => !InWindow(c, STUB)
    case ExchangeStub => !InWindow(c, STUB) && STUB !in c.next
    case LinkStub(last, at) => c.tail != STUB && Unlinked(c, Entry(STUB, 0), last, at)
    case ReadAfterStub => c.tail != STUB
    case _ => true
  }

  ghost predicate ChainInv(c: Chain, ps: map<Thread, Producer>, k: Consumer) {
    && WindowInv(c)
    && JoinedInv(c, ps, k)
    && ProducersInv(c, ps)
    && ClaimsInv(ps)
    && ConsumerInv(c, k)
  }

  ghost predicate ChainOk(s: State) {
    ChainInv(s.chain, s.producers, s.consumer)
  }

  lemma ClaimsShrink(ps: map<Thread, Producer>, ps': map<Thread, Producer>)
    requires ClaimsInv(ps)
    requires forall p, n :: Claims(ps', p, n) ==> Claims(ps, p, n)
    ensures ClaimsInv(ps')
  {
    forall p, q, n | p != q && Claims(ps', p, n) ensures !Claims(ps', q, n) {
      assert Claims(ps, p, n) && !Claims(ps, q, n);
    }
  }

  /** A producer outside sbfQueueEnqueue1 may do anything that stays outside it. */
  lemma ChainProducerFrame(c: Chain, ps: map<Thread, Producer>, k: Consumer, p: Thread, pc: Producer)
    requires ChainInv(c, ps, k) && !Inserting(Pc(ps, p)) && !Inserting(pc)
    ensures ChainInv(c, ps[p := pc], k)
  {
    var ps' := ps[p := pc];
    forall q ensures ProducerInv(c, Pc(ps', q), q) {
      assert ProducerInv(c, Pc(ps, q), q);
    }
    ClaimsShrink(ps, ps');
    forall at | c.pos < at < |c.order| ensures Joined(c, ps', k, at) {
      assert Joined(c, ps, k, at);
    }
  }

  lemma ChainConsumerFrame(c: Chain, ps: map<Thread, Producer>, k: Consumer, k': Consumer)
    requires ChainInv(c, ps, k) && !k.LinkStub? && ConsumerInv(c, k')
    ensures ChainInv(c, ps, k')
  {
    forall at | c.pos < at < |c.order| ensures Joined(c, ps, k', at) {
      assert Joined(c, ps, k, at);
    }
  }

  lemma ChainEnqueue(c: Chain, ps: map<Thread, Producer>, k: Consumer, p: Thread, item: Node)
    requires ChainInv(c, ps, k) && Pc(ps, p).Idle?
    requires item != STUB && !InWindow(c, item) && forall q :: !Claims(ps, q, item)
    ensures ChainInv(c, ps[p := Clear(item)], k)
  {
    var ps' := ps[p := Clear(item)];
    forall q ensures ProducerInv(c, Pc(ps', q), q) {
      assert ProducerInv(c, Pc(ps, q), q);
    }
    forall q, r, n | q != r && Claims(ps', q, n) ensures !Claims(ps', r, n) {
      assert !Claims(ps, q, item) && !Claims(ps, r, item);
      assert Claims(ps, q, n) ==> !Claims(ps, r, n);
    }
    forall at | c.pos < at < |c.order| ensures Joined(c, ps', k, at) {
      assert Joined(c, ps, k, at);
    }
  }

  /** A producer clears the link of its own node. */
  lemma ChainClear(c: Chain, ps: map<Thread, Producer>, k: Consumer, p: Thread, item: Node)
    requires ChainInv(c, ps, k) && Pc(ps, p) == Clear(item)
    ensures ChainInv(ClearLink(c, item), ps[p := Exchange(item)], k)
  {
    var c', ps' := ClearLink(c, item), ps[p := Exchange(item)];
    assert ProducerInv(c, Pc(ps, p), p);
    forall q ensures ProducerInv(c', Pc(ps', q), q) {
      assert ProducerInv(c, Pc(ps, q), q);
    }
    ClaimsShrink(ps, ps');
    forall at | c'.pos < at < |c'.order| ensures Joined(c', ps', k, at) {
      assert c.order[at - 1].node != item;
      assert Joined(c, ps, k, at);
    }
  }

  /** A producer puts its node at the head. */
  lemma ChainExchange(c: Chain, ps: map<Thread, Producer>, k: Consumer, p: Thread, item: Node)
    requires ChainInv(c, ps, k) && Pc(ps, p) == Exchange(item)
    ensures ChainInv(ExchangeHead(c, Entry(item, p)), ps[p := Link(item, c.head, |c.order|)], k)
  {
    var c', ps' := ExchangeHead(c, Entry(item, p)), ps[p := Link(item, c.head, |c.order|)];
    assert ProducerInv(c, Pc(ps, p), p);
    assert Claims(ps, p, item);
    forall q ensures ProducerInv(c', Pc(ps', q), q) {
      assert ProducerInv(c, Pc(ps, q), q);
      assert q != p ==> !Claims(ps, q, item);
    }
    ClaimsShrink(ps, ps');
    forall at | c'.pos < at < |c'.order| ensures Joined(c', ps', k, at) {
      assert at < |c.order| ==> Joined(c, ps, k, at);
    }
  }

  /** A producer writes its predecessor's link. */
  lemma ChainLink(c: Chain, ps: map<Thread, Producer>, k: Consumer, p: Thread, pc: Producer)
    requires ChainInv(c, ps, k) && Pc(ps, p).Link? && !Inserting(pc)
    ensures ChainInv(WriteLink(c, Pc(ps, p).last, Pc(ps, p).item), ps[p := pc], k)
  {
    var Link(item, last, at0) := Pc(ps, p);
    var c', ps' := WriteLink(c, last, item), ps[p := pc];
    assert ProducerInv(c, Pc(ps, p), p);
    forall q ensures ProducerInv(c', Pc(ps', q), q) {
      assert ProducerInv(c, Pc(ps, q), q);
    }
    ClaimsShrink(ps, ps');
    forall at | c'.pos < at < |c'.order| ensures Joined(c', ps', k, at) {
      assert Joined(c, ps, k, at);
      assert at == at0 ==> Linked(c', at);
    }
  }

  lemma ChainProduce(s: State, p: Thread)
    requires ChainOk(s)
    ensures ChainOk(ProduceStep(s, p))
  {
    var c, ps, k := s.chain, s.producers, s.consumer;
    match Pc(ps, p)
    case Idle =>
    case Clear(item) => ChainClear(c, ps, k, p, item);
    case Exchange(item) => ChainExchange(c, ps, k, p, item);
    case Link(_, _, _) => ChainLink(c, ps, k, p, if s.blocking then Test else Idle);
    case Test => ChainProducerFrame(c, ps, k, p, if s.waiting then Wake else Idle);
    case Wake =>
      ChainProducerFrame(c, ps, k, p, Idle);
      if k.Asleep? {
        ChainConsumerFrame(c, ps[p := Idle], k, ReadNext);
      }
  }

  /** The consumer moves mTail along a written link. */
  lemma ChainAdvance(c: Chain, ps: map<Thread, Producer>, k: Consumer, k': Consumer)
    requires ChainInv(c, ps, k) && c.tail in c.next && !k.LinkStub?
    requires k'.Outside? || k'.ClearFlag? || (c.tail == STUB && k'.ReadNextAgain?)
    ensures ChainInv(Advance(c), ps, k')
  {
    var c' := Advance(c);
    assert |c.order| > c.pos + 1;
    assert Joined(c, ps, k, c.pos + 1);
    forall q ensures ProducerInv(c', Pc(ps, q), q) {
      assert ProducerInv(c, Pc(ps, q), q);
    }
    forall at | c'.pos < at < |c'.order| ensures Joined(c', ps, k', at) {
      assert Joined(c, ps, k, at);
    }
  }

  /** The consumer clears the link of the stub, which is outside the window. */
  lemma ChainClearStub(c: Chain, ps: map<Thread, Producer>)
    requires ChainInv(c, ps, ClearStub)
    ensures ChainInv(ClearLink(c, STUB), ps, ExchangeStub)
  {
    var c' := ClearLink(c, STUB);
    forall q ensures ProducerInv(c', Pc(ps, q), q) {
      assert ProducerInv(c, Pc(ps, q), q);
    }
    forall at | c'.pos < at < |c'.order| ensures Joined(c', ps, ExchangeStub, at) {
      assert c.order[at - 1].node != STUB;
      assert Joined(c, ps, ClearStub, at);
    }
  }

  /** The consumer puts the stub back at the head. */
  lemma ChainExchangeStub(c: Chain, ps: map<Thread, Producer>)
    requires ChainInv(c, ps, ExchangeStub)
    ensures ChainInv(ExchangeHead(c, Entry(STUB, 0)), ps, LinkStub(c.head, |c.order|))
  {
    var c', k' := ExchangeHead(c, Entry(STUB, 0)), LinkStub(c.head, |c.order|);
    forall q ensures ProducerInv(c', Pc(ps, q), q) {
      assert ProducerInv(c, Pc(ps, q), q);
    }
    forall at | c'.pos < at < |c'.order| ensures Joined(c', ps, k', at) {
      if at < |c.order| {
        assert Joined(c, ps, ExchangeStub, at);
        assert c.order[at].node != STUB;
      }
    }
  }

  /** The consumer writes the stub's predecessor's link. */
  lemma ChainLinkStub(c: Chain, ps: map<Thread, Producer>, last: Node, at0: nat)
    requires ChainInv(c, ps, LinkStub(last, at0))
    ensures ChainInv(WriteLink(c, last, STUB), ps, ReadAfterStub)
  {
    var c' := WriteLink(c, last, STUB);
    forall q ensures ProducerInv(c', Pc(ps, q), q) {
      assert ProducerInv(c, Pc(ps, q), q);
    }
    forall at | c'.pos < at < |c'.order| ensures Joined(c', ps, ReadAfterStub, at) {
      assert Joined(c, ps, LinkStub(last, at0), at);
      assert at == at0 ==> Linked(c', at);
    }
  }

  lemma ChainMissing(s: State)
    requires ChainOk(s) && Reads(s.consumer) && s.chain.tail !in s.chain.next
    ensures ChainOk(Missing(s))
  {
    ChainConsumerFrame(s.chain, s.producers, s.consumer, Missing(s).consumer);
  }

  lemma ChainFound(s: State)
    requires ChainOk(s) && Reads(s.consumer) && s.chain.tail in s.chain.next
    ensures ChainOk(Found(s))
  {
    ChainAdvance(s.chain, s.producers, s.consumer, Found(s).consumer);
  }

  lemma ChainStub(s: State)
    requires ChainOk(s) && PutsStub(s.consumer)
    ensures ChainOk(StubStep(s))
  {
    match s.consumer
    case ClearStub => ChainClearStub(s.chain, s.producers);
    case ExchangeStub => ChainExchangeStub(s.chain, s.producers);
    case LinkStub(last, at) => ChainLinkStub(s.chain, s.producers, last, at);
  }

  lemma ChainConsume(s: State)
    requires ChainOk(s)
    ensures ChainOk(ConsumeStep(s))
  {
    if Reads(s.consumer) {
      if s.chain.tail in s.chain.next {
        ChainFound(s);
      } else {
        ChainMissing(s);
      }
    } else if PutsStub(s.consumer) {
      ChainStub(s);
    } else {
      ChainConsumerFrame(s.chain, s.producers, s.consumer, FlagStep(s).consumer);
    }
  }

  lemma ChainStep(s: State, a: Action)
    requires ChainOk(s)
    ensures ChainOk(Step(s, a))
  {
    match a
    case Enqueue(p, item) =>
      if Step(s, a) != s {
        forall q ensures !Claims(s.producers, q, item) {
          assert q in s.producers ==> !Claims(s.producers, q, item);
        }
        ChainEnqueue(s.chain, s.producers, s.consumer, p, item);
      }
    case Produce(p) => ChainProduce(s, p);
    case Consume => ChainConsume(s);
    case _ =>
      if Step(s, a) != s {
        ChainConsumerFrame(s.chain, s.producers, s.consumer, Step(s, a).consumer);
      }
  }

  // ---------------------------------------------------------------------------------------------
  // What has been sent and returned
  // ---------------------------------------------------------------------------------------------

  /** The entries that carry an item, in order. */
  function Items(es: seq<Entry>): seq<Entry> {
    if es == [] then []
    else
      var e := es[|es| - 1];
      Items(es[..|es| - 1]) + (if e.node == STUB then [] else [e])
  }

  /** The nodes of the entries that carry an item of producer p, in order. */
  function ItemsOf(es: seq<Entry>, p: Thread): seq<Node> {
    if es == [] then []
    else
      var e := es[|es| - 1];
      ItemsOf(es[..|es| - 1], p) + (if e.node == STUB || e.who != p then [] else [e.node])
  }

  /** The items between mTail and mHead. */
  function Undelivered(c: Chain): seq<Entry> {
    if c.pos <= |c.order| then Items(c.order[c.pos..]) else []
  }

  lemma {:induction false} ItemsSplit(a: seq<Entry>, b: seq<Entry>)
    ensures Items(a + b) == Items(a) + Items(b)
  {
    if b == [] {
      assert a + b == a;
    } else {
      ItemsSplit(a, b[..|b| - 1]);
      assert (a + b)[..|a + b| - 1] == a + b[..|b| - 1];
    }
  }

  lemma ItemsOfPush(es: seq<Entry>, e: Entry, p: Thread)
    ensures e.node != STUB && e.who == p ==> ItemsOf(es + [e], p) == ItemsOf(es, p) + [e.node]
    ensures e.node == STUB || e.who != p ==> ItemsOf(es + [e], p) == ItemsOf(es, p)
  {
    assert (es + [e])[..|es|] == es;
  }

  lemma {:induction false} ItemsOfSplit(a: seq<Entry>, b: seq<Entry>, p: Thread)
    ensures ItemsOf(a + b, p) == ItemsOf(a, p) + ItemsOf(b, p)
  {
    if b == [] {
      assert a + b == a;
    } else {
      var n := |b| - 1;
      ItemsOfSplit(a, b[..n], p);
      assert a + b == a + b[..n] + [b[n]] && b == b[..n] + [b[n]];
      ItemsOfPush(a + b[..n], b[n], p);
      ItemsOfPush(b[..n], b[n], p);
    }
  }

  /** What producer p has put between the stub's exchanges is what is returned of it and what is still queued. */
  lemma ItemsOfWindow(c: Chain, p: Thread)
    requires c.pos <= |c.order|
    ensures ItemsOf(c.order, p) == ItemsOf(Items(c.order[..c.pos]), p) + ItemsOf(Undelivered(c), p)
  {
    assert c.order == c.order[..c.pos] + c.order[c.pos..];
    ItemsOfSplit(c.order[..c.pos], c.order[c.pos..], p);
    ItemsOfItems(c.order[..c.pos], p);
    ItemsOfItems(c.order[c.pos..], p);
  }

  lemma ItemsOfChain(c: Chain)
    requires c.pos <= |c.order|
    ensures Items(c.order) == Items(c.order[..c.pos]) + Undelivered(c)
  {
    assert c.order == c.order[..c.pos] + c.order[c.pos..];
    ItemsSplit(c.order[..c.pos], c.order[c.pos..]);
  }

  lemma {:induction false} ItemsOfItems(es: seq<Entry>, p: Thread)
    ensures ItemsOf(Items(es), p) == ItemsOf(es, p)
  {
    if es != [] {
      var e := es[|es| - 1];
      ItemsOfItems(es[..|es| - 1], p);
      ItemsOfSplit(Items(es[..|es| - 1]), if e.node == STUB then [] else [e], p);
    }
  }

  /** What the producer has been given and not yet exchanged. */
  function InHand(pc: Producer): seq<Node> {
    if pc.Clear? || pc.Exchange? then [pc.item] else []
  }

  ghost predicate ReturnedInv(c: Chain, returned: seq<Entry>) {
    c.pos <= |c.order| && returned == Items(c.order[..c.pos])
  }

  /** What the producer has sent is in the order, but for what it has in hand. */
  predicate SentOk(order: seq<Entry>, ps: map<Thread, Producer>, sent: map<Thread, seq<Node>>, p: Thread) {
    SentBy(sent, p) == ItemsOf(order, p) + InHand(Pc(ps, p))
  }

  ghost predicate SentInv(order: seq<Entry>, ps: map<Thread, Producer>, sent: map<Thread, seq<Node>>) {
    forall p :: SentOk(order, ps, sent, p)
  }

  ghost predicate HistoryOk(s: State) {
    ReturnedInv(s.chain, s.returned) && SentInv(s.chain.order, s.producers, s.sent)
  }

  lemma ReturnedExchange(c: Chain, returned: seq<Entry>, e: Entry)
    requires ReturnedInv(c, returned)
    ensures ReturnedInv(ExchangeHead(c, e), returned)
  {
    assert (c.order + [e])[..c.pos] == c.order[..c.pos];
  }

  lemma ReturnedAdvance(c: Chain, returned: seq<Entry>)
    requires WindowInv(c) && ReturnedInv(c, returned) && c.tail in c.next
    ensures ReturnedInv(Advance(c), returned + if c.tail == STUB then [] else [Entry(c.tail, SenderAt(c.order, c.pos))])
  {
    assert c.order[..c.pos + 1][..c.pos] == c.order[..c.pos];
  }

  /** The exchange moves the item from the producer's hand into the order. */
  lemma SentExchange(order: seq<Entry>, ps: map<Thread, Producer>, sent: map<Thread, seq<Node>>,
                     p: Thread, item: Node, pc: Producer)
    requires SentInv(order, ps, sent) && Pc(ps, p) == Exchange(item) && item != STUB && pc.Link?
    ensures SentInv(order + [Entry(item, p)], ps[p := pc], sent)
  {
    var order', ps' := order + [Entry(item, p)], ps[p := pc];
    forall q ensures SentOk(order', ps', sent, q) {
      assert SentOk(order, ps, sent, q);
      ItemsOfExchange(order, Entry(item, p), q, Pc(ps, q), Pc(ps', q));
    }
  }

  lemma ItemsOfExchange(order: seq<Entry>, e: Entry, q: Thread, before: Producer, after: Producer)
    requires e.node != STUB && if e.who == q then before == Exchange(e.node) && after.Link? else before == after
    ensures ItemsOf(order + [e], q) + InHand(after) == ItemsOf(order, q) + InHand(before)
  {
    ItemsOfPush(order, e, q);
  }

  lemma SentStub(order: seq<Entry>, ps: map<Thread, Producer>, sent: map<Thread, seq<Node>>)
    requires SentInv(order, ps, sent)
    ensures SentInv(order + [Entry(STUB, 0)], ps, sent)
  {
    var order' := order + [Entry(STUB, 0)];
    forall q ensures SentOk(order', ps, sent, q) {
      assert SentOk(order, ps, sent, q);
      ItemsOfPush(order, Entry(STUB, 0), q);
    }
  }

  lemma SentFrame(order: seq<Entry>, ps: map<Thread, Producer>, sent: map<Thread, seq<Node>>, p: Thread, pc: Producer)
    requires SentInv(order, ps, sent) && InHand(pc) == InHand(Pc(ps, p))
    ensures SentInv(order, ps[p := pc], sent)
  {
    var ps' := ps[p := pc];
    forall q ensures SentOk(order, ps', sent, q) {
      assert SentOk(order, ps, sent, q);
    }
  }

  lemma HistoryEnqueue(s: State, p: Thread, item: Node)
    requires HistoryOk(s)
    ensures HistoryOk(EnqueueStep(s, p, item))
  {
    var s' := EnqueueStep(s, p, item);
    forall q ensures SentOk(s'.chain.order, s'.producers, s'.sent, q) {
      assert SentOk(s.chain.order, s.producers, s.sent, q);
    }
  }

  lemma HistoryProduce(s: State, p: Thread)
    requires ChainOk(s) && HistoryOk(s)
    ensures HistoryOk(ProduceStep(s, p))
  {
    var c, ps := s.chain, s.producers;
    assert ProducerInv(c, Pc(ps, p), p);
    match Pc(ps, p)
    case Idle =>
    case Clear(item) => SentFrame(c.order, ps, s.sent, p, Exchange(item));
    case Exchange(item) =>
      ReturnedExchange(c, s.returned, Entry(item, p));
      SentExchange(c.order, ps, s.sent, p, item, Link(item, c.head, |c.order|));
    case Link(_, _, _) => SentFrame(c.order, ps, s.sent, p, if s.blocking then Test else Idle);
    case Test => SentFrame(c.order, ps, s.sent, p, if s.waiting then Wake else Idle);
    case Wake => SentFrame(c.order, ps, s.sent, p, Idle);
  }

  lemma HistoryFound(s: State)
    requires ChainOk(s) && HistoryOk(s) && Reads(s.consumer) && s.chain.tail in s.chain.next
    ensures HistoryOk(Found(s))
  {
    ReturnedAdvance(s.chain, s.returned);
  }

  lemma HistoryExchangeStub(s: State)
    requires HistoryOk(s) && s.consumer.ExchangeStub?
    ensures HistoryOk(StubStep(s))
  {
    ReturnedExchange(s.chain, s.returned, Entry(STUB, 0));
    SentStub(s.chain.order, s.producers, s.sent);
  }

  /** A step that touches neither the order nor what is sent or returned. */
  lemma HistorySame(s: State, s': State)
    requires HistoryOk(s) && s'.returned == s.returned && s'.sent == s.sent && s'.producers == s.producers
    requires s'.chain.order == s.chain.order && s'.chain.pos == s.chain.pos
    ensures HistoryOk(s')
  {
  }

  lemma StubSame(s: State)
    requires s.consumer.ClearStub? || s.consumer.LinkStub?
    ensures var s' := StubStep(s);
            && s'.returned == s.returned && s'.sent == s.sent && s'.producers == s.producers
            && s'.chain.order == s.chain.order && s'.chain.pos == s.chain.pos
  {
  }

  lemma FlagSame(s: State)
    ensures var s' := FlagStep(s);
            s'.returned == s.returned && s'.sent == s.sent && s'.producers == s.producers && s'.chain == s.chain
  {
    match s.consumer
    case ReadHead =>
    case SetFlag =>
    case ClearFlag =>
    case Wait =>
    case _ =>
  }

  lemma HistoryConsume(s: State)
    requires ChainOk(s) && HistoryOk(s)
    ensures HistoryOk(ConsumeStep(s))
  {
    if Reads(s.consumer) {
      if s.chain.tail in s.chain.next {
        HistoryFound(s);
      } else {
        HistorySame(s, Missing(s));
      }
    } else if s.consumer.ExchangeStub? {
      HistoryExchangeStub(s);
    } else if PutsStub(s.consumer) {
      StubSame(s);
      HistorySame(s, StubStep(s));
    } else {
      FlagSame(s);
      HistorySame(s, FlagStep(s));
    }
  }

  lemma HistoryStep(s: State, a: Action)
    requires ChainOk(s) && HistoryOk(s)
    ensures HistoryOk(Step(s, a))
  {
    match a
    case Enqueue(p, item) => HistoryEnqueue(s, p, item);
    case Produce(p) => HistoryProduce(s, p);
    case Consume => HistoryConsume(s);
    case _ =>
  }

  // ---------------------------------------------------------------------------------------------
  // Waking the consumer
  // ---------------------------------------------------------------------------------------------

  /** The waiting flag is up and every exchanged item is linked and has had its compare-and-swap. */
  ghost predicate Calm(s: State) {
    s.waiting && forall p :: !Pc(s.producers, p).Link? && !Pc(s.producers, p).Test?
  }

  /** What the second call of sbfQueueNext knows about the order while the queue is calm. */
  ghost predicate CalmView(c: Chain, k: Consumer) {
    match k
    case ReadHead => |c.order| == c.pos + 1
    case ClearStub => |c.order| == c.pos + 1
    case ExchangeStub => |c.order| == c.pos + 1
    case LinkStub(_, _) => |c.order| == c.pos + 2
    case ReadAfterStub => |c.order| == c.pos + 2
    case Wait => |c.order| == c.pos + 1 && c.tail == STUB
    case Asleep => |c.order| == c.pos + 1 && c.tail == STUB
    case _ => true
  }

  ghost predicate WakeOk(s: State) {
    && (s.consumer.Wait? || s.consumer.Asleep? ==> s.second)
    && (s.consumer.SetFlag? || s.consumer.Asleep? ==> s.blocking)
    && (!s.blocking ==> !s.waiting)
    && (Calm(s) && s.second ==> CalmView(s.chain, s.consumer))
    && (s.consumer.Asleep? && !s.waiting ==> Pc(s.producers, s.waker).Wake?)
  }

  lemma OnlyStub(c: Chain)
    requires WindowInv(c) && |c.order| == c.pos + 1 && c.tail == STUB
    ensures Undelivered(c) == []
  {
    var es := c.order[c.pos..];
    assert es == [c.order[c.pos]] && es[..0] == [];
    assert Items(es) == Items(es[..0]) + [];
  }

  /** In a calm queue a missing link out of mTail means that mTail is mHead. */
  lemma CalmTail(s: State)
    requires ChainOk(s) && Calm(s) && !s.consumer.LinkStub? && s.chain.tail !in s.chain.next
    ensures |s.chain.order| == s.chain.pos + 1
  {
    if s.chain.pos + 1 < |s.chain.order| {
      SecondIsJoined(s.chain, s.producers, s.consumer);
      assert false;
    }
  }

  lemma SecondIsJoined(c: Chain, ps: map<Thread, Producer>, k: Consumer)
    requires JoinedInv(c, ps, k) && c.pos + 1 < |c.order|
    ensures Joined(c, ps, k, c.pos + 1)
  {
  }

  lemma CalmBefore(s: State, s': State)
    requires Calm(s') && s.waiting
    requires forall p :: Pc(s.producers, p).Link? || Pc(s.producers, p).Test? ==>
               Pc(s'.producers, p).Link? || Pc(s'.producers, p).Test?
    ensures Calm(s)
  {
    forall p ensures !Pc(s.producers, p).Link? && !Pc(s.producers, p).Test? {
      assert !Pc(s'.producers, p).Link? && !Pc(s'.producers, p).Test?;
    }
  }

  lemma WakeInsert(s: State, p: Thread)
    requires ChainOk(s) && WakeOk(s) && Inserting(Pc(s.producers, p))
    ensures WakeOk(ProduceStep(s, p))
  {
    var s' := ProduceStep(s, p);
    if Calm(s') {
      assert Pc(s'.producers, p).Link? || Pc(s'.producers, p).Test? ==> false;
      CalmBefore(s, s');
    }
  }

  lemma WakeProduce(s: State, p: Thread)
    requires ChainOk(s) && WakeOk(s)
    ensures WakeOk(ProduceStep(s, p))
  {
    if Inserting(Pc(s.producers, p)) {
      WakeInsert(s, p);
    } else if Calm(ProduceStep(s, p)) {
      CalmBefore(s, ProduceStep(s, p));
    }
  }

  lemma WakeMissing(s: State)
    requires ChainOk(s) && WakeOk(s) && Reads(s.consumer) && s.chain.tail !in s.chain.next
    ensures WakeOk(Missing(s))
  {
    var s' := Missing(s);
    if Calm(s') {
      CalmBefore(s, s');
      CalmTail(s);
      assert s.second ==> CalmView(s.chain, s.consumer);
    }
  }

  lemma WakeFound(s: State)
    requires ChainOk(s) && WakeOk(s) && Reads(s.consumer) && s.chain.tail in s.chain.next
    ensures WakeOk(Found(s))
  {
  }

  lemma WakeStub(s: State)
    requires ChainOk(s) && WakeOk(s) && PutsStub(s.consumer)
    ensures WakeOk(StubStep(s))
  {
    match s.consumer
    case ClearStub => WakeStubStep(s);
    case ExchangeStub => WakeStubStep(s);
    case LinkStub(_, _) => WakeStubStep(s);
  }

  lemma WakeStubStep(s: State)
    requires WakeOk(s) && PutsStub(s.consumer)
    ensures Calm(StubStep(s)) ==> Calm(s)
    ensures Calm(s) && s.second ==> CalmView(s.chain, s.consumer)
  {
    if Calm(StubStep(s)) {
      CalmBefore(s, StubStep(s));
    }
  }

  lemma WakeFlag(s: State)
    requires ChainOk(s) && WakeOk(s)
    ensures WakeOk(FlagStep(s))
  {
    FlagSame(s);
    if s.waiting && Calm(FlagStep(s)) {
      CalmBefore(s, FlagStep(s));
    }
  }

  lemma WakeConsume(s: State)
    requires ChainOk(s) && WakeOk(s)
    ensures WakeOk(ConsumeStep(s))
  {
    if Reads(s.consumer) {
      if s.chain.tail in s.chain.next {
        WakeFound(s);
      } else {
        WakeMissing(s);
      }
    } else if PutsStub(s.consumer) {
      WakeStub(s);
    } else {
      WakeFlag(s);
    }
  }

  lemma WakeStep(s: State, a: Action)
    requires ChainOk(s) && WakeOk(s)
    ensures WakeOk(Step(s, a))
  {
    match a
    case Enqueue(p, item) =>
      if Step(s, a) != s && Calm(Step(s, a)) {
        forall q ensures !Pc(s.producers, q).Link? && !Pc(s.producers, q).Test? {
          assert !Pc(Step(s, a).producers, q).Link? && !Pc(Step(s, a).producers, q).Test?;
        }
      }
    case Produce(p) => WakeProduce(s, p);
    case Consume => WakeConsume(s);
    case _ => assert Calm(Step(s, a)) ==> Calm(s);
  }

  // ---------------------------------------------------------------------------------------------
  // Returning NULL
  // ---------------------------------------------------------------------------------------------

  /** The consumer is inside sbfQueueNext. */
  predicate InNext(k: Consumer) {
    Reads(k) || k.ReadHead? || k.ClearStub? || k.ExchangeStub? || k.LinkStub?
  }

  ghost predicate OverlapOk(s: State) {
    && (InNext(s.consumer) && Busy(s.producers) ==> s.overlapped)
    && (s.consumer.ReadHead? ==> |s.chain.order| == s.chain.pos + 1 || s.overlapped)
    && (s.consumer.ReadAfterStub? ==> |s.chain.order| > s.chain.pos + 1)
  }

  /** A missing link out of mTail, which is not mHead, belongs to a producer inside its enqueue. */
  lemma MissingLink(s: State)
    requires ChainOk(s) && !s.consumer.LinkStub? && s.chain.tail !in s.chain.next
    requires |s.chain.order| > s.chain.pos + 1
    ensures Busy(s.producers)
  {
    var c := s.chain;
    assert Joined(c, s.producers, s.consumer, c.pos + 1);
    assert Inserting(s.producers[c.order[c.pos + 1].who]);
  }

  lemma BusyFrame(ps: map<Thread, Producer>, p: Thread, pc: Producer)
    requires Busy(ps[p := pc]) && (Inserting(pc) ==> Inserting(Pc(ps, p)))
    ensures Busy(ps)
  {
    var q :| q in ps[p := pc] && Inserting(ps[p := pc][q]);
    assert Inserting(Pc(ps, q));
    assert q in ps && Inserting(ps[q]);
  }

  lemma OverlapInsert(s: State, p: Thread)
    requires ChainOk(s) && OverlapOk(s) && Inserting(Pc(s.producers, p))
    ensures OverlapOk(ProduceStep(s, p))
  {
    assert p in s.producers && Inserting(s.producers[p]);
  }

  lemma OverlapProduce(s: State, p: Thread)
    requires ChainOk(s) && OverlapOk(s)
    ensures OverlapOk(ProduceStep(s, p))
  {
    if Inserting(Pc(s.producers, p)) {
      OverlapInsert(s, p);
    } else if !Pc(s.producers, p).Idle? && Busy(ProduceStep(s, p).producers) {
      BusyFrame(s.producers, p, Pc(ProduceStep(s, p).producers, p));
    }
  }

  lemma OverlapMissing(s: State)
    requires ChainOk(s) && OverlapOk(s) && Reads(s.consumer) && s.chain.tail !in s.chain.next
    ensures OverlapOk(Missing(s))
  {
    if |s.chain.order| > s.chain.pos + 1 {
      MissingLink(s);
    }
  }

  lemma OverlapFound(s: State)
    requires ChainOk(s) && OverlapOk(s) && Reads(s.consumer) && s.chain.tail in s.chain.next
    ensures OverlapOk(Found(s))
  {
  }

  lemma OverlapConsume(s: State)
    requires ChainOk(s) && OverlapOk(s)
    ensures OverlapOk(ConsumeStep(s))
  {
    if Reads(s.consumer) {
      if s.chain.tail in s.chain.next {
        OverlapFound(s);
      } else {
        OverlapMissing(s);
      }
    } else if PutsStub(s.consumer) {
      OverlapStub(s);
    } else {
      OverlapFlag(s);
    }
  }

  lemma OverlapStub(s: State)
    requires ChainOk(s) && OverlapOk(s) && PutsStub(s.consumer)
    ensures OverlapOk(StubStep(s))
  {
  }

  lemma OverlapFlag(s: State)
    requires OverlapOk(s) && !Reads(s.consumer) && !PutsStub(s.consumer)
    ensures OverlapOk(FlagStep(s))
  {
  }

  lemma OverlapStep(s: State, a: Action)
    requires ChainOk(s) && OverlapOk(s)
    ensures OverlapOk(Step(s, a))
  {
    match a
    case Produce(p) => OverlapProduce(s, p);
    case Consume => OverlapConsume(s);
    case _ =>
  }

  // ---------------------------------------------------------------------------------------------
  // Every run
  // ---------------------------------------------------------------------------------------------

  ghost predicate Inv(s: State) {
    ChainOk(s) && HistoryOk(s) && WakeOk(s) && OverlapOk(s)
  }

  /** The state after a whole run of the scheduler, starting from sbfQueueCreate. */
  function Run(blocking: bool, script: seq<Action>): State {
    if script == [] then Initial(blocking)
    else Step(Run(blocking, script[..|script| - 1]), script[|script| - 1])
  }

  lemma InitialInv(blocking: bool)
    ensures Inv(Initial(blocking))
  {
    InitialSent();
    assert Initial(blocking).chain.order[..0] == [];
  }

  lemma InitialSent()
    ensures SentInv([Entry(STUB, 0)], map[], map[])
  {
    assert [] + [Entry(STUB, 0)] == [Entry(STUB, 0)];
    forall p ensures SentOk([Entry(STUB, 0)], map[], map[], p) {
      ItemsOfPush([], Entry(STUB, 0), p);
    }
  }

  lemma {:induction false} RunInv(blocking: bool, script: seq<Action>)
    ensures Inv(Run(blocking, script))
  {
    if script == [] {
      InitialInv(blocking);
    } else {
      var s, a := Run(blocking, script[..|script| - 1]), script[|script| - 1];
      RunInv(blocking, script[..|script| - 1]);
      ChainStep(s, a);
      HistoryStep(s, a);
      WakeStep(s, a);
      OverlapStep(s, a);
    }
  }

  lemma RunHistory(blocking: bool, script: seq<Action>)
    ensures HistoryOk(Run(blocking, script))
  {
    RunInv(blocking, script);
  }

  lemma RunWindow(blocking: bool, script: seq<Action>)
    ensures var s := Run(blocking, script); WindowInv(s.chain) && ConsumerInv(s.chain, s.consumer)
  {
    RunInv(blocking, script);
  }
}
