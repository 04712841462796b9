/**
  The receiving end run in place: the assembler that grows a buffer per topic (src/transport/sbfTportFragments.c),
  and the packet loop (src/transport/sbfHandler.c).
 */
module Handler {
  import opened Wire
  import opened Reassembly
  import opened Wrappers

  /** struct sbfTportTopicImpl, with the number of its subscribers in place of the list. */
  class TportTopic {
    var subscribers: nat
    var number: nat        // mFragNum
    var size: nat          // mFragSize
    var data: array?<byte> // mFragData
    var capacity: nat      // mFragAllocated

    constructor (subscribers: nat)
      ensures Valid() && State() == Idle && data == null && this.subscribers == subscribers
    {
      this.subscribers := subscribers;
      number, size, data, capacity := 0, 0, null, 0;
    }

    /** The used size is within the allocation. */
    ghost predicate Valid()
      reads this
    {
      if data == null then number == 0
      else 1 <= number <= 255 && data.Length == capacity && size <= capacity && capacity > 0
    }

    ghost function State(): Progress
      requires Valid()
      reads this, data
    {
      if data == null then Idle else Partial(number, data[..size])
    }

    /** xrealloc until n more bytes fit */
    method Grow(n: nat)
      requires Valid() && data != null
      modifies this`data, this`capacity
      ensures Valid() && data != null && size + n <= capacity && data[..size] == old(data[..size])
      ensures data == old(data) || fresh(data)
    {
      while capacity < size + n
        invariant Valid() && data != null && data[..size] == old(data[..size])
        invariant data == old(data) || fresh(data)
        decreases size + n - capacity
      {
        var larger := new byte[2 * capacity];
        forall i | 0 <= i < size {
          larger[i] := data[i];
        }
        data := larger;
        capacity := capacity * 2;
      }
    }

    method Reset()
      modifies this`data, this`number
      ensures Valid() && State() == Idle && data == null
    {
      data := null;
      number := 0;
    }

    method Append(payload: seq<byte>)
      requires Valid() && data != null
      modifies this`data, this`capacity, this`size, data
      ensures Valid() && data != null && (data == old(data) || fresh(data))
      ensures data[..size] == old(data[..size]) + payload
    {
      Grow(|payload|);
      CopyIn(data, size, payload);
      size := size + |payload|;
    }

    /** sbfTport_assemble */
    method Add(p: Piece) returns (done: Option<seq<byte>>)
      requires Valid()
      modifies this`number, this`size, this`data, this`capacity, data
      ensures Valid() && (data == null || data == old(data) || fresh(data))
      ensures (State(), done) == Assemble(old(State()), p)
    {
      if p.number != number + 1 {
        Reset();
        return None;
      }
      if data == null {
        if p.number != 1 {
          assert false; // the numbers were compared above and this one is 0 + 1
        }
        capacity := 8192;
        data := new byte[capacity];
        number, size := 1, 0;
      } else {
        number := p.number;
      }
      Append(p.payload);
      if !p.last {
        return None;
      }
      done := Some(data[..size]);
      Reset();
    }
  }

  ghost predicate Owned(owner: map<object, seq<byte>>, t: seq<byte>, topic: TportTopic)
    reads topic
  {
    && topic in owner && owner[topic] == t
    && (topic.data != null ==> topic.data in owner && owner[topic.data] == t)
  }

  ghost predicate Known(heard: Topics, t: seq<byte>, topic: TportTopic)
    reads topic, topic.data
  {
    && topic.Valid()
    && (t in heard <==> topic.subscribers > 0)
    && (t in heard ==> heard[t] == topic.State())
  }

  /** The topics of a stream, by name, and the messages dispatched so far. */
  class Stream {
    var topics: map<seq<byte>, TportTopic>
    var log: seq<Message>
    ghost var heard: Topics // the assemblers of the topics with subscribers
    ghost var owner: map<object, seq<byte>> // whose the topic objects and their buffers are

    ghost predicate Valid()
      reads this, owner.Keys
    {
      && this !in owner
      && (forall t :: t in topics ==> topics[t] in owner)
      && (forall t :: t in topics ==> Owned(owner, t, topics[t]))
      && (forall t :: t in topics ==> Known(heard, t, topics[t]))
      && heard.Keys <= topics.Keys
    }

    constructor ()
      ensures Valid() && heard == map[] && log == [] && topics == map[] && owner == map[]
    {
      topics, log, heard, owner := map[], [], map[], map[];
    }

    /** sbfTport_addTopic, for a topic with the subscribers given */
    method AddTopic(name: seq<byte>, subscribers: nat)
      requires Valid() && name !in topics
      modifies this`topics, this`heard, this`owner
      ensures Valid() && fresh(owner.Keys - old(owner.Keys))
      ensures forall t :: t in topics <==> t in old(topics) || t == name
      ensures heard == if subscribers > 0 then old(heard)[name := Idle] else old(heard)
    {
      var topic := new TportTopic(subscribers);
      topics := topics[name := topic];
      owner, heard := owner[topic := name], if subscribers > 0 then heard[name := Idle] else heard;
    }

    /** sbfHandlerFindTopic */
    method FindTopic(name: seq<byte>) returns (topic: TportTopic?)
      requires Valid()
      ensures (topic != null) == (name in heard)
      ensures topic != null ==> name in topics && topic == topics[name]
    {
      if name !in topics {
        return null;
      }
      assert Known(heard, name, topics[name]);
      topic := topics[name];
      if topic.subscribers == 0 {
        return null;
      }
    }

    /** sbfHandlerDispatchMessage, as far as the handler goes */
    method Dispatch(name: seq<byte>, data: seq<byte>)
      requires Valid()
      modifies this`log
      ensures Valid() && log == old(log) + [Message(name, data)]
    {
      log := log + [Message(name, data)];
    }

    ghost predicate OthersOk(name: seq<byte>)
      reads this, owner.Keys
    {
      && this !in owner && heard.Keys <= topics.Keys
      && (forall t :: t in topics ==> topics[t] in owner && owner[topics[t]] == t)
      && (forall t :: t in topics && t != name ==> Owned(owner, t, topics[t]))
      && (forall t :: t in topics && t != name ==> Known(heard, t, topics[t]))
    }

    /** A buffer that the topic has just been given belongs to it. */
    ghost method NoteBuffer(name: seq<byte>, topic: TportTopic, data: array<byte>)
      requires OthersOk(name) && name in topics && topic == topics[name] && topic.data == data
      requires data !in owner || owner[data] == name
      modifies this`owner
      ensures owner == old(owner)[data := name]
      ensures OthersOk(name) && Owned(owner, name, topic)
    {
      owner := owner[data := name];
    }

    /** What has become of the topic is recorded. */
    ghost method NoteProgress(name: seq<byte>, topic: TportTopic)
      requires name in heard && OthersOk(name) && topic == topics[name] && Owned(owner, name, topic)
      requires topic.Valid() && topic.subscribers > 0
      modifies this`heard
      ensures Valid() && heard == old(heard)[name := topic.State()]
    {
      heard := heard[name := topic.State()];
    }

    method AddTo(p: Piece, topic: TportTopic) returns (done: Option<seq<byte>>)
      requires Valid() && p.topic in heard && topic == topics[p.topic]
      modifies owner.Keys
      ensures OthersOk(p.topic)
      ensures topic.Valid() && topic.subscribers > 0
      ensures topic.data == null || fresh(topic.data) || (topic.data in owner && owner[topic.data] == p.topic)
      ensures (topic.State(), done) == Reassembly.Assemble(old(heard)[p.topic], p)
    {
      assert Owned(owner, p.topic, topic) && Known(heard, p.topic, topic);
      assert forall t :: t in topics ==> Owned(owner, t, topics[t]) && Known(heard, t, topics[t]);
      done := topic.Add(p);
    }

    method Assemble(p: Piece, topic: TportTopic) returns (done: Option<seq<byte>>)
      requires Valid() && p.topic in heard && topic == topics[p.topic]
      modifies owner.Keys, this`heard, this`owner
      ensures Valid() && fresh(owner.Keys - old(owner.Keys))
      ensures done == Reassembly.Assemble(old(heard)[p.topic], p).1
      ensures heard == old(heard)[p.topic := Reassembly.Assemble(old(heard)[p.topic], p).0]
    {
      done := AddTo(p, topic);
      if topic.data != null {
        NoteBuffer(p.topic, topic, topic.data);
      }
      NoteProgress(p.topic, topic);
    }

    /** What the fast path does with the only message of a packet. */
    method HandleSingle(p: Piece)
      requires Valid()
      modifies owner.Keys, this`heard, this`owner, this`log
      ensures Valid() && fresh(owner.Keys - old(owner.Keys))
      ensures Outcome(heard, log) == After(old(heard), old(log), [p])
    {
      RunOne(heard, p);
      var topic := FindTopic(p.topic);
      if topic == null {
        return;
      }
      var data := p.payload;
      if p.number != 0 {
        var done := Assemble(p, topic);
        if done.None? {
          return;
        }
        data := done.value;
      }
      Dispatch(p.topic, data);
    }

    /** What the general loop does with each message. */
    method HandleNext(p: Piece)
      requires Valid()
      modifies owner.Keys, this`heard, this`owner, this`log
      ensures Valid() && fresh(owner.Keys - old(owner.Keys))
      ensures Outcome(heard, log) == After(old(heard), old(log), [p])
    {
      RunOne(heard, p);
      var topic := FindTopic(p.topic);
      if topic == null {
        return;
      }
      var buffer := Some(p.payload);
      if p.number != 0 {
        buffer := Assemble(p, topic);
      }
      DispatchAny(p.topic, buffer);
    }

    method DispatchAny(name: seq<byte>, buffer: Option<seq<byte>>)
      requires Valid()
      modifies this`log
      ensures Valid() && log == old(log) + if buffer.Some? then [Message(name, buffer.value)] else []
    {
      if buffer.Some? {
        Dispatch(name, buffer.value);
      }
    }

    /** One turn of the general loop, after those that came to the pieces ps. */
    method Turn(p: Piece, ghost heard0: Topics, ghost log0: seq<Message>, ghost ps: seq<Piece>)
      requires Valid() && Outcome(heard, log) == After(heard0, log0, ps)
      modifies owner.Keys, this`heard, this`owner, this`log
      ensures Valid() && fresh(owner.Keys - old(owner.Keys))
      ensures Outcome(heard, log) == After(heard0, log0, ps + [p])
    {
      AfterMore(heard0, log0, ps, [p]);
      HandleNext(p);
    }

    /** The for (;;) of sbfHandler_packet */
    method GeneralLoop(packet: seq<byte>, behind: seq<byte>)
      requires Valid()
      modifies owner.Keys, this`heard, this`owner, this`log
      ensures Valid() && fresh(owner.Keys - old(owner.Keys))
      ensures Outcome(heard, log) == After(old(heard), old(log), Parse(packet, behind))
    {
      var hdr, more := packet, true; // the bytes from hdr on, `size` of them
      ghost var ps: seq<Piece> := [];
      while more
        invariant Valid() && fresh(owner.Keys - old(owner.Keys))
        invariant Parse(packet, behind) == ps + Ahead(hdr, behind, more)
        invariant Outcome(heard, log) == After(old(heard), old(log), ps)
        decreases |hdr|, more
      {
        if !CheckHeader(hdr) {
          break;
        }
        var p := PieceAt(hdr, behind);
        Turn(p, old(heard), old(log), ps);
        ghost var hdr0, ps0 := hdr, ps;
        ps := ps + [p];
        if InPacketEnd(hdr[FLAGS]) {
          more := false;
        } else {
          hdr := hdr[Used(hdr)..];
        }
        ParseTurn(packet, behind, hdr0, ps0, hdr, ps, more);
      }
      assert ps + [] == ps;
    }

    /** sbfHandler_packet: a packet whose first header is marked as its last takes the fast path. */
    method Packet(packet: seq<byte>, behind: seq<byte>)
      requires Valid()
      modifies owner.Keys, this`heard, this`owner, this`log
      ensures Valid() && fresh(owner.Keys - old(owner.Keys))
      ensures Outcome(heard, log) == After(old(heard), old(log), Parse(packet, behind))
    {
      var memory := packet + behind;
      var flags := if FLAGS < |memory| then memory[FLAGS] else 0;
      if InPacketEnd(flags) {
        if !CheckHeader(packet) {
          return;
        }
        HandleSingle(PieceAt(packet, behind));
      } else {
        GeneralLoop(packet, behind);
      }
    }

    /** Packets that arrive one after the other. */
    method Arrive(packets: seq<seq<byte>>, behind: seq<byte>)
      requires Valid()
      modifies owner.Keys, this`heard, this`owner, this`log
      ensures Valid() && fresh(owner.Keys - old(owner.Keys))
      ensures Outcome(heard, log) == After(old(heard), old(log), Received(packets, behind))
    {
      for i := 0 to |packets|
        invariant Valid() && fresh(owner.Keys - old(owner.Keys))
        invariant Outcome(heard, log) == After(old(heard), old(log), Received(packets[..i], behind))
      {
        assert packets[..i + 1][..i] == packets[..i];
        AfterMore(old(heard), old(log), Received(packets[..i], behind), Parse(packets[i], behind));
        Packet(packets[i], behind);
      }
      assert packets[..|packets|] == packets;
    }
  }

  /** The assemblers and the log after the pieces. */
  function After(heard: Topics, log: seq<Message>, ps: seq<Piece>): Outcome {
    var r := Run(heard, ps);
    Outcome(r.topics, log + r.messages)
  }

  /** The pieces that the loop has yet to come to. */
  function Ahead(hdr: seq<byte>, behind: seq<byte>, more: bool): seq<Piece> {
    if more then Parse(hdr, behind) else []
  }

  lemma ParseTurn(packet: seq<byte>, behind: seq<byte>, hdr: seq<byte>, ps: seq<Piece>, hdr': seq<byte>,
          ps': seq<Piece>, more: bool)
    requires CheckHeader(hdr) && Parse(packet, behind) == ps + Parse(hdr, behind) && ps' == ps + [PieceAt(hdr, behind)]
    requires more == !InPacketEnd(hdr[FLAGS]) && (more ==> hdr' == hdr[Used(hdr)..])
    ensures Parse(packet, behind) == ps' + Ahead(hdr', behind, more)
  {
    PiecesAssociative(ps, [PieceAt(hdr, behind)], Ahead(hdr', behind, more));
  }

  lemma PiecesAssociative(a: seq<Piece>, b: seq<Piece>, c: seq<Piece>)
    ensures (a + b) + c == a + (b + c)
  {
  }

  lemma AfterMore(heard: Topics, log: seq<Message>, ps: seq<Piece>, qs: seq<Piece>)
    ensures var before := After(heard, log, ps); After(heard, log, ps + qs) == After(before.topics, before.messages, qs)
  {
    RunConcat(heard, ps, qs);
  }
}
