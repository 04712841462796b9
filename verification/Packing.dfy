/**
  How messages become packets, as functions: the batches of src/transport/sbfBatch.c and the fragments of
  src/transport/sbfTportFragments.c. Batch.dfy and Publisher.dfy fill the buffers in place.
 */
module Packing {
  import opened Wire
  import opened Reassembly

  /** SBF_MESSAGE_SIZE_LIMIT */
  const MESSAGE_SIZE_LIMIT := 65536

  /**
    What a batch holds for a stream: the packets that are closed and the one being filled, if any, with the
    number of its bytes.
   */
  datatype Packing = Packing(closed: seq<seq<Piece>>, open: seq<Piece>, started: bool, used: nat)

  const EMPTY := Packing([], [], false, 0)

  /** The packets, once the one being filled is closed too. */
  function Packets(b: Packing): seq<seq<Piece>> {
    if b.open == [] then b.closed else b.closed + [b.open]
  }

  function Emitted(b: Packing): seq<Piece> {
    Flatten(b.closed) + b.open
  }

  function Left(b: Packing, packetSize: nat): int {
    if b.started then packetSize - b.used else 0
  }

  /** sbfBatchNextBuffer */
  function WithRoom(b: Packing, packetSize: nat, headerSize: nat): Packing {
    if Left(b, packetSize) <= headerSize then Packing(Packets(b), [], true, 0) else b
  }

  /** sbfBatchUpdateBuffer */
  function Put(b: Packing, p: Piece): Packing {
    b.(open := b.open + [p], used := b.used + HeaderSize(p.topic) + |p.payload|)
  }

  /** A buffer that takes a fragment of the topic. */
  predicate Ready(b: Packing, packetSize: nat, headerSize: nat) {
    b.started && headerSize < Left(b, packetSize) <= packetSize
  }

  lemma WithRoomReady(b: Packing, packetSize: nat, headerSize: nat)
    requires headerSize < packetSize
    ensures Ready(WithRoom(b, packetSize, headerSize), packetSize, headerSize)
  {
  }

  /** The while loop of sbfBatch_add, for a publisher's header size */
  function AddFragments(b: Packing, packetSize: nat, h: nat, topic: seq<byte>, data: seq<byte>, number: nat): Packing
    requires Ready(b, packetSize, h)
    decreases |data|
  {
    var room := Left(b, packetSize) - h;
    if |data| <= room then Put(b, Piece(topic, number % 256, number % 256 != 0, data))
    else
      var put := Put(b, Piece(topic, number % 256, false, data[..room]));
      AddFragments(WithRoom(put, packetSize, h), packetSize, h, topic, data[room..], number + 1)
  }

  /** sbfBatch_add, for a message that it does not drop */
  function Add(b: Packing, packetSize: nat, topic: seq<byte>, data: seq<byte>): Packing
    requires packetSize > HeaderSize(topic)
  {
    var h := HeaderSize(topic);
    var next := WithRoom(b, packetSize, h);
    if Left(next, packetSize) > h + |data| then Put(next, Piece(topic, 0, false, data))
    else AddFragments(next, packetSize, h, topic, data, 1)
  }

  // ---------------------------------------------------------------------------------------------
  // The fragments of a message
  // ---------------------------------------------------------------------------------------------

  /**
    The fragments of the data, of which the first takes up to `room` bytes and the others up to `full`. Where
    the number of the last has wrapped to 0, `wrappedLast` says whether it is still marked as the last.
   */
  function Train(topic: seq<byte>, data: seq<byte>, room: nat, full: nat, number: nat, wrappedLast: bool): seq<Piece>
    requires room > 0 && full > 0
    decreases |data|
  {
    if |data| <= room then [Piece(topic, number % 256, wrappedLast || number % 256 != 0, data)]
    else
      [Piece(topic, number % 256, false, data[..room])] + Train(topic, data[room..], full, full, number + 1, wrappedLast)
  }

  lemma {:induction false} PayloadConcat(ps: seq<Piece>, qs: seq<Piece>)
    ensures Payload(ps + qs) == Payload(ps) + Payload(qs)
  {
    if qs == [] {
      assert ps + qs == ps;
    } else {
      var n := |qs| - 1;
      PayloadConcat(ps, qs[..n]);
      assert (ps + qs)[..|ps| + n] == ps + qs[..n];
      Associative(Payload(ps), Payload(qs[..n]), qs[n].payload);
    }
  }

  lemma PayloadOne(p: Piece)
    ensures Payload([p]) == p.payload
  {
    assert [p][..0] == [];
  }

  /** The piece at place i of a train that starts with the number given. */
  predicate TrainPiece(p: Piece, topic: seq<byte>, number: nat, isLast: bool) {
    && p.topic == topic && p.payload != [] && p.number == number % 256
    && (if isLast then number % 256 != 0 ==> p.last else !p.last)
  }

  predicate TrainFrom(ps: seq<Piece>, topic: seq<byte>, number: nat) {
    forall i :: 0 <= i < |ps| ==> TrainPiece(ps[i], topic, number + i, i == |ps| - 1)
  }

  lemma TrainFromFront(p: Piece, rest: seq<Piece>, topic: seq<byte>, number: nat)
    requires TrainPiece(p, topic, number, false) && rest != [] && TrainFrom(rest, topic, number + 1)
    ensures TrainFrom([p] + rest, topic, number)
  {
    var ps := [p] + rest;
    forall i | 0 <= i < |ps| ensures TrainPiece(ps[i], topic, number + i, i == |ps| - 1) {
      if i > 0 {
        var j := i - 1;
        assert TrainPiece(rest[j], topic, number + 1 + j, j == |rest| - 1);
      }
    }
  }

  lemma {:induction false} TrainPieces(topic: seq<byte>, data: seq<byte>, room: nat, full: nat, number: nat,
          wrappedLast: bool)
    requires room > 0 && full > 0 && data != []
    ensures var ps := Train(topic, data, room, full, number, wrappedLast); ps != [] && TrainFrom(ps, topic, number)
    decreases |data|
  {
    if |data| > room {
      var p := Piece(topic, number % 256, false, data[..room]);
      TrainPieces(topic, data[room..], full, full, number + 1, wrappedLast);
      TrainFromFront(p, Train(topic, data[room..], full, full, number + 1, wrappedLast), topic, number);
    }
  }

  lemma {:induction false} TrainSizes(topic: seq<byte>, data: seq<byte>, room: nat, full: nat, number: nat,
          wrappedLast: bool)
    requires 0 < room <= full
    ensures forall p :: p in Train(topic, data, room, full, number, wrappedLast) ==> p.topic == topic && |p.payload| <= full
    decreases |data|
  {
    if |data| > room {
      TrainSizes(topic, data[room..], full, full, number + 1, wrappedLast);
    }
  }

  lemma {:induction false} TrainPayload(topic: seq<byte>, data: seq<byte>, room: nat, full: nat, number: nat,
          wrappedLast: bool)
    requires room > 0 && full > 0
    ensures Payload(Train(topic, data, room, full, number, wrappedLast)) == data
    decreases |data|
  {
    if |data| <= room {
      PayloadOne(Train(topic, data, room, full, number, wrappedLast)[0]);
    } else {
      var p, rest := Piece(topic, number % 256, false, data[..room]),
        Train(topic, data[room..], full, full, number + 1, wrappedLast);
      TrainPayload(topic, data[room..], full, full, number + 1, wrappedLast);
      PayloadOne(p);
      PayloadConcat([p], rest);
      assert data[..room] + data[room..] == data;
    }
  }

  /** The last of n fragments is needed and they suffice. */
  predicate Needs(size: nat, room: nat, full: nat, n: nat) {
    size <= room + (n - 1) * full && (n >= 2 ==> size > room + (n - 2) * full)
  }

  lemma {:induction false} TrainLength(topic: seq<byte>, data: seq<byte>, room: nat, full: nat, number: nat,
          wrappedLast: bool)
    requires room > 0 && full > 0 && data != []
    ensures Needs(|data|, room, full, |Train(topic, data, room, full, number, wrappedLast)|)
    decreases |data|
  {
    if |data| > room {
      TrainLength(topic, data[room..], full, full, number + 1, wrappedLast);
      var n := |Train(topic, data[room..], full, full, number + 1, wrappedLast)|;
      assert full + (n - 1) * full == n * full && (n >= 2 ==> full + (n - 2) * full == (n - 1) * full);
    }
  }

  lemma TrainIsTrain(topic: seq<byte>, data: seq<byte>, room: nat, full: nat, wrappedLast: bool)
    requires room > 0 && full > 0 && data != []
    ensures IsTrain(Train(topic, data, room, full, 1, wrappedLast), Message(topic, data))
  {
    TrainPieces(topic, data, room, full, 1, wrappedLast);
    TrainPayload(topic, data, room, full, 1, wrappedLast);
    var ps := Train(topic, data, room, full, 1, wrappedLast);
    forall i | 0 <= i < |ps|
      ensures ps[i].topic == topic && ps[i].payload != [] && ps[i].number == (i + 1) % 256
      ensures i < |ps| - 1 || |ps| <= 255 ==> (ps[i].last <==> i == |ps| - 1)
    {
      assert TrainPiece(ps[i], topic, 1 + i, i == |ps| - 1);
    }
  }

  /** The numbers suffice exactly for a first fragment and 254 full ones. */
  lemma TrainWithinNumbers(topic: seq<byte>, data: seq<byte>, room: nat, full: nat, wrappedLast: bool)
    requires room > 0 && full > 0 && data != []
    ensures |Train(topic, data, room, full, 1, wrappedLast)| <= 255 <==> |data| <= room + 254 * full
  {
    TrainLength(topic, data, room, full, 1, wrappedLast);
    var n := |Train(topic, data, room, full, 1, wrappedLast)|;
    if n <= 255 {
      Times(n - 1, 254, full);
    } else {
      Times(254, n - 2, full);
    }
  }

  lemma Times(j: nat, k: nat, full: nat)
    requires j <= k
    ensures j * full <= k * full
  {
  }

  // ---------------------------------------------------------------------------------------------
  // One add
  // ---------------------------------------------------------------------------------------------

  lemma {:induction false} FlattenSnoc<T>(ss: seq<seq<T>>, s: seq<T>)
    ensures Flatten(ss + [s]) == Flatten(ss) + s
  {
    if ss == [] {
      assert [s][1..] == [] && [] + [s] == [s];
    } else {
      FlattenSnoc(ss[1..], s);
      assert (ss + [s])[1..] == ss[1..] + [s];
      assert ss[0] + (Flatten(ss[1..]) + s) == (ss[0] + Flatten(ss[1..])) + s;
    }
  }

  lemma PiecesAssociative(a: seq<Piece>, b: seq<Piece>, c: seq<Piece>)
    ensures (a + b) + c == a + (b + c)
  {
  }

  lemma PacketsEmitted(b: Packing)
    ensures Flatten(Packets(b)) == Emitted(b)
  {
    if b.open == [] {
      assert Emitted(b) == Flatten(b.closed);
    } else {
      FlattenSnoc(b.closed, b.open);
    }
  }

  lemma WithRoomEmitted(b: Packing, packetSize: nat, headerSize: nat)
    ensures Emitted(WithRoom(b, packetSize, headerSize)) == Emitted(b)
  {
    PacketsEmitted(b);
    assert Flatten(Packets(b)) + [] == Flatten(Packets(b));
  }

  lemma PutEmitted(b: Packing, p: Piece)
    ensures Emitted(Put(b, p)) == Emitted(b) + [p]
  {
    PiecesAssociative(Flatten(b.closed), b.open, [p]);
  }

  /** The loop puts in the fragments of the data. */
  lemma {:induction false} FragmentsEmitted(b: Packing, packetSize: nat, h: nat, topic: seq<byte>, data: seq<byte>,
          number: nat)
    requires Ready(b, packetSize, h)
    ensures Emitted(AddFragments(b, packetSize, h, topic, data, number))
         == Emitted(b) + Train(topic, data, Left(b, packetSize) - h, packetSize - h, number, false)
    decreases |data|
  {
    var room := Left(b, packetSize) - h;
    if |data| <= room {
      PutEmitted(b, Piece(topic, number % 256, number % 256 != 0, data));
    } else {
      var p := Piece(topic, number % 256, false, data[..room]);
      var next, rest := WithRoom(Put(b, p), packetSize, h), data[room..];
      PutEmitted(b, p);
      WithRoomEmitted(Put(b, p), packetSize, h);
      FragmentsEmitted(next, packetSize, h, topic, rest, number + 1);
      PiecesAssociative(Emitted(b), [p], Train(topic, rest, packetSize - h, packetSize - h, number + 1, false));
    }
  }

  /** The room for a message in the packet that its first bytes go to. */
  function Room(b: Packing, packetSize: nat, topic: seq<byte>): int {
    Left(WithRoom(b, packetSize, HeaderSize(topic)), packetSize) - HeaderSize(topic)
  }

  /** What an add puts into the packets. A message that would just fill the packet goes as a single fragment. */
  function Pieces(b: Packing, packetSize: nat, topic: seq<byte>, data: seq<byte>): seq<Piece>
    requires packetSize > HeaderSize(topic)
  {
    WithRoomReady(b, packetSize, HeaderSize(topic));
    if Room(b, packetSize, topic) > |data| then [Piece(topic, 0, false, data)]
    else Train(topic, data, Room(b, packetSize, topic), packetSize - HeaderSize(topic), 1, false)
  }

  /** An add puts in the pieces of the message behind all others. */
  lemma AddEmitted(b: Packing, packetSize: nat, topic: seq<byte>, data: seq<byte>)
    requires packetSize > HeaderSize(topic) && data != []
    ensures Emitted(Add(b, packetSize, topic, data)) == Emitted(b) + Pieces(b, packetSize, topic, data)
    ensures Carries(Pieces(b, packetSize, topic, data), Message(topic, data))
  {
    var h := HeaderSize(topic);
    var next := WithRoom(b, packetSize, h);
    WithRoomEmitted(b, packetSize, h);
    if Left(next, packetSize) > h + |data| {
      PutEmitted(next, Piece(topic, 0, false, data));
    } else {
      FragmentsEmitted(next, packetSize, h, topic, data, 1);
      TrainIsTrain(topic, data, Room(b, packetSize, topic), packetSize - h, false);
    }
  }

  /** Which messages need too many fragments can be told from the room that is left. */
  lemma PiecesWithinNumbers(b: Packing, packetSize: nat, topic: seq<byte>, data: seq<byte>)
    requires packetSize > HeaderSize(topic) && data != []
    ensures |Pieces(b, packetSize, topic, data)| <= 255
       <==> |data| <= Room(b, packetSize, topic) + 254 * (packetSize - HeaderSize(topic))
  {
    WithRoomReady(b, packetSize, HeaderSize(topic));
    if Room(b, packetSize, topic) <= |data| {
      TrainWithinNumbers(topic, data, Room(b, packetSize, topic), packetSize - HeaderSize(topic), false);
    }
  }

  // ---------------------------------------------------------------------------------------------
  // A batch
  // ---------------------------------------------------------------------------------------------

  /** A call of sbfBatch_add; `live` says that the publisher is ready and not destroyed. */
  datatype Request = Request(topic: seq<byte>, data: seq<byte>, live: bool)

  predicate Accepted(r: Request) {
    r.live && 0 < |r.data| <= MESSAGE_SIZE_LIMIT
  }

  function AddRequest(b: Packing, packetSize: nat, r: Request): Packing
    requires packetSize > HeaderSize(r.topic)
  {
    if Accepted(r) then Add(b, packetSize, r.topic, r.data) else b
  }

  /** An add puts pieces into the packets exactly for a message of 1 to 65536 bytes of a live publisher. */
  lemma AcceptedExactly(b: Packing, packetSize: nat, r: Request)
    requires packetSize > HeaderSize(r.topic)
    ensures if r.live && 1 <= |r.data| <= 65536 then |Emitted(AddRequest(b, packetSize, r))| > |Emitted(b)|
            else AddRequest(b, packetSize, r) == b
    ensures Messages([r]) == if r.live && 1 <= |r.data| <= 65536 then [Message(r.topic, r.data)] else []
  {
    assert [r][1..] == [] && Messages([r][1..]) == [];
    if r.live && 1 <= |r.data| <= 65536 {
      AddEmitted(b, packetSize, r.topic, r.data);
    }
  }

  predicate TopicsFit(rs: seq<Request>, packetSize: nat) {
    forall r :: r in rs ==> packetSize > HeaderSize(r.topic)
  }

  function AddAll(b: Packing, packetSize: nat, rs: seq<Request>): Packing
    requires TopicsFit(rs, packetSize)
    decreases |rs|
  {
    if rs == [] then b
    else
      assert rs[0] in rs;
      AddAll(AddRequest(b, packetSize, rs[0]), packetSize, rs[1..])
  }

  function Messages(rs: seq<Request>): seq<Message> {
    if rs == [] then []
    else if Accepted(rs[0]) then [Message(rs[0].topic, rs[0].data)] + Messages(rs[1..])
    else Messages(rs[1..])
  }

  lemma {:induction false} AddAllSnoc(b: Packing, packetSize: nat, rs: seq<Request>, r: Request)
    requires TopicsFit(rs + [r], packetSize)
    ensures TopicsFit(rs, packetSize) && packetSize > HeaderSize(r.topic)
    ensures AddAll(b, packetSize, rs + [r]) == AddRequest(AddAll(b, packetSize, rs), packetSize, r)
    decreases |rs|
  {
    assert r in rs + [r] && forall q :: q in rs ==> q in rs + [r];
    if rs == [] {
      assert [r][1..] == [];
    } else {
      assert rs[0] in rs && (rs + [r])[1..] == rs[1..] + [r];
      AddAllSnoc(AddRequest(b, packetSize, rs[0]), packetSize, rs[1..], r);
    }
  }

  /** The pieces of each message. */
  function Trains(b: Packing, packetSize: nat, rs: seq<Request>): seq<seq<Piece>>
    requires TopicsFit(rs, packetSize)
    decreases |rs|
  {
    if rs == [] then []
    else
      assert rs[0] in rs;
      var rest := Trains(AddRequest(b, packetSize, rs[0]), packetSize, rs[1..]);
      if Accepted(rs[0]) then [Pieces(b, packetSize, rs[0].topic, rs[0].data)] + rest else rest
  }

  /** The packets hold exactly the messages, one behind the other. */
  lemma {:induction false} AddAllEmitted(b: Packing, packetSize: nat, rs: seq<Request>)
    requires TopicsFit(rs, packetSize)
    ensures Emitted(AddAll(b, packetSize, rs)) == Emitted(b) + Flatten(Trains(b, packetSize, rs))
    ensures Each(Trains(b, packetSize, rs), Messages(rs))
    decreases |rs|
  {
    if rs == [] {
      assert Emitted(b) + [] == Emitted(b);
    } else {
      var r := rs[0];
      assert r in rs;
      var b' := AddRequest(b, packetSize, r);
      AddAllEmitted(b', packetSize, rs[1..]);
      if Accepted(r) {
        var ps, rest := Pieces(b, packetSize, r.topic, r.data), Trains(b', packetSize, rs[1..]);
        AddEmitted(b, packetSize, r.topic, r.data);
        PiecesAssociative(Emitted(b), ps, Flatten(rest));
        EachFront(ps, Message(r.topic, r.data), rest, Messages(rs[1..]));
      }
    }
  }

  lemma EachFront(ps: seq<Piece>, m: Message, trains: seq<seq<Piece>>, ms: seq<Message>)
    requires Carries(ps, m) && Each(trains, ms)
    ensures Each([ps] + trains, [m] + ms) && Flatten([ps] + trains) == ps + Flatten(trains)
  {
    assert ([ps] + trains)[1..] == trains;
  }

  /**
    Whatever is added to an empty batch, the pieces in its packets deliver exactly the messages that were
    accepted and have a subscriber, in order, if and only if none of them takes more than 255 fragments; and
    the assemblers are idle afterwards.
   */
  lemma PiecesDeliver(packetSize: nat, rs: seq<Request>, st: Topics)
    requires TopicsFit(rs, packetSize) && AllIdle(st)
    ensures |Trains(EMPTY, packetSize, rs)| == |Messages(rs)|
    ensures var r := Run(st, Flatten(Packets(AddAll(EMPTY, packetSize, rs))));
            var fits := WithinNumbers(st, Trains(EMPTY, packetSize, rs), Messages(rs));
            (fits <==> r.messages == Heard(st, Messages(rs))) && (fits ==> r.topics == st)
  {
    AddAllEmitted(EMPTY, packetSize, rs);
    PacketsEmitted(AddAll(EMPTY, packetSize, rs));
    var trains := Trains(EMPTY, packetSize, rs);
    assert Emitted(EMPTY) + Flatten(trains) == Flatten(trains);
    DeliveredAsSent(st, trains, Messages(rs));
  }

  // ---------------------------------------------------------------------------------------------
  // The bytes of the packets
  // ---------------------------------------------------------------------------------------------

  function Length(ps: seq<Piece>): nat {
    |EncodeOpen(ps)|
  }

  /** No packet is empty or larger than the packet size, and `used` is the size of the one being filled. */
  predicate Inv(b: Packing, packetSize: nat) {
    && (forall ps :: ps in b.closed ==> ps != [] && Length(ps) <= packetSize)
    && b.used == Length(b.open) <= packetSize
    && (!b.started ==> b.open == [])
  }

  lemma PutKeeps(b: Packing, packetSize: nat, p: Piece)
    requires Inv(b, packetSize) && b.started && HeaderSize(p.topic) + |p.payload| <= Left(b, packetSize)
    ensures Inv(Put(b, p), packetSize) && Put(b, p).open != []
  {
    EncodeOpenOne(p);
    EncodeOpenConcat(b.open, [p]);
  }

  lemma WithRoomKeeps(b: Packing, packetSize: nat, headerSize: nat)
    requires Inv(b, packetSize)
    ensures Inv(WithRoom(b, packetSize, headerSize), packetSize)
  {
  }

  /** A fragment that fills its packet. */
  lemma FragmentKeeps(b: Packing, packetSize: nat, h: nat, p: Piece)
    requires Inv(b, packetSize) && Ready(b, packetSize, h) && h == HeaderSize(p.topic)
    requires |p.payload| == Left(b, packetSize) - h
    ensures var next := WithRoom(Put(b, p), packetSize, h);
            Inv(next, packetSize) && Ready(next, packetSize, h)
  {
    PutKeeps(b, packetSize, p);
    WithRoomKeeps(Put(b, p), packetSize, h);
  }

  lemma {:induction false} FragmentsKeep(b: Packing, packetSize: nat, h: nat, topic: seq<byte>, data: seq<byte>,
          number: nat)
    requires Inv(b, packetSize) && Ready(b, packetSize, h) && h == HeaderSize(topic)
    ensures var r := AddFragments(b, packetSize, h, topic, data, number); Inv(r, packetSize) && r.open != []
    decreases |data|
  {
    var room := Left(b, packetSize) - h;
    if |data| <= room {
      PutKeeps(b, packetSize, Piece(topic, number % 256, number % 256 != 0, data));
    } else {
      var p := Piece(topic, number % 256, false, data[..room]);
      FragmentKeeps(b, packetSize, h, p);
      FragmentsKeep(WithRoom(Put(b, p), packetSize, h), packetSize, h, topic, data[room..], number + 1);
    }
  }

  lemma AddKeeps(b: Packing, packetSize: nat, topic: seq<byte>, data: seq<byte>)
    requires Inv(b, packetSize) && packetSize > HeaderSize(topic)
    ensures var r := Add(b, packetSize, topic, data); Inv(r, packetSize) && r.open != []
  {
    var h := HeaderSize(topic);
    var next := WithRoom(b, packetSize, h);
    WithRoomKeeps(b, packetSize, h);
    if Left(next, packetSize) > h + |data| {
      PutKeeps(next, packetSize, Piece(topic, 0, false, data));
    } else {
      FragmentsKeep(next, packetSize, h, topic, data, 1);
    }
  }

  lemma {:induction false} AddAllKeeps(b: Packing, packetSize: nat, rs: seq<Request>)
    requires TopicsFit(rs, packetSize) && Inv(b, packetSize)
    ensures Inv(AddAll(b, packetSize, rs), packetSize)
    decreases |rs|
  {
    if rs != [] {
      assert rs[0] in rs;
      if Accepted(rs[0]) {
        AddKeeps(b, packetSize, rs[0].topic, rs[0].data);
      }
      AddAllKeeps(AddRequest(b, packetSize, rs[0]), packetSize, rs[1..]);
    }
  }

  // ---------------------------------------------------------------------------------------------
  // No packet is closed early
  // ---------------------------------------------------------------------------------------------

  /** The header of the first piece behind the packet did not leave room for a byte in it. */
  predicate NoRoom(ps: seq<Piece>, next: seq<Piece>, packetSize: nat) {
    next != [] && Length(ps) + HeaderSize(next[0].topic) >= packetSize
  }

  predicate Tight(packets: seq<seq<Piece>>, packetSize: nat) {
    forall i, j :: 0 <= i < |packets| && j == i + 1 < |packets| ==> NoRoom(packets[i], packets[j], packetSize)
  }

  /** A fragment that is not the last of its message fills its packet to the end. */
  predicate Filled(ps: seq<Piece>, packetSize: nat) {
    forall i :: 0 <= i < |ps| && ps[i].number != 0 && !ps[i].last ==> i == |ps| - 1 && Length(ps) == packetSize
  }

  predicate Compact(packets: seq<seq<Piece>>, packetSize: nat) {
    Tight(packets, packetSize) && forall i :: 0 <= i < |packets| ==> Filled(packets[i], packetSize)
  }

  /** A piece of the topic may come next. */
  predicate Next(b: Packing, packetSize: nat, h: nat) {
    b.open == [] && b.closed != [] ==> Length(b.closed[|b.closed| - 1]) + h >= packetSize
  }

  lemma CompactSnoc(packets: seq<seq<Piece>>, ps: seq<Piece>, packetSize: nat)
    requires Compact(packets, packetSize) && Filled(ps, packetSize)
    requires packets != [] ==> NoRoom(packets[|packets| - 1], ps, packetSize)
    ensures Compact(packets + [ps], packetSize)
  {
  }

  lemma CompactFront(packets: seq<seq<Piece>>, ps: seq<Piece>, packetSize: nat)
    requires Compact(packets + [ps], packetSize)
    ensures Compact(packets, packetSize) && Filled(ps, packetSize)
    ensures packets != [] ==> NoRoom(packets[|packets| - 1], ps, packetSize)
  {
    var all := packets + [ps];
    assert all[|packets|] == ps;
    forall i, j | 0 <= i < |packets| && j == i + 1 < |packets| ensures NoRoom(packets[i], packets[j], packetSize) {
      assert NoRoom(all[i], all[j], packetSize);
    }
    forall i | 0 <= i < |packets| ensures Filled(packets[i], packetSize) {
      assert Filled(all[i], packetSize);
    }
    if packets != [] {
      assert NoRoom(all[|packets| - 1], all[|packets|], packetSize);
    }
  }

  lemma FilledSnoc(ps: seq<Piece>, p: Piece, packetSize: nat)
    requires Filled(ps, packetSize) && Length(ps) + HeaderSize(p.topic) < packetSize
    requires p.number != 0 && !p.last ==> Length(ps) + HeaderSize(p.topic) + |p.payload| == packetSize
    ensures Filled(ps + [p], packetSize)
  {
    EncodeOpenOne(p);
    EncodeOpenConcat(ps, [p]);
  }

  lemma PutCompact(b: Packing, packetSize: nat, p: Piece)
    requires Inv(b, packetSize) && Compact(Packets(b), packetSize) && Next(b, packetSize, HeaderSize(p.topic))
    requires Ready(b, packetSize, HeaderSize(p.topic))
    requires p.number != 0 && !p.last ==> HeaderSize(p.topic) + |p.payload| == Left(b, packetSize)
    ensures Compact(Packets(Put(b, p)), packetSize)
  {
    if b.open == [] {
      assert Length([]) == 0;
    } else {
      CompactFront(b.closed, b.open, packetSize);
    }
    FilledSnoc(b.open, p, packetSize);
    CompactSnoc(b.closed, b.open + [p], packetSize);
  }

  lemma WithRoomCompact(b: Packing, packetSize: nat, h: nat)
    requires Inv(b, packetSize) && Compact(Packets(b), packetSize) && (b.open == [] ==> b.closed == [])
    ensures var next := WithRoom(b, packetSize, h); Compact(Packets(next), packetSize) && Next(next, packetSize, h)
  {
  }

  /** Between two fragments of a message. */
  ghost predicate Ongoing(b: Packing, packetSize: nat, h: nat) {
    Inv(b, packetSize) && Ready(b, packetSize, h) && Compact(Packets(b), packetSize) && Next(b, packetSize, h)
  }

  lemma FragmentCompact(b: Packing, packetSize: nat, h: nat, p: Piece)
    requires Ongoing(b, packetSize, h) && h == HeaderSize(p.topic) && |p.payload| == Left(b, packetSize) - h
    ensures Ongoing(WithRoom(Put(b, p), packetSize, h), packetSize, h)
  {
    FragmentKeeps(b, packetSize, h, p);
    PutKeeps(b, packetSize, p);
    PutCompact(b, packetSize, p);
    WithRoomCompact(Put(b, p), packetSize, h);
  }

  lemma LastCompact(b: Packing, packetSize: nat, h: nat, p: Piece)
    requires Ongoing(b, packetSize, h) && h == HeaderSize(p.topic) && (p.number == 0 || p.last)
    ensures Compact(Packets(Put(b, p)), packetSize)
  {
    PutCompact(b, packetSize, p);
  }

  lemma {:induction false} FragmentsCompact(b: Packing, packetSize: nat, h: nat, topic: seq<byte>, data: seq<byte>,
          number: nat)
    requires Ongoing(b, packetSize, h) && h == HeaderSize(topic)
    ensures Compact(Packets(AddFragments(b, packetSize, h, topic, data, number)), packetSize)
    decreases |data|
  {
    var room := Left(b, packetSize) - h;
    if |data| <= room {
      LastCompact(b, packetSize, h, Piece(topic, number % 256, number % 256 != 0, data));
    } else {
      var p, rest := Piece(topic, number % 256, false, data[..room]), data[room..];
      FragmentCompact(b, packetSize, h, p);
      var next := WithRoom(Put(b, p), packetSize, h);
      FragmentsCompact(next, packetSize, h, topic, rest, number + 1);
      assert AddFragments(b, packetSize, h, topic, data, number) == AddFragments(next, packetSize, h, topic, rest, number + 1);
    }
  }

  lemma AddCompact(b: Packing, packetSize: nat, topic: seq<byte>, data: seq<byte>)
    requires Inv(b, packetSize) && packetSize > HeaderSize(topic)
    requires Compact(Packets(b), packetSize) && (b.open == [] ==> b.closed == [])
    ensures Compact(Packets(Add(b, packetSize, topic, data)), packetSize)
  {
    var h := HeaderSize(topic);
    var next := WithRoom(b, packetSize, h);
    WithRoomKeeps(b, packetSize, h);
    WithRoomCompact(b, packetSize, h);
    if Left(next, packetSize) > h + |data| {
      PutCompact(next, packetSize, Piece(topic, 0, false, data));
    } else {
      FragmentsCompact(next, packetSize, h, topic, data, 1);
    }
  }

  lemma {:induction false} AddAllCompact(b: Packing, packetSize: nat, rs: seq<Request>)
    requires TopicsFit(rs, packetSize) && Inv(b, packetSize)
    requires Compact(Packets(b), packetSize) && (b.open == [] ==> b.closed == [])
    ensures Compact(Packets(AddAll(b, packetSize, rs)), packetSize)
    decreases |rs|
  {
    if rs != [] {
      var r := rs[0];
      assert r in rs;
      if Accepted(r) {
        AddKeeps(b, packetSize, r.topic, r.data);
        AddCompact(b, packetSize, r.topic, r.data);
      }
      AddAllCompact(AddRequest(b, packetSize, r), packetSize, rs[1..]);
    }
  }

  /**
    Messages share packets: whatever is added, a packet is closed only when the header of the piece that comes
    next leaves no room for a byte, and a fragment that is not the last of its message fills its packet.
   */
  lemma PacketsCompact(packetSize: nat, rs: seq<Request>)
    requires TopicsFit(rs, packetSize)
    ensures Compact(Packets(AddAll(EMPTY, packetSize, rs)), packetSize)
  {
    assert Length([]) == 0;
    AddAllCompact(EMPTY, packetSize, rs);
  }

  /**
    A message goes as a whole exactly if that leaves a byte free in its packet, which is the last one as long as
    that takes a byte behind another header.
   */
  lemma WholeExactly(b: Packing, packetSize: nat, topic: seq<byte>, data: seq<byte>)
    requires Inv(b, packetSize) && packetSize > HeaderSize(topic) && data != []
    ensures var h := HeaderSize(topic);
            var left := packetSize - Length(b.open);
            Emitted(Add(b, packetSize, topic, data)) == Emitted(b) + [Piece(topic, 0, false, data)]
            <==> h + |data| < if b.open != [] && h < left then left else packetSize
  {
    AddEmitted(b, packetSize, topic, data);
    assert b.open == [] ==> Length(b.open) == 0;
    if Room(b, packetSize, topic) <= |data| {
      var ps := Pieces(b, packetSize, topic, data);
      TrainPieces(topic, data, Room(b, packetSize, topic), packetSize - HeaderSize(topic), 1, false);
      assert TrainPiece(ps[0], topic, 1 + 0, 0 == |ps| - 1);
      assert (Emitted(b) + ps)[|Emitted(b)|] == ps[0];
    }
  }

  predicate GoodTopic(t: seq<byte>) {
    0 !in t && |t| <= 249
  }

  predicate GoodTopics(ps: seq<Piece>) {
    forall p :: p in ps ==> GoodTopic(p.topic)
  }

  lemma {:induction false} TopicsOfTrains(trains: seq<seq<Piece>>, ms: seq<Message>)
    requires Each(trains, ms) && forall m :: m in ms ==> GoodTopic(m.topic)
    ensures GoodTopics(Flatten(trains))
  {
    if ms != [] {
      assert Carries(trains[0], ms[0]) && ms[0] in ms;
      CarriedTopic(trains[0], ms[0]);
      TopicsOfTrains(trains[1..], ms[1..]);
    }
  }

  lemma {:induction false} TopicsOfMessages(rs: seq<Request>)
    requires forall r :: r in rs ==> GoodTopic(r.topic)
    ensures forall m :: m in Messages(rs) ==> GoodTopic(m.topic)
  {
    if rs != [] {
      assert rs[0] in rs;
      TopicsOfMessages(rs[1..]);
    }
  }

  lemma {:induction false} LengthOfPiece(ps: seq<Piece>, i: nat)
    requires i < |ps|
    ensures |ps[i].payload| <= Length(ps)
  {
    if i < |ps| - 1 {
      LengthOfPiece(ps[..|ps| - 1], i);
    }
  }

  predicate NoneEmpty(pss: seq<seq<Piece>>) {
    forall i :: 0 <= i < |pss| ==> pss[i] != []
  }

  /** The packets as they are sent. */
  function EncodeAll(pss: seq<seq<Piece>>): seq<seq<byte>>
    requires NoneEmpty(pss)
  {
    if pss == [] then []
    else
      EncodeAll(pss[..|pss| - 1]) + [EncodePacket(pss[|pss| - 1])]
  }

  predicate PacketFits(ps: seq<Piece>, packetSize: nat) {
    ps != [] && Length(ps) <= packetSize && GoodTopics(ps)
  }

  lemma OnePacket(ps: seq<Piece>, packetSize: nat, behind: seq<byte>)
    requires PacketFits(ps, packetSize) && packetSize < 65536
    ensures Parse(EncodePacket(ps), behind) == ps && 0 < |EncodePacket(ps)| <= packetSize
  {
    forall p | p in ps ensures Fits(p) {
      var i :| 0 <= i < |ps| && ps[i] == p;
      LengthOfPiece(ps, i);
      assert GoodTopic(p.topic);
    }
    ParsePacket(ps, behind);
  }

  lemma {:induction false} PacketsReceived(pss: seq<seq<Piece>>, packetSize: nat, behind: seq<byte>)
    requires packetSize < 65536 && forall ps :: ps in pss ==> PacketFits(ps, packetSize)
    ensures NoneEmpty(pss) && Received(EncodeAll(pss), behind) == Flatten(pss)
    ensures |EncodeAll(pss)| == |pss| && forall b :: b in EncodeAll(pss) ==> 0 < |b| <= packetSize
  {
    if pss != [] {
      var init, last := pss[..|pss| - 1], pss[|pss| - 1];
      assert last in pss && init + [last] == pss;
      PacketsReceived(init, packetSize, behind);
      OnePacket(last, packetSize, behind);
      FlattenSnoc(init, last);
      ReceivedSnoc(EncodeAll(init), EncodePacket(last), behind);
    }
  }

  lemma {:induction false} TopicsInPackets(pss: seq<seq<Piece>>)
    requires GoodTopics(Flatten(pss))
    ensures forall ps :: ps in pss ==> GoodTopics(ps)
  {
    if pss != [] {
      TopicsInPackets(pss[1..]);
      assert forall ps :: ps in pss ==> ps == pss[0] || ps in pss[1..];
    }
  }

  lemma BatchPacketsFit(packetSize: nat, rs: seq<Request>)
    requires TopicsFit(rs, packetSize) && forall r :: r in rs ==> GoodTopic(r.topic)
    ensures forall ps :: ps in Packets(AddAll(EMPTY, packetSize, rs)) ==> PacketFits(ps, packetSize)
  {
    var b := AddAll(EMPTY, packetSize, rs);
    AddAllKeeps(EMPTY, packetSize, rs);
    AddAllEmitted(EMPTY, packetSize, rs);
    TopicsOfMessages(rs);
    TopicsOfTrains(Trains(EMPTY, packetSize, rs), Messages(rs));
    assert Emitted(EMPTY) + Flatten(Trains(EMPTY, packetSize, rs)) == Flatten(Trains(EMPTY, packetSize, rs));
    PacketsEmitted(b);
    TopicsInPackets(Packets(b));
  }

  /**
    Batch round trip, in bytes. For publishers whose topics have up to 249 characters the packets are
    non-empty and within the packet size, and what the handler makes of them, one after the other, is exactly
    the messages that were accepted and have a subscriber, in order, if and only if none takes more than 255
    fragments; and the assemblers are idle afterwards.
   */
  lemma BatchRoundTrip(packetSize: nat, rs: seq<Request>, st: Topics, behind: seq<byte>)
    requires packetSize < 65536 && TopicsFit(rs, packetSize) && AllIdle(st)
    requires forall r :: r in rs ==> GoodTopic(r.topic)
    ensures NoneEmpty(Packets(AddAll(EMPTY, packetSize, rs)))
    ensures var packets := EncodeAll(Packets(AddAll(EMPTY, packetSize, rs))); forall b :: b in packets ==> 0 < |b| <= packetSize
    ensures |Trains(EMPTY, packetSize, rs)| == |Messages(rs)|
    ensures var r := Run(st, Received(EncodeAll(Packets(AddAll(EMPTY, packetSize, rs))), behind));
            var fits := WithinNumbers(st, Trains(EMPTY, packetSize, rs), Messages(rs));
            (fits <==> r.messages == Heard(st, Messages(rs))) && (fits ==> r.topics == st)
  {
    BatchPacketsFit(packetSize, rs);
    PacketsReceived(Packets(AddAll(EMPTY, packetSize, rs)), packetSize, behind);
    PiecesDeliver(packetSize, rs, st);
  }

  /** Every accepted message with a subscriber fits what is left of the current packet and 254 more. */
  predicate RoomEnough(b: Packing, packetSize: nat, rs: seq<Request>, st: Topics)
    requires TopicsFit(rs, packetSize)
    decreases |rs|
  {
    rs == [] || (
      var r := rs[0];
      assert r in rs;
      && (Accepted(r) && r.topic in st ==>
            |r.data| <= Room(b, packetSize, r.topic) + 254 * (packetSize - HeaderSize(r.topic)))
      && RoomEnough(AddRequest(b, packetSize, r), packetSize, rs[1..], st))
  }

  lemma {:induction false} RoomIsEnough(b: Packing, packetSize: nat, rs: seq<Request>, st: Topics)
    requires TopicsFit(rs, packetSize)
    ensures |Trains(b, packetSize, rs)| == |Messages(rs)|
    ensures RoomEnough(b, packetSize, rs, st) <==> WithinNumbers(st, Trains(b, packetSize, rs), Messages(rs))
    decreases |rs|
  {
    if rs != [] {
      var r := rs[0];
      assert r in rs;
      RoomIsEnough(AddRequest(b, packetSize, r), packetSize, rs[1..], st);
      if Accepted(r) {
        PiecesWithinNumbers(b, packetSize, r.topic, r.data);
        WithinNumbersFront(st, Trains(b, packetSize, rs), Messages(rs));
      }
    }
  }

  /**
    So, in terms of sizes: the packets deliver the messages that were accepted and have a subscriber if and only
    if there was room for each. With packets of 515 bytes or more there always is.
   */
  lemma BatchBySize(packetSize: nat, rs: seq<Request>, st: Topics, behind: seq<byte>)
    requires packetSize < 65536 && TopicsFit(rs, packetSize) && AllIdle(st)
    requires forall r :: r in rs ==> GoodTopic(r.topic)
    ensures NoneEmpty(Packets(AddAll(EMPTY, packetSize, rs)))
    ensures Run(st, Received(EncodeAll(Packets(AddAll(EMPTY, packetSize, rs))), behind)).messages == Heard(st, Messages(rs))
       <==> RoomEnough(EMPTY, packetSize, rs, st)
    ensures packetSize >= 515 ==> RoomEnough(EMPTY, packetSize, rs, st)
  {
    BatchRoundTrip(packetSize, rs, st, behind);
    RoomIsEnough(EMPTY, packetSize, rs, st);
    if packetSize >= 515 {
      AlwaysRoom(EMPTY, packetSize, rs, st);
    }
  }

  lemma {:induction false} AlwaysRoom(b: Packing, packetSize: nat, rs: seq<Request>, st: Topics)
    requires packetSize >= 515 && TopicsFit(rs, packetSize) && forall r :: r in rs ==> GoodTopic(r.topic)
    ensures RoomEnough(b, packetSize, rs, st)
    decreases |rs|
  {
    if rs != [] {
      var r := rs[0];
      assert r in rs;
      WithRoomReady(b, packetSize, HeaderSize(r.topic));
      AlwaysRoom(AddRequest(b, packetSize, r), packetSize, rs[1..], st);
    }
  }
}
