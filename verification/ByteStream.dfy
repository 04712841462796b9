/** A stream of bytes taken apart with sbfHandler_size (src/transport/sbfHandler.c). */
module ByteStream {
  import opened Wire
  import opened Reassembly

  /** sbfHandler_size: the bytes of the message at the front, 0 if it is not complete. */
  function Size(b: seq<byte>): (n: nat)
    ensures n <= |b|
  {
    if |b| < HEADER then 0
    else if |b| < Used(b) then 0
    else Used(b)
  }

  /** The complete messages at the front of what has arrived, and the rest. */
  function Split(b: seq<byte>): (seq<seq<byte>>, seq<byte>)
    decreases |b|
  {
    if Size(b) == 0 then ([], b)
    else
      var (ms, rest) := Split(b[Size(b)..]);
      ([b[..Size(b)]] + ms, rest)
  }

  /** A message at the front stays the same when more arrives. */
  lemma SizeOfMore(b: seq<byte>, c: seq<byte>)
    requires Size(b) != 0
    ensures Size(b + c) == Size(b) && (b + c)[..Size(b)] == b[..Size(b)] && (b + c)[Size(b)..] == b[Size(b)..] + c
  {
  }

  /** However the bytes are cut, splitting what is there and then the rest with what follows gives the same. */
  lemma {:induction false} SplitChunks(b: seq<byte>, c: seq<byte>)
    ensures var (ms, rest) := Split(b);
            var (ns, end) := Split(rest + c);
            Split(b + c) == (ms + ns, end)
    decreases |b|
  {
    if Size(b) != 0 {
      SizeOfMore(b, c);
      SplitChunks(b[Size(b)..], c);
      var (ms, rest) := Split(b[Size(b)..]);
      var (ns, end) := Split(rest + c);
      assert ([b[..Size(b)]] + ms) + ns == [b[..Size(b)]] + (ms + ns);
    } else {
      assert [] + Split(b + c).0 == Split(b + c).0;
    }
  }

  /** Bytes arrive piece by piece: the messages taken off so far and the bytes still pending. */
  function Feed(pending: seq<byte>, chunks: seq<seq<byte>>): (seq<seq<byte>>, seq<byte>)
    decreases |chunks|
  {
    if chunks == [] then ([], pending)
    else
      var (ms, rest) := Split(pending + chunks[0]);
      var (ns, end) := Feed(rest, chunks[1..]);
      (ms + ns, end)
  }

  /** How the bytes are cut into chunks makes no difference. */
  lemma {:induction false} FeedIsSplit(pending: seq<byte>, chunks: seq<seq<byte>>)
    requires Size(pending) == 0
    ensures Feed(pending, chunks) == Split(pending + Flatten(chunks))
    decreases |chunks|
  {
    if chunks == [] {
      assert pending + [] == pending;
    } else {
      var b := pending + chunks[0];
      var rest := Split(b).1;
      SplitEnd(b);
      FeedIsSplit(rest, chunks[1..]);
      SplitChunks(b, Flatten(chunks[1..]));
      assert pending + Flatten(chunks) == b + Flatten(chunks[1..]);
    }
  }

  /** No complete message is left over. */
  lemma {:induction false} SplitEnd(b: seq<byte>)
    ensures Size(Split(b).1) == 0
    decreases |b|
  {
    if Size(b) != 0 {
      SplitEnd(b[Size(b)..]);
    }
  }

  predicate Complete(unit: seq<byte>) {
    unit != [] && Size(unit) == |unit|
  }

  lemma {:induction false} SplitJoined(units: seq<seq<byte>>)
    requires forall u :: u in units ==> Complete(u)
    ensures Split(Flatten(units)) == (units, [])
  {
    if units != [] {
      var u, rest := units[0], Flatten(units[1..]);
      SplitJoined(units[1..]);
      assert u in units;
      SizeOfMore(u, rest);
      assert (u + rest)[..|u|] == u && (u + rest)[|u|..] == rest;
      assert [u] + units[1..] == units;
    }
  }

  /** Encoded messages that arrive in any chunks are taken apart into those messages again. */
  lemma StreamRoundTrip(units: seq<seq<byte>>, chunks: seq<seq<byte>>)
    requires (forall u :: u in units ==> Complete(u)) && Flatten(chunks) == Flatten(units)
    ensures Feed([], chunks) == (units, [])
  {
    FeedIsSplit([], chunks);
    assert [] + Flatten(chunks) == Flatten(chunks);
    SplitJoined(units);
  }

  function EncodeEach(ps: seq<Piece>): seq<seq<byte>>
    requires ps != []
  {
    if |ps| == 1 then [Encode(ps[0], true)] else [Encode(ps[0], false)] + EncodeEach(ps[1..])
  }

  lemma OneUnit(p: Piece, inPacketEnd: bool, behind: seq<byte>)
    requires Fits(p)
    ensures Complete(Encode(p, inPacketEnd)) && Parse(Encode(p, inPacketEnd), behind) == [p]
  {
    var u := Encode(p, inPacketEnd);
    DecodeEncode(p, inPacketEnd, [], behind);
    assert u + [] == u && u[|u|..] == [];
  }

  /** A packet sent over a stream is taken apart into its messages, each read as one piece. */
  lemma {:induction false} PacketOverStream(ps: seq<Piece>, behind: seq<byte>)
    requires ps != [] && forall p :: p in ps ==> Fits(p)
    ensures var units := EncodeEach(ps);
            && |units| == |ps| && Flatten(units) == EncodePacket(ps)
            && (forall u :: u in units ==> Complete(u))
            && (forall i :: 0 <= i < |ps| ==> Parse(units[i], behind) == [ps[i]])
  {
    OneUnit(ps[0], |ps| == 1, behind);
    if |ps| == 1 {
      PacketOne(ps[0]);
      assert ps == [ps[0]] && [Encode(ps[0], true)][1..] == [];
    } else {
      var u, rest := Encode(ps[0], false), EncodeEach(ps[1..]);
      PacketFront(ps);
      PacketOverStream(ps[1..], behind);
      assert ([u] + rest)[1..] == rest;
    }
  }
}
