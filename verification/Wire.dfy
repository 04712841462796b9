/**
  The bytes of a packet: the header that a publisher makes (src/transport/sbfPub.c), the header layout
  (src/transport/sbfTportPrivate.h) and how a packet is taken apart (src/transport/sbfHandler.c). Both ends
  read the 16-bit size field in the same byte order, the little-endian one here.
 */
module Wire {
  type byte = x: int | 0 <= x < 256

  /** sizeof (struct sbfTportHeaderImpl) */
  const HEADER := 5

  // Places of the fields: the size takes bytes 0 and 1.
  const FRAGMENT_NUMBER := 2
  const TOPIC_SIZE := 3
  const FLAGS := 4

  predicate InPacketEnd(flags: byte) { flags % 2 == 1 }

  predicate FragmentEnd(flags: byte) { flags / 2 % 2 == 1 }

  /** flags | SBF_MESSAGE_FLAG_LAST_IN_PACKET */
  function OrInPacketEnd(flags: byte): (r: byte)
    ensures InPacketEnd(r) && FragmentEnd(r) == FragmentEnd(flags)
  {
    if InPacketEnd(flags) then flags else flags + 1
  }

  /** flags | SBF_MESSAGE_FLAG_LAST_FRAGMENT */
  function OrFragmentEnd(flags: byte): (r: byte)
    ensures FragmentEnd(r) && InPacketEnd(r) == InPacketEnd(flags)
  {
    if FragmentEnd(flags) then flags else flags + 2
  }

  /** What is left of a number in a uint16_t field, as bytes. */
  function SizeBytes(n: nat): seq<byte> {
    [n % 256, n / 256 % 256]
  }

  function SizeAt(b: seq<byte>): nat
    requires 2 <= |b|
  {
    (b[0] as nat) + 256 * (b[1] as nat)
  }

  lemma SizeFits(n: nat)
    ensures SizeAt(SizeBytes(n)) == n % 65536
    ensures SizeAt(SizeBytes(n)) == n <==> n < 65536
  {
  }

  function Zeros(n: nat): seq<byte> {
    seq(n, _ => 0)
  }

  /** The characters up to the first NUL, all of them if there is none. */
  function UpToNul(b: seq<byte>): seq<byte> {
    if b == [] || b[0] == 0 then [] else [b[0]] + UpToNul(b[1..])
  }

  lemma {:induction false} UpToNulOf(s: seq<byte>, rest: seq<byte>)
    requires 0 !in s
    ensures UpToNul(s + [0] + rest) == s
  {
    if s == [] {
    } else {
      UpToNulOf(s[1..], rest);
      assert (s + [0] + rest)[1..] == s[1..] + [0] + rest;
    }
  }

  lemma {:induction false} UpToNulInside(b: seq<byte>, rest: seq<byte>)
    requires 0 in b
    ensures UpToNul(b + rest) == UpToNul(b)
  {
    if b[0] != 0 {
      assert b == [b[0]] + b[1..];
      UpToNulInside(b[1..], rest);
      assert (b + rest)[1..] == b[1..] + rest;
    }
  }

  lemma {:induction false} UpToNulAll(b: seq<byte>)
    requires 0 !in b
    ensures UpToNul(b) == b
  {
    if b != [] {
      UpToNulAll(b[1..]);
    }
  }

  // ---------------------------------------------------------------------------------------------
  // The publisher's header
  // ---------------------------------------------------------------------------------------------

  /** mHeaderSize, for a topic given without its NUL */
  function HeaderSize(topic: seq<byte>): (n: nat)
    ensures n % 8 == 0 && HEADER + |topic| + 1 < n <= HEADER + |topic| + 9
  {
    (HEADER + (|topic| + 1)) / 8 * 8 + 8
  }

  /** mTopicSize, a uint8_t */
  function TopicSize(topic: seq<byte>): byte {
    (HeaderSize(topic) - HEADER) % 256
  }

  /** The topic, its NUL and the padding. */
  function TopicRegion(topic: seq<byte>): (r: seq<byte>)
    ensures |r| == HeaderSize(topic) - HEADER
  {
    topic + [0] + Zeros(HeaderSize(topic) - HEADER - |topic| - 1)
  }

  function Header(topic: seq<byte>): (r: seq<byte>)
    ensures |r| == HeaderSize(topic)
  {
    [0, 0, 0, TopicSize(topic), 0] + TopicRegion(topic)
  }

  /** xcalloc of the header, the topic size, memcpy of the topic with its NUL */
  method MakeHeader(topic: seq<byte>) returns (header: array<byte>)
    ensures fresh(header) && header[..] == Header(topic)
  {
    var size := HeaderSize(topic);
    header := new byte[size](_ => 0);
    header[TOPIC_SIZE] := (size - HEADER) % 256;
    CopyIn(header, HEADER, topic + [0]);
  }

  /** memcpy */
  method CopyIn(a: array<byte>, at: nat, data: seq<byte>)
    requires at + |data| <= a.Length
    modifies a
    ensures a[..] == old(a[..at]) + data + old(a[at + |data|..])
  {
    forall i | 0 <= i < |data| {
      a[at + i] := data[i];
    }
  }

  // ---------------------------------------------------------------------------------------------
  // Messages and fragments
  // ---------------------------------------------------------------------------------------------

  /** What one header introduces: a whole message (number 0) or a fragment of one. */
  datatype Piece = Piece(topic: seq<byte>, number: byte, last: bool, payload: seq<byte>)

  /** The bounds under which a piece survives the field widths. */
  predicate Fits(p: Piece) {
    0 !in p.topic && |p.topic| <= 249 && |p.payload| < 65536
  }

  function FlagsOf(last: bool, inPacketEnd: bool): byte {
    (if inPacketEnd then 1 else 0) + (if last then 2 else 0)
  }

  /** The publisher's header with the fields of the piece, then the payload. */
  function Encode(p: Piece, inPacketEnd: bool): (r: seq<byte>)
    ensures |r| == HeaderSize(p.topic) + |p.payload|
  {
    SizeBytes(|p.payload|) + [p.number, TopicSize(p.topic), FlagsOf(p.last, inPacketEnd)] + TopicRegion(p.topic) + p.payload
  }

  /** sbfHandlerCheckHeader: false for a header or message that is cut short or whose topic is not ended. */
  predicate CheckHeader(b: seq<byte>) {
    |b| >= HEADER && |b| >= HEADER + b[TOPIC_SIZE] + SizeAt(b) && b[HEADER + b[TOPIC_SIZE] - 1] == 0
  }

  /** The bytes that the header at the front and its message take. */
  function Used(b: seq<byte>): nat
    requires |b| >= HEADER
  {
    HEADER + b[TOPIC_SIZE] + SizeAt(b)
  }

  /**
    The topic as a C string. With a topic size of 0 the check looks at the flags instead of a NUL and the
    string may run on to whatever lies behind the packet.
   */
  function TopicAt(b: seq<byte>, behind: seq<byte>): seq<byte>
    requires |b| >= HEADER
  {
    UpToNul(b[HEADER..] + behind)
  }

  function PieceAt(b: seq<byte>, behind: seq<byte>): Piece
    requires CheckHeader(b)
  {
    Piece(TopicAt(b, behind), b[FRAGMENT_NUMBER], FragmentEnd(b[FLAGS]), b[HEADER + b[TOPIC_SIZE]..Used(b)])
  }

  /** The pieces that the general loop of sbfHandler_packet comes to. */
  function Parse(b: seq<byte>, behind: seq<byte>): seq<Piece>
    decreases |b|
  {
    if !CheckHeader(b) then []
    else if InPacketEnd(b[FLAGS]) then [PieceAt(b, behind)]
    else [PieceAt(b, behind)] + Parse(b[Used(b)..], behind)
  }

  // ---------------------------------------------------------------------------------------------
  // Round trips
  // ---------------------------------------------------------------------------------------------

  /**
    The header is padded to a multiple of 8, its topic region ends in NUL and reads back as the topic. The
    8-bit topic size says where it ends exactly for topics of up to 249 characters, although
    SBF_TOPIC_SIZE_LIMIT admits 255.
   */
  lemma HeaderRoundTrip(topic: seq<byte>, behind: seq<byte>)
    requires 0 !in topic
    ensures var h := Header(topic);
            |h| % 8 == 0 && h[|h| - 1] == 0 && TopicAt(h, behind) == topic
    ensures var h := Header(topic);
            (HEADER + h[TOPIC_SIZE] == |h| <==> |topic| <= 249) && (|topic| <= 249 ==> CheckHeader(h))
  {
    var h, pad := Header(topic), Zeros(HeaderSize(topic) - HEADER - |topic| - 1);
    assert h[HEADER..] + behind == topic + [0] + (pad + behind);
    UpToNulOf(topic, pad + behind);
  }

  lemma EncodeFields(p: Piece, inPacketEnd: bool, rest: seq<byte>)
    ensures var b := Encode(p, inPacketEnd) + rest;
            && |b| >= HEADER && SizeAt(b) == |p.payload| % 65536
            && b[FRAGMENT_NUMBER] == p.number && b[TOPIC_SIZE] == TopicSize(p.topic)
            && b[FLAGS] == FlagsOf(p.last, inPacketEnd)
            && b[HEADER..] == TopicRegion(p.topic) + p.payload + rest
  {
    SizeFits(|p.payload|);
  }

  lemma RegionFields(p: Piece, rest: seq<byte>, behind: seq<byte>)
    requires 0 !in p.topic
    ensures var t, n, m := TopicRegion(p.topic) + p.payload + rest, |TopicRegion(p.topic)|, |p.payload|;
            t[n - 1] == 0 && t[n..n + m] == p.payload && t[n + m..] == rest && UpToNul(t + behind) == p.topic
  {
    var region, pad := TopicRegion(p.topic), Zeros(HeaderSize(p.topic) - HEADER - |p.topic| - 1);
    assert region + p.payload + rest + behind == p.topic + [0] + (pad + p.payload + rest + behind);
    UpToNulOf(p.topic, pad + p.payload + rest + behind);
  }

  lemma BehindHeader(b: seq<byte>, n: nat, m: nat)
    requires HEADER + n + m <= |b| && n > 0
    ensures var t := b[HEADER..];
            && b[HEADER + n - 1] == t[n - 1] && b[HEADER + n..HEADER + n + m] == t[n..n + m]
            && b[HEADER + n + m..] == t[n + m..]
  {
  }

  lemma Decode(b: seq<byte>, p: Piece, rest: seq<byte>, behind: seq<byte>)
    requires Fits(p) && |b| >= HEADER && SizeAt(b) == |p.payload| && b[TOPIC_SIZE] == |TopicRegion(p.topic)|
    requires b[FRAGMENT_NUMBER] == p.number && FragmentEnd(b[FLAGS]) == p.last
    requires b[HEADER..] == TopicRegion(p.topic) + p.payload + rest
    ensures CheckHeader(b) && PieceAt(b, behind) == p && b[Used(b)..] == rest
    ensures Used(b) == HEADER + |TopicRegion(p.topic)| + |p.payload|
  {
    RegionFields(p, rest, behind);
    BehindHeader(b, |TopicRegion(p.topic)|, |p.payload|);
  }

  /** A piece within the bounds is read back from its encoding, whatever follows it. */
  lemma DecodeEncode(p: Piece, inPacketEnd: bool, rest: seq<byte>, behind: seq<byte>)
    requires Fits(p)
    ensures var b := Encode(p, inPacketEnd) + rest;
            && CheckHeader(b) && PieceAt(b, behind) == p
            && InPacketEnd(b[FLAGS]) == inPacketEnd
            && Used(b) == |Encode(p, inPacketEnd)| && b[Used(b)..] == rest
  {
    EncodeFields(p, inPacketEnd, rest);
    Decode(Encode(p, inPacketEnd) + rest, p, rest, behind);
  }

  /** The pieces of a packet that is still open, none of them marked as its last. */
  function EncodeOpen(ps: seq<Piece>): seq<byte> {
    if ps == [] then [] else EncodeOpen(ps[..|ps| - 1]) + Encode(ps[|ps| - 1], false)
  }

  /** A packet: the last of its pieces is marked. */
  function EncodePacket(ps: seq<Piece>): seq<byte>
    requires ps != []
  {
    EncodeOpen(ps[..|ps| - 1]) + Encode(ps[|ps| - 1], true)
  }

  lemma Associative(a: seq<byte>, b: seq<byte>, c: seq<byte>)
    ensures (a + b) + c == a + (b + c)
  {
  }

  lemma EncodeOpenSnoc(ps: seq<Piece>, p: Piece)
    ensures EncodeOpen(ps + [p]) == EncodeOpen(ps) + Encode(p, false)
  {
    assert (ps + [p])[..|ps|] == ps;
  }

  lemma {:induction false} EncodeOpenConcat(ps: seq<Piece>, qs: seq<Piece>)
    ensures EncodeOpen(ps + qs) == EncodeOpen(ps) + EncodeOpen(qs)
  {
    if qs == [] {
      assert ps + qs == ps;
    } else {
      var init, last := qs[..|qs| - 1], qs[|qs| - 1];
      assert ps + qs == (ps + init) + [last] && qs == init + [last];
      EncodeOpenConcat(ps, init);
      EncodeOpenSnoc(ps + init, last);
      EncodeOpenSnoc(init, last);
      Associative(EncodeOpen(ps), EncodeOpen(init), Encode(last, false));
    }
  }

  lemma EncodeOpenOne(p: Piece)
    ensures EncodeOpen([p]) == Encode(p, false)
  {
    assert [p][..0] == [];
  }

  lemma PacketFront(ps: seq<Piece>)
    requires |ps| >= 2
    ensures EncodePacket(ps) == Encode(ps[0], false) + EncodePacket(ps[1..])
  {
    var n := |ps| - 1;
    EncodeOpenOne(ps[0]);
    EncodeOpenConcat([ps[0]], ps[1..n]);
    assert ps[..n] == [ps[0]] + ps[1..n];
    assert ps[1..][..n - 1] == ps[1..n];
    Associative(Encode(ps[0], false), EncodeOpen(ps[1..n]), Encode(ps[n], true));
  }

  lemma PacketOne(p: Piece)
    ensures EncodePacket([p]) == Encode(p, true) + []
  {
    assert [p][..0] == [];
  }

  lemma ParseFront(p: Piece, inPacketEnd: bool, rest: seq<byte>, behind: seq<byte>)
    requires Fits(p)
    ensures Parse(Encode(p, inPacketEnd) + rest, behind) == if inPacketEnd then [p] else [p] + Parse(rest, behind)
  {
    DecodeEncode(p, inPacketEnd, rest, behind);
  }

  /** A packet is read back as its pieces: only the last of them is taken as the last in the packet. */
  lemma {:induction false} ParsePacket(ps: seq<Piece>, behind: seq<byte>)
    requires ps != [] && forall p :: p in ps ==> Fits(p)
    ensures Parse(EncodePacket(ps), behind) == ps
  {
    var p := ps[0];
    assert p in ps;
    if |ps| == 1 {
      PacketOne(p);
      assert ps == [p];
      ParseFront(p, true, [], behind);
    } else {
      PacketFront(ps);
      ParseFront(p, false, EncodePacket(ps[1..]), behind);
      ParsePacket(ps[1..], behind);
      assert [p] + ps[1..] == ps;
    }
  }

  lemma CutHeader(p: Piece, inPacketEnd: bool, n: nat)
    requires Fits(p) && n < |Encode(p, inPacketEnd)|
    ensures !CheckHeader(Encode(p, inPacketEnd)[..n])
  {
    EncodeFields(p, inPacketEnd, []);
    assert Encode(p, inPacketEnd) + [] == Encode(p, inPacketEnd);
  }

  /** The pieces that lie within the first n bytes of their packet */
  function Within(ps: seq<Piece>, n: nat): (r: seq<Piece>)
    ensures r <= ps
  {
    if ps == [] then []
    else
      var size := HeaderSize(ps[0].topic) + |ps[0].payload|;
      assert ps == [ps[0]] + ps[1..];
      if size > n then [] else [ps[0]] + Within(ps[1..], n - size)
  }

  lemma CutFront(p: Piece, inPacketEnd: bool, rest: seq<byte>, n: nat, behind: seq<byte>)
    requires Fits(p) && n <= |Encode(p, inPacketEnd) + rest|
    ensures var size := |Encode(p, inPacketEnd)|;
            Parse((Encode(p, inPacketEnd) + rest)[..n], behind)
            == if n < size then [] else if inPacketEnd then [p] else [p] + Parse(rest[..n - size], behind)
  {
    var e := Encode(p, inPacketEnd);
    if n < |e| {
      CutHeader(p, inPacketEnd, n);
      assert (e + rest)[..n] == e[..n];
    } else {
      assert (e + rest)[..n] == e + rest[..n - |e|];
      ParseFront(p, inPacketEnd, rest[..n - |e|], behind);
    }
  }

  /** A packet that is cut short anywhere yields exactly the pieces that lie within what is left of it. */
  lemma {:induction false} CutShort(ps: seq<Piece>, n: nat, behind: seq<byte>)
    requires ps != [] && (forall p :: p in ps ==> Fits(p)) && n <= |EncodePacket(ps)|
    ensures Parse(EncodePacket(ps)[..n], behind) == Within(ps, n)
  {
    var p := ps[0];
    assert p in ps;
    var size := HeaderSize(p.topic) + |p.payload|;
    if |ps| == 1 {
      PacketOne(p);
      assert ps == [p];
      CutFront(p, true, [], n, behind);
    } else {
      PacketFront(ps);
      CutFront(p, false, EncodePacket(ps[1..]), n, behind);
      if size <= n {
        CutShort(ps[1..], n - size, behind);
      }
    }
  }

  /** With a topic size of 0 the check passes exactly if no flag is set. */
  lemma NoTopicSize(number: byte, flags: byte)
    ensures CheckHeader([0, 0, number, 0, flags]) <==> flags == 0
  {
  }

  /** What the limit of 255 characters admits */
  predicate Admitted(p: Piece) {
    0 !in p.topic && |p.topic| <= 255 && |p.payload| < 65536
  }

  /** A topic of 250 to 255 characters: its header says 3 for the topic size, and the check finds no NUL there. */
  lemma LongTopic(p: Piece, inPacketEnd: bool, rest: seq<byte>)
    requires Admitted(p) && |p.topic| > 249
    ensures var b := Encode(p, inPacketEnd) + rest; b[TOPIC_SIZE] == 3 && !CheckHeader(b)
  {
    var b := Encode(p, inPacketEnd) + rest;
    EncodeFields(p, inPacketEnd, rest);
    assert HeaderSize(p.topic) == 264;
    assert b[HEADER + 2] == b[HEADER..][2] == p.topic[2];
    assert p.topic[2] in p.topic;
  }

  /** The pieces in front of the first one with a long topic */
  function BeforeLong(ps: seq<Piece>): (r: seq<Piece>)
    ensures r == ps <==> forall p :: p in ps ==> |p.topic| <= 249
  {
    if ps == [] then []
    else
      assert ps == [ps[0]] + ps[1..];
      if |ps[0].topic| > 249 then [] else [ps[0]] + BeforeLong(ps[1..])
  }

  /**
    A message with a long topic is dropped by the receiver, together with everything behind it in its packet. So a
    packet is read back as its pieces if and only if all their topics have at most 249 characters.
   */
  lemma {:induction false} LongTopicLost(ps: seq<Piece>, behind: seq<byte>)
    requires ps != [] && forall p :: p in ps ==> Admitted(p)
    ensures Parse(EncodePacket(ps), behind) == BeforeLong(ps)
    ensures Parse(EncodePacket(ps), behind) == ps <==> forall p :: p in ps ==> |p.topic| <= 249
  {
    var p := ps[0];
    assert p in ps;
    if |ps| == 1 {
      PacketOne(p);
    } else {
      PacketFront(ps);
    }
    var inPacketEnd, rest := |ps| == 1, if |ps| == 1 then [] else EncodePacket(ps[1..]);
    assert EncodePacket(ps) == Encode(p, inPacketEnd) + rest;
    if |p.topic| > 249 {
      LongTopic(p, inPacketEnd, rest);
    } else {
      ParseFront(p, inPacketEnd, rest, behind);
      if |ps| > 1 {
        LongTopicLost(ps[1..], behind);
      }
    }
  }

  /**
    Reading the topic depends on nothing behind the packet exactly when there is a NUL after the header,
    which is sure unless the topic size is 0.
   */
  lemma TopicStaysInside(b: seq<byte>)
    requires CheckHeader(b)
    ensures b[TOPIC_SIZE] != 0 ==> 0 in b[HEADER..]
    ensures 0 in b[HEADER..] <==> forall behind :: TopicAt(b, behind) == TopicAt(b, [])
  {
    var t := b[HEADER..];
    assert t + [] == t;
    if b[TOPIC_SIZE] != 0 {
      assert t[b[TOPIC_SIZE] - 1] == 0;
    }
    if 0 in t {
      forall behind ensures TopicAt(b, behind) == TopicAt(b, []) {
        UpToNulInside(t, behind);
      }
    } else {
      UpToNulAll(t);
      UpToNulAll(t + [1]);
      assert TopicAt(b, [1]) != TopicAt(b, []);
    }
  }
}
