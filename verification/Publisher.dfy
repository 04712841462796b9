/**
  Sending without a batch: sbfPub_send (src/transport/sbfPub.c) and the fragment loop of
  src/transport/sbfTportFragments.c. A packet is what is given to the handler's send function.
 */
module Publisher {
  import opened Wire
  import opened Reassembly
  import opened Packing
  import Batch

  /** Each piece in a packet of its own. */
  function Alone(ps: seq<Piece>): seq<seq<byte>> {
    if ps == [] then [] else Alone(ps[..|ps| - 1]) + [Encode(ps[|ps| - 1], true)]
  }

  lemma AloneSnoc(ps: seq<Piece>, p: Piece)
    ensures Alone(ps + [p]) == Alone(ps) + [Encode(p, true)]
  {
    assert (ps + [p])[..|ps|] == ps;
  }

  lemma ParseAlone(p: Piece, behind: seq<byte>)
    requires Fits(p)
    ensures Parse(Encode(p, true), behind) == [p]
  {
    DecodeEncode(p, true, [], behind);
    assert Encode(p, true) + [] == Encode(p, true);
  }

  lemma {:induction false} AloneReceived(ps: seq<Piece>, behind: seq<byte>)
    requires forall p :: p in ps ==> Fits(p)
    ensures Received(Alone(ps), behind) == ps
  {
    if ps != [] {
      var init, last := ps[..|ps| - 1], ps[|ps| - 1];
      assert last in ps && init + [last] == ps;
      AloneReceived(init, behind);
      ParseAlone(last, behind);
      assert Alone(ps)[..|Alone(ps)| - 1] == Alone(init);
    }
  }

  /** What is sent for a message. */
  function Sent(topic: seq<byte>, data: seq<byte>, live: bool, packetSize: nat): seq<Piece>
    requires packetSize > HeaderSize(topic)
  {
    if |data| > MESSAGE_SIZE_LIMIT || !live then []
    else if |data| + HeaderSize(topic) > packetSize then
      Train(topic, data, packetSize - HeaderSize(topic), packetSize - HeaderSize(topic), 1, true)
    else [Piece(topic, 0, false, data)]
  }

  /** memcpy of the header, then the fields of one fragment or message that has a packet to itself */
  method FillAlone(header: seq<byte>, number: byte, last: bool, data: seq<byte>, ghost topic: seq<byte>)
    returns (packet: seq<byte>)
    requires header == Header(topic)
    ensures packet == Encode(Piece(topic, number, last, data), true)
  {
    var buffer := new byte[|header| + |data|];
    Batch.Fill(buffer, 0, header, data, topic);
    assert buffer[..] == Encode(Piece(topic, 0, false, data), false);
    FieldsAlone(Piece(topic, number, last, data));
    buffer[FLAGS] := 1;
    buffer[FRAGMENT_NUMBER] := number;
    if last {
      buffer[FLAGS] := OrFragmentEnd(buffer[FLAGS]);
    }
    packet := buffer[..];
  }

  lemma FieldsAlone(p: Piece)
    ensures var e := Encode(Piece(p.topic, 0, false, p.payload), false)[FLAGS := 1][FRAGMENT_NUMBER := p.number];
            |e| > FLAGS && e[FLAGS] == 1 && Encode(p, true) == if p.last then e[FLAGS := OrFragmentEnd(1)] else e
  {
  }

  /** The fragments from the offset on. */
  function RestOfTrain(topic: seq<byte>, data: seq<byte>, offset: nat, full: nat, number: nat): seq<Piece>
    requires full > 0 && offset <= |data|
  {
    if offset == |data| then [] else Train(topic, data[offset..], full, full, number, true)
  }

  /** One turn of the fragment loop. */
  lemma FragmentStep(topic: seq<byte>, data: seq<byte>, offset: nat, full: nat, number: nat)
    requires full > 0 && offset < |data|
    ensures var end := if |data| - offset < full then |data| else offset + full;
            RestOfTrain(topic, data, offset, full, number) ==
              [Piece(topic, number % 256, end == |data|, data[offset..end])] + RestOfTrain(topic, data, end, full, number + 1)
  {
    var rest, size := data[offset..], if |data| - offset < full then |data| - offset else full;
    assert rest[..size] == data[offset..offset + size] && rest[size..] == data[offset + size..];
    if |rest| <= full {
      assert rest[..|rest|] == rest;
      assert [Piece(topic, number % 256, true, rest)] + [] == [Piece(topic, number % 256, true, rest)];
    }
  }

  /** sbfTport_fragment */
  method Fragment(header: seq<byte>, data: seq<byte>, packetSize: nat, ghost topic: seq<byte>)
    returns (packets: seq<seq<byte>>)
    requires header == Header(topic) && packetSize > |header|
    ensures packets == Alone(RestOfTrain(topic, data, 0, packetSize - |header|, 1))
  {
    ghost var goal := RestOfTrain(topic, data, 0, packetSize - |header|, 1);
    ghost var sent: seq<Piece> := [];
    packets := [];
    var offset, number := 0, 1;
    while offset < |data|
      invariant offset <= |data| && packets == Alone(sent)
      invariant goal == sent + RestOfTrain(topic, data, offset, packetSize - |header|, number)
    {
      var full := packetSize - |header|;
      var size := if |data| - offset < full then |data| - offset else full;
      FragmentStep(topic, data, offset, full, number);
      var packet := FillAlone(header, number % 256, offset + size == |data|, data[offset..offset + size], topic);
      ghost var p := Piece(topic, number % 256, offset + size == |data|, data[offset..offset + size]);
      AloneSnoc(sent, p);
      PiecesAssociative(sent, [p], RestOfTrain(topic, data, offset + size, full, number + 1));
      sent := sent + [p];
      packets := packets + [packet];
      number := number + 1;
      offset := offset + size;
    }
    assert sent + [] == sent;
  }

  /** sbfPub_send: sbfPub_getBuffer, memcpy, sbfPub_sendBuffer */
  method Send(header: seq<byte>, data: seq<byte>, live: bool, packetSize: nat, ghost topic: seq<byte>)
    returns (packets: seq<seq<byte>>)
    requires header == Header(topic) && packetSize > |header|
    ensures packets == Alone(Sent(topic, data, live, packetSize))
  {
    if |data| > MESSAGE_SIZE_LIMIT {
      return [];
    }
    if !live {
      return [];
    }
    if |data| + |header| > packetSize {
      packets := Fragment(header, data, packetSize, topic);
      assert data[0..] == data;
    } else {
      var packet := FillAlone(header, 0, false, data, topic);
      AloneSnoc([], Piece(topic, 0, false, data));
      assert [] + [Piece(topic, 0, false, data)] == [Piece(topic, 0, false, data)];
      packets := [packet];
    }
  }

  /** Every message of a live publisher of up to 65536 bytes is sent, and no other. */
  lemma SentExactly(topic: seq<byte>, data: seq<byte>, live: bool, packetSize: nat)
    requires packetSize > HeaderSize(topic)
    ensures Sent(topic, data, live, packetSize) != [] <==> live && |data| <= 65536
    ensures Alone(Sent(topic, data, live, packetSize)) != [] <==> live && |data| <= 65536
  {
    if live && |data| <= 65536 {
      SentCarries(topic, data, packetSize);
    }
  }

  lemma SentCarries(topic: seq<byte>, data: seq<byte>, packetSize: nat)
    requires packetSize > HeaderSize(topic) && |data| <= MESSAGE_SIZE_LIMIT
    ensures var ps := Sent(topic, data, true, packetSize);
            Carries(ps, Message(topic, data)) && (|ps| <= 255 <==> |data| <= 255 * (packetSize - HeaderSize(topic)))
  {
    var full := packetSize - HeaderSize(topic);
    if |data| > full {
      TrainIsTrain(topic, data, full, full, true);
      TrainWithinNumbers(topic, data, full, full, true);
    }
  }

  lemma {:induction false} TrainIsFull(topic: seq<byte>, data: seq<byte>, full: nat, number: nat, i: nat)
    requires full > 0 && i < |Train(topic, data, full, full, number, true)| - 1
    ensures |Train(topic, data, full, full, number, true)[i].payload| == full
    decreases |data|
  {
    if i > 0 {
      TrainIsFull(topic, data[full..], full, number + 1, i - 1);
    }
  }

  /** A message that fits a packet goes as a whole, and of a longer one all packets but the last are full. */
  lemma SentCompact(topic: seq<byte>, data: seq<byte>, packetSize: nat)
    requires packetSize > HeaderSize(topic) && |data| <= 65536
    ensures var ps := Sent(topic, data, true, packetSize);
            && (ps == [Piece(topic, 0, false, data)] <==> HeaderSize(topic) + |data| <= packetSize)
            && forall i :: 0 <= i < |ps| - 1 ==> HeaderSize(topic) + |ps[i].payload| == packetSize
  {
    var full := packetSize - HeaderSize(topic);
    var ps := Sent(topic, data, true, packetSize);
    if |data| > full {
      assert ps[0].number == 1;
      forall i | 0 <= i < |ps| - 1 ensures |ps[i].payload| == full {
        TrainIsFull(topic, data, full, 1, i);
      }
    }
  }

  lemma SentFits(topic: seq<byte>, data: seq<byte>, packetSize: nat)
    requires HeaderSize(topic) < packetSize < 65536 && GoodTopic(topic) && |data| <= MESSAGE_SIZE_LIMIT
    ensures forall p :: p in Sent(topic, data, true, packetSize) ==> Fits(p) && |Encode(p, true)| <= packetSize
  {
    var full := packetSize - HeaderSize(topic);
    if |data| > full {
      TrainSizes(topic, data, full, full, 1, true);
    }
  }

  /**
    Whatever the size within the limit, a message sent without a batch is delivered as it was sent if and
    only if 255 packets hold it; the assembler is idle again then. The packets are within the packet size.
   */
  lemma SendRoundTrip(topic: seq<byte>, data: seq<byte>, packetSize: nat, st: Topics, behind: seq<byte>)
    requires HeaderSize(topic) < packetSize < 65536 && GoodTopic(topic) && |data| <= 65536
    requires topic in st && st[topic] == Idle
    ensures forall b :: b in Alone(Sent(topic, data, true, packetSize)) ==> 0 < |b| <= packetSize
    ensures var r := Run(st, Received(Alone(Sent(topic, data, true, packetSize)), behind));
            var fits := |data| <= 255 * (packetSize - HeaderSize(topic));
            (fits <==> r.messages == [Message(topic, data)]) && (fits ==> r.topics == st)
  {
    var ps := Sent(topic, data, true, packetSize);
    SentCarries(topic, data, packetSize);
    SentFits(topic, data, packetSize);
    AloneReceived(ps, behind);
    AloneSizes(ps, packetSize);
    if |ps| <= 255 {
      CarriedMessage(st, ps, Message(topic, data));
    } else {
      OverlongMessage(st, ps, Message(topic, data));
    }
  }

  lemma {:induction false} AloneSizes(ps: seq<Piece>, packetSize: nat)
    requires forall p :: p in ps ==> |Encode(p, true)| <= packetSize
    ensures forall b :: b in Alone(ps) ==> 0 < |b| <= packetSize
  {
    if ps != [] {
      AloneSizes(ps[..|ps| - 1], packetSize);
      assert ps[|ps| - 1] in ps;
    }
  }
}
