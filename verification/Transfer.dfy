/** Both ends together: a batch that is filled and sent, and the stream that receives its packets. */
module Transfer {
  import opened Wire
  import opened Reassembly
  import opened Packing
  import opened Wrappers
  import Batch
  import Handler

  /** Topics with subscribers and nothing in their assemblers. */
  function IdleTopics(names: seq<seq<byte>>): Topics {
    map t | t in names :: Idle
  }

  /** The adds of a batch, each with the header of its publisher, and the packets that are sent for them */
  method SendBatch(packetSize: nat, rs: seq<Request>) returns (packets: seq<seq<byte>>)
    requires TopicsFit(rs, packetSize)
    ensures var b := AddAll(EMPTY, packetSize, rs); NoneEmpty(Packets(b)) && packets == EncodeAll(Packets(b))
  {
    var item := new Batch.BatchItem(packetSize);
    for i := 0 to |rs|
      invariant item.Valid() && item.packetSize == packetSize && TopicsFit(rs[..i], packetSize)
      invariant item.state == AddAll(EMPTY, packetSize, rs[..i])
      invariant fresh(item) && (item.current == null || fresh(item.current))
    {
      assert rs[..i + 1] == rs[..i] + [rs[i]];
      AddAllSnoc(EMPTY, packetSize, rs[..i], rs[i]);
      var header := MakeHeader(rs[i].topic);
      item.Add(header[..], rs[i].data, rs[i].live, rs[i].topic);
    }
    assert rs[..|rs|] == rs;
    packets := item.Send();
  }

  lemma IdleMore(names: seq<seq<byte>>, i: nat)
    requires Distinct(names) && i < |names|
    ensures IdleTopics(names[..i + 1]) == IdleTopics(names[..i])[names[i] := Idle]
    ensures names[i] !in names[..i] && forall t :: t in names[..i + 1] <==> t in names[..i] || t == names[i]
  {
    assert names[..i + 1] == names[..i] + [names[i]];
  }

  /** What the subscribers to the names given receive */
  method ReceivePackets(packets: seq<seq<byte>>, names: seq<seq<byte>>, behind: seq<byte>) returns (log: seq<Message>)
    requires Distinct(names)
    ensures log == Run(IdleTopics(names), Received(packets, behind)).messages
  {
    var stream := new Handler.Stream();
    for i := 0 to |names|
      invariant stream.Valid() && fresh(stream) && fresh(stream.owner.Keys) && stream.log == []
      invariant stream.heard == IdleTopics(names[..i]) && forall t :: t in stream.topics ==> t in names[..i]
    {
      IdleMore(names, i);
      stream.AddTopic(names[i], 1);
    }
    assert names[..|names|] == names;
    stream.Arrive(packets, behind);
    log := stream.log;
  }

  /**
    What is added to a batch reaches the subscribers, in order, if and only if there was room for each message;
    with packets of 515 bytes or more that is always so.
   */
  method Deliver(packetSize: nat, rs: seq<Request>, names: seq<seq<byte>>, behind: seq<byte>) returns (log: seq<Message>)
    requires packetSize < 65536 && TopicsFit(rs, packetSize) && Distinct(names)
    requires forall r :: r in rs ==> GoodTopic(r.topic)
    ensures log == Heard(IdleTopics(names), Messages(rs)) <==> RoomEnough(EMPTY, packetSize, rs, IdleTopics(names))
    ensures packetSize >= 515 ==> log == Heard(IdleTopics(names), Messages(rs))
  {
    BatchBySize(packetSize, rs, IdleTopics(names), behind);
    var packets := SendBatch(packetSize, rs);
    log := ReceivePackets(packets, names, behind);
  }
}
