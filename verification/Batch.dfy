/** A batch of src/transport/sbfBatch.c run in place, for one stream. */
module Batch {
  import opened Wire
  import opened Reassembly
  import opened Packing
  import opened Wrappers

  lemma Overwrite(pre: seq<byte>, own: seq<byte>, k: nat, x: byte)
    requires k < |own|
    ensures (pre + own)[|pre| + k] == own[k] && (pre + own)[|pre| + k := x] == pre + own[k := x]
  {
  }

  lemma EncodeNumber(p: Piece, number: byte)
    ensures Encode(p, false)[FRAGMENT_NUMBER := number] == Encode(p.(number := number), false)
  {
  }

  lemma EncodeFlags(p: Piece)
    ensures var f := FlagsOf(p.last, false);
            && Encode(p, false)[FLAGS] == f
            && Encode(p, false)[FLAGS := OrInPacketEnd(f)] == Encode(p, true)
            && Encode(p, false)[FLAGS := OrFragmentEnd(f)] == Encode(p.(last := true), false)
  {
  }

  function WithLast(ps: seq<Piece>, p: Piece): seq<Piece>
    requires ps != []
  {
    ps[..|ps| - 1] + [p]
  }

  lemma EncodeWithLast(ps: seq<Piece>, p: Piece)
    requires ps != []
    ensures EncodeOpen(WithLast(ps, p)) == EncodeOpen(ps[..|ps| - 1]) + Encode(p, false)
  {
    assert WithLast(ps, p)[..|ps| - 1] == ps[..|ps| - 1];
  }

  /** Nothing but closed packets. */
  function Closed(b: Packing): Packing {
    Packing(Packets(b), [], b.started, 0)
  }

  lemma ClosedKeeps(b: Packing, packetSize: nat)
    requires Inv(b, packetSize) && NoneEmpty(b.closed)
    ensures Inv(Closed(b), packetSize) && NoneEmpty(Closed(b).closed)
  {
    assert EncodeOpen([]) == [];
  }

  lemma EncodeAllSnoc(pss: seq<seq<Piece>>, ps: seq<Piece>)
    requires NoneEmpty(pss) && ps != []
    ensures NoneEmpty(pss + [ps]) && EncodeAll(pss + [ps]) == EncodeAll(pss) + [EncodePacket(ps)]
  {
    assert (pss + [ps])[..|pss|] == pss;
  }

  /** Where the header of the last piece is. */
  function LastAt(ps: seq<Piece>): nat
    requires ps != []
  {
    Length(ps[..|ps| - 1])
  }

  lemma MarkInPacketEnd(ps: seq<Piece>)
    requires ps != []
    ensures var e, at := EncodeOpen(ps), LastAt(ps) + FLAGS;
            at < |e| && e[at := OrInPacketEnd(e[at])] == EncodePacket(ps)
  {
    var p := ps[|ps| - 1];
    EncodeFlags(p);
    Overwrite(EncodeOpen(ps[..|ps| - 1]), Encode(p, false), FLAGS, OrInPacketEnd(FlagsOf(p.last, false)));
  }

  lemma MarkFragmentEnd(ps: seq<Piece>)
    requires ps != []
    ensures var e, at := EncodeOpen(ps), LastAt(ps) + FLAGS;
            at < |e| && e[at := OrFragmentEnd(e[at])] == EncodeOpen(WithLast(ps, ps[|ps| - 1].(last := true)))
  {
    var p := ps[|ps| - 1];
    EncodeFlags(p);
    Overwrite(EncodeOpen(ps[..|ps| - 1]), Encode(p, false), FLAGS, OrFragmentEnd(FlagsOf(p.last, false)));
    EncodeWithLast(ps, p.(last := true));
  }

  lemma MarkNumber(ps: seq<Piece>, number: byte)
    requires ps != []
    ensures var e, at := EncodeOpen(ps), LastAt(ps) + FRAGMENT_NUMBER;
            at < |e| && e[at := number] == EncodeOpen(WithLast(ps, ps[|ps| - 1].(number := number)))
  {
    var p := ps[|ps| - 1];
    EncodeNumber(p, number);
    Overwrite(EncodeOpen(ps[..|ps| - 1]), Encode(p, false), FRAGMENT_NUMBER, number);
    EncodeWithLast(ps, p.(number := number));
  }

  function Last(b: Packing): Piece
    requires b.open != []
  {
    b.open[|b.open| - 1]
  }

  /** The last piece with other fields. */
  function Relabelled(b: Packing, p: Piece): Packing
    requires b.open != []
  {
    b.(open := WithLast(b.open, p))
  }

  lemma RelabelledKeeps(b: Packing, packetSize: nat, p: Piece)
    requires Inv(b, packetSize) && b.open != [] && p.topic == Last(b).topic && |p.payload| == |Last(b).payload|
    ensures Inv(Relabelled(b, p), packetSize) && LastAt(Relabelled(b, p).open) == LastAt(b.open)
  {
    EncodeWithLast(b.open, p);
    assert WithLast(b.open, p)[..|b.open| - 1] == b.open[..|b.open| - 1];
  }

  /** The packing with the last piece marked as the last fragment, unless its number has wrapped to 0. */
  function Ended(b: Packing): Packing
    requires b.open != []
  {
    if Last(b).number != 0 then Relabelled(b, Last(b).(last := true)) else b
  }

  /** What is left for the while loop of sbfBatch_add to do comes to the goal. */
  predicate ToDo(b: Packing, goal: Packing, packetSize: nat, h: nat, topic: seq<byte>, rest: seq<byte>, left: int,
          number: nat)
  {
    if rest == [] then b.open != [] && Ended(b) == goal
    else
      && Ready(b, packetSize, h) && left == Left(b, packetSize)
      && goal == AddFragments(b, packetSize, h, topic, rest, number)
  }

  /** What one turn of the loop does: all the rest is put in, or the buffer is filled and a new one begun. */
  predicate Turn(b: Packing, b': Packing, packetSize: nat, h: nat, topic: seq<byte>, rest: seq<byte>, left: int,
                 rest': seq<byte>, left': int, number: nat)
    requires h <= left
  {
    if |rest| <= left - h then rest' == [] && b' == Put(b, Piece(topic, number % 256, false, rest))
    else
      && rest' == rest[left - h..] && left' == Left(b', packetSize)
      && b' == WithRoom(Put(b, Piece(topic, number % 256, false, rest[..left - h])), packetSize, h)
  }

  lemma LoopTurn(b: Packing, b': Packing, goal: Packing, packetSize: nat, h: nat, topic: seq<byte>, rest: seq<byte>,
          left: int,
                 rest': seq<byte>, left': int, number: nat)
    requires ToDo(b, goal, packetSize, h, topic, rest, left, number) && rest != []
    requires h < left && Turn(b, b', packetSize, h, topic, rest, left, rest', left', number)
    ensures ToDo(b', goal, packetSize, h, topic, rest', left', number + 1)
  {
    if |rest| <= left - h {
      assert (b.open + [Piece(topic, number % 256, false, rest)])[..|b.open|] == b.open;
    }
  }

  /** Writing x at k of the last header makes the last piece p. */
  predicate Patched(ps: seq<Piece>, k: nat, x: byte, p: Piece)
    requires ps != []
  {
    var e, at := EncodeOpen(ps), LastAt(ps) + k;
    at < |e| && e[at := x] == EncodeOpen(WithLast(ps, p))
  }

  lemma LastNumber(ps: seq<Piece>)
    requires ps != []
    ensures var e, at := EncodeOpen(ps), LastAt(ps) + FRAGMENT_NUMBER; at < |e| && e[at] == ps[|ps| - 1].number
  {
    var p := ps[|ps| - 1];
    Overwrite(EncodeOpen(ps[..|ps| - 1]), Encode(p, false), FRAGMENT_NUMBER, 0);
  }

  /** The publisher's header with the size and the flags set, and the payload behind it. */
  lemma FilledHeader(topic: seq<byte>, data: seq<byte>)
    ensures SizeBytes(|data|) + Header(topic)[2..4] + [0] + Header(topic)[5..] + data
         == Encode(Piece(topic, 0, false, data), false)
  {
  }

  /** memcpy of the publisher's header, its size and flags, memcpy of the data */
  method Fill(a: array<byte>, at: nat, header: seq<byte>, data: seq<byte>, ghost topic: seq<byte>)
    requires at + |header| + |data| <= a.Length && header == Header(topic)
    modifies a
    ensures a[..at] == old(a[..at])
    ensures a[at..at + |header| + |data|] == Encode(Piece(topic, 0, false, data), false)
  {
    CopyIn(a, at, header);
    assert a[at..at + |header|] == header;
    a[at], a[at + 1], a[at + FLAGS] := |data| % 256, |data| / 256 % 256, 0;
    assert a[at..at + |header|] == SizeBytes(|data|) + header[2..4] + [0] + header[5..];
    CopyIn(a, at + |header|, data);
    FilledHeader(topic, data);
  }

  lemma LastPut(s: Packing, p: Piece)
    ensures Put(s, p).open[..|s.open|] == s.open
  {
  }

  /** struct sbfBatchItemImpl; the buffers before mCurrent in the deque are kept as values. */
  class BatchItem {
    const packetSize: nat
    var closed: seq<seq<byte>>
    var current: array?<byte>
    var size: nat
    var last: Option<nat> // mLast, as an offset into the current buffer
    ghost var state: Packing

    constructor (packetSize: nat)
      ensures Valid() && this.packetSize == packetSize && state == EMPTY && current == null
    {
      this.packetSize := packetSize;
      closed, current, size, last := [], null, 0, None;
      state := EMPTY;
      new;
      assert EncodeOpen([]) == [];
    }

    ghost predicate ClosedOk()
      reads this
    {
      Inv(state, packetSize) && NoneEmpty(state.closed) && closed == EncodeAll(state.closed)
    }

    ghost predicate CurrentOk()
      reads this, current
    {
      && (current != null <==> state.started)
      && (current != null ==>
            current.Length == packetSize && size == state.used <= packetSize && current[..size] == EncodeOpen(state.open))
      && last == (if state.open == [] then None else Some(LastAt(state.open)))
    }

    ghost predicate Valid()
      reads this, current
    {
      ClosedOk() && CurrentOk()
    }

    /** mLast->mFlags |= SBF_MESSAGE_FLAG_LAST_IN_PACKET, if mLast is not NULL: the current buffer is a packet then. */
    method MarkLast()
      requires Valid()
      modifies current
      ensures state.open != [] ==> current != null && current[..size] == EncodePacket(state.open)
    {
      if last.Some? {
        MarkInPacketEnd(state.open);
        assert forall i :: 0 <= i < size ==> current[i] == EncodeOpen(state.open)[i];
        current[last.value + FLAGS] := OrInPacketEnd(current[last.value + FLAGS]);
      }
    }

    /** Marks the last piece and counts the current buffer among the closed ones. */
    method Close()
      requires Valid()
      modifies this`closed, this`last, this`state, current
      ensures ClosedOk() && last == None
      ensures state == Closed(old(state))
    {
      MarkLast();
      if last.Some? {
        EncodeAllSnoc(state.closed, state.open);
        closed := closed + [current[..size]];
        last := None;
      }
      ClosedKeeps(state, packetSize);
      state := Closed(state);
    }

    /** sbfTport_getBuffer, sbfBuffer_setSize */
    method Start()
      requires ClosedOk() && last == None && state.open == []
      modifies this`current, this`size, this`state
      ensures Valid() && current != null && fresh(current)
      ensures state == old(state).(started := true)
    {
      current := new byte[packetSize];
      size := 0;
      state := state.(started := true);
    }

    /** The current buffer is done with and an empty one takes its place. */
    method Renew()
      requires Valid()
      modifies this`closed, this`current, this`size, this`last, this`state, current
      ensures Valid() && current != null && fresh(current) && size == 0
      ensures state == Packing(Packets(old(state)), [], true, 0)
    {
      Close();
      Start();
    }

    /** sbfBatchNextBuffer */
    method NextBuffer(headerSize: nat) returns (left: nat)
      requires Valid() && headerSize < packetSize
      modifies this`closed, this`current, this`size, this`last, this`state, current
      ensures Valid() && current != null && (current == old(current) || fresh(current))
      ensures state == WithRoom(old(state), packetSize, headerSize) && left == Left(state, packetSize)
      ensures Ready(state, packetSize, headerSize)
    {
      WithRoomReady(state, packetSize, headerSize);
      left := Room();
      if left <= headerSize {
        Renew();
      }
      left := packetSize - size;
    }

    /** What is left of the current buffer, 0 without one. */
    method Room() returns (left: nat)
      requires Valid()
      ensures left == Left(state, packetSize) && (left > 0 ==> current != null && size == state.used)
    {
      left := if current == null then 0 else packetSize - size;
    }

    /** The bytes of sbfBatchUpdateBuffer */
    method Write(header: seq<byte>, data: seq<byte>, ghost topic: seq<byte>)
      requires Valid() && current != null && header == Header(topic)
      requires |header| + |data| <= Left(state, packetSize)
      modifies current
      ensures current[..size + |header| + |data|] == EncodeOpen(Put(state, Piece(topic, 0, false, data)).open)
    {
      Fill(current, size, header, data, topic);
      assert current[..size + |header| + |data|] == current[..size] + current[size..size + |header| + |data|];
      LastPut(state, Piece(topic, 0, false, data));
    }

    /** sbfBatchUpdateBuffer */
    method UpdateBuffer(header: seq<byte>, data: seq<byte>, ghost topic: seq<byte>)
      requires Valid() && current != null && header == Header(topic)
      requires |header| + |data| <= Left(state, packetSize)
      modifies this`size, this`last, this`state, current
      ensures Valid() && current == old(current)
      ensures state == Put(old(state), Piece(topic, 0, false, data)) && state.open != []
    {
      ghost var p := Piece(topic, 0, false, data);
      PutKeeps(state, packetSize, p);
      Write(header, data, topic);
      LastPut(state, p);
      last := Some(size);
      size := size + |header| + |data|;
      state := Put(state, p);
    }

    /** Writes a byte of the last header. */
    method Patch(k: nat, x: byte, ghost p: Piece)
      requires Valid() && state.open != [] && current != null && k < HEADER
      requires p.topic == Last(state).topic && |p.payload| == |Last(state).payload|
      requires Patched(state.open, k, x, p)
      modifies this`state, current
      ensures Valid() && state == Relabelled(old(state), p) && state.open != []
    {
      RelabelledKeeps(state, packetSize, p);
      ghost var e := current[..size];
      current[last.value + k] := x;
      assert current[..size] == e[last.value + k := x];
      state := Relabelled(state, p);
    }

    /** One fragment: sbfBatchUpdateBuffer, then hdr->mFragNum = number */
    method PutFragment(header: seq<byte>, data: seq<byte>, number: nat, ghost topic: seq<byte>)
      requires Valid() && current != null && header == Header(topic)
      requires |header| + |data| <= Left(state, packetSize)
      modifies this`size, this`last, this`state, current
      ensures Valid() && current == old(current) && state.open != []
      ensures state == Put(old(state), Piece(topic, number % 256, false, data))
    {
      UpdateBuffer(header, data, topic);
      MarkNumber(state.open, number % 256);
      Patch(FRAGMENT_NUMBER, number % 256, Last(state).(number := number % 256));
    }

    /** hdr->mFragNum of the last header */
    method NumberOfLast() returns (x: byte)
      requires Valid() && state.open != [] && current != null
      ensures x == Last(state).number
    {
      LastNumber(state.open);
      assert current[..size][last.value + FRAGMENT_NUMBER] == current[last.value + FRAGMENT_NUMBER];
      x := current[last.value + FRAGMENT_NUMBER];
    }

    /** hdr->mFlags |= SBF_MESSAGE_FLAG_LAST_FRAGMENT */
    method MarkLastFragment()
      requires Valid() && state.open != [] && current != null
      modifies this`state, current
      ensures Valid() && state == Relabelled(old(state), Last(old(state)).(last := true)) && state.open != []
    {
      MarkFragmentEnd(state.open);
      assert current[..size][last.value + FLAGS] == current[last.value + FLAGS];
      Patch(FLAGS, OrFragmentEnd(current[last.value + FLAGS]), Last(state).(last := true));
    }

    /** if (hdr->mFragNum != 0) hdr->mFlags |= SBF_MESSAGE_FLAG_LAST_FRAGMENT */
    method EndFragments()
      requires Valid() && state.open != [] && current != null
      modifies this`state, current
      ensures Valid() && state == Ended(old(state)) && state.open != []
    {
      var number := NumberOfLast();
      if number != 0 {
        MarkLastFragment();
      }
    }

    /** One turn of the while loop of sbfBatch_add */
    method AddFragment(header: seq<byte>, rest0: seq<byte>, left0: nat, number: nat, ghost topic: seq<byte>)
      returns (rest: seq<byte>, left: nat)
      requires Valid() && current != null && header == Header(topic) && |header| < packetSize
      requires rest0 != [] && Ready(state, packetSize, |header|) && left0 == Left(state, packetSize)
      modifies this`closed, this`current, this`size, this`last, this`state, current
      ensures Valid() && current != null && (current == old(current) || fresh(current))
      ensures |rest| < |rest0|
      ensures Turn(old(state), state, packetSize, |header|, topic, rest0, left0, rest, left, number)
    {
      left := left0;
      var wanted := if |rest0| < left - |header| then |rest0| else left - |header|;
      assert wanted == |rest0| ==> rest0[..wanted] == rest0;
      PutFragment(header, rest0[..wanted], number, topic);
      rest := rest0[wanted..];
      if rest != [] {
        left := NextBuffer(|header|);
      }
    }

    method AddLoop(header: seq<byte>, data: seq<byte>, left0: nat, ghost topic: seq<byte>)
      requires Valid() && current != null && header == Header(topic) && data != []
      requires Ready(state, packetSize, |header|) && left0 == Left(state, packetSize) && |header| < packetSize
      modifies this`closed, this`current, this`size, this`last, this`state, current
      ensures Valid() && (current == old(current) || fresh(current))
      ensures state == AddFragments(old(state), packetSize, |header|, topic, data, 1)
    {
      var left, number, rest := left0, 1, data;
      ghost var goal := AddFragments(state, packetSize, |header|, topic, data, 1);
      while rest != []
        invariant Valid() && current != null && (current == old(current) || fresh(current))
        invariant ToDo(state, goal, packetSize, |header|, topic, rest, left, number)
        decreases |rest|
      {
        ghost var before, rest0, left0 := state, rest, left;
        rest, left := AddFragment(header, rest, left, number, topic);
        LoopTurn(before, state, goal, packetSize, |header|, topic, rest0, left0, rest, left, number);
        number := number + 1;
      }
      EndFragments();
    }

    /** sbfBatch_add; `live` says that the publisher is ready and not destroyed */
    method Add(header: seq<byte>, data: seq<byte>, live: bool, ghost topic: seq<byte>)
      requires Valid() && header == Header(topic) && |header| < packetSize
      modifies this`closed, this`current, this`size, this`last, this`state, current
      ensures Valid() && (current == old(current) || fresh(current))
      ensures state == AddRequest(old(state), packetSize, Request(topic, data, live))
    {
      if |data| > MESSAGE_SIZE_LIMIT {
        return;
      }
      if |data| == 0 || !live {
        return;
      }
      var left := NextBuffer(|header|);
      if left > |header| + |data| {
        UpdateBuffer(header, data, topic);
      } else {
        AddLoop(header, data, left, topic);
      }
    }

    /** sbfBatch_send: the packets go to the transport and the item is as it was made. */
    method Send() returns (packets: seq<seq<byte>>)
      requires Valid()
      modifies this`closed, this`current, this`size, this`last, this`state, current
      ensures Valid() && state == EMPTY && current == null
      ensures NoneEmpty(Packets(old(state))) && packets == EncodeAll(Packets(old(state)))
    {
      Close();
      packets := closed;
      closed, current, size, last := [], null, 0, None;
      state := EMPTY;
      assert EncodeOpen([]) == [];
    }
  }
}
