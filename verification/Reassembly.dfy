/**
  What a stream of messages and fragments means to the receiving end: the assembler of
  src/transport/sbfTportFragments.c and the delivery of src/transport/sbfHandler.c, as functions. Handler.dfy runs
  them in place.
 */
module Reassembly {
  import opened Wire
  import opened Wrappers

  /** mFragNum and the first mFragSize bytes of mFragData; idle without data. */
  datatype Progress = Idle | Partial(number: nat, data: seq<byte>)

  predicate Reachable(a: Progress) {
    a.Partial? ==> 1 <= a.number <= 255
  }

  function NumberOf(a: Progress): nat {
    if a.Idle? then 0 else a.number
  }

  function DataOf(a: Progress): seq<byte> {
    if a.Idle? then [] else a.data
  }

  /** One fragment: the progress after it and the message that it completes. */
  function Assemble(a: Progress, p: Piece): (Progress, Option<seq<byte>>) {
    var data := DataOf(a) + p.payload;
    if p.number != NumberOf(a) + 1 then (Idle, None)
    else if p.last then (Idle, Some(data))
    else (Partial(p.number, data), None)
  }

  datatype Message = Message(topic: seq<byte>, data: seq<byte>)

  /** The topics of a stream that have subscribers, each with its assembler. */
  type Topics = map<seq<byte>, Progress>

  datatype Outcome = Outcome(topics: Topics, messages: seq<Message>)

  /** What the handler does with one piece. */
  function Receive(st: Topics, p: Piece): Outcome {
    if p.topic !in st then Outcome(st, [])
    else if p.number == 0 then Outcome(st, [Message(p.topic, p.payload)])
    else
      var (a, done) := Assemble(st[p.topic], p);
      Outcome(st[p.topic := a], if done.Some? then [Message(p.topic, done.value)] else [])
  }

  function Run(st: Topics, ps: seq<Piece>): Outcome {
    if ps == [] then Outcome(st, [])
    else
      var first := Receive(st, ps[0]);
      var rest := Run(first.topics, ps[1..]);
      Outcome(rest.topics, first.messages + rest.messages)
  }

  lemma MessagesAssociative(a: seq<Message>, b: seq<Message>, c: seq<Message>)
    ensures (a + b) + c == a + (b + c)
  {
  }

  lemma {:induction false} RunConcat(st: Topics, ps: seq<Piece>, qs: seq<Piece>)
    ensures var first := Run(st, ps);
            var rest := Run(first.topics, qs);
            Run(st, ps + qs) == Outcome(rest.topics, first.messages + rest.messages)
  {
    if ps == [] {
      assert ps + qs == qs;
    } else {
      var now := Receive(st, ps[0]);
      var rest := Run(now.topics, ps[1..]);
      RunConcat(now.topics, ps[1..], qs);
      assert (ps + qs)[1..] == ps[1..] + qs && (ps + qs)[0] == ps[0];
      MessagesAssociative(now.messages, rest.messages, Run(rest.topics, qs).messages);
    }
  }

  lemma RunNext(st: Topics, ps: seq<Piece>, i: nat)
    requires i < |ps|
    ensures var before := Run(st, ps[..i]);
            var now := Receive(before.topics, ps[i]);
            Run(st, ps[..i + 1]) == Outcome(now.topics, before.messages + now.messages)
  {
    assert ps[..i] + [ps[i]] == ps[..i + 1];
    RunConcat(st, ps[..i], [ps[i]]);
    RunOne(Run(st, ps[..i]).topics, ps[i]);
  }

  lemma RunOne(st: Topics, p: Piece)
    ensures Run(st, [p]) == Receive(st, p)
  {
    assert [p][1..] == [];
  }

  /** The pieces that the handler finds in the packets. */
  function Received(packets: seq<seq<byte>>, behind: seq<byte>): seq<Piece> {
    if packets == [] then []
    else Received(packets[..|packets| - 1], behind) + Parse(packets[|packets| - 1], behind)
  }

  lemma ReceivedSnoc(packets: seq<seq<byte>>, packet: seq<byte>, behind: seq<byte>)
    ensures Received(packets + [packet], behind) == Received(packets, behind) + Parse(packet, behind)
  {
    assert (packets + [packet])[..|packets|] == packets;
  }

  function Payload(ps: seq<Piece>): seq<byte> {
    if ps == [] then [] else Payload(ps[..|ps| - 1]) + ps[|ps| - 1].payload
  }

  lemma PayloadSnoc(ps: seq<Piece>, i: nat)
    requires i < |ps|
    ensures Payload(ps[..i + 1]) == Payload(ps[..i]) + ps[i].payload
  {
    assert ps[..i + 1][..i] == ps[..i];
  }

  // ---------------------------------------------------------------------------------------------
  // Any stream at all
  // ---------------------------------------------------------------------------------------------

  /** The progress of one assembler over the fragments of its topic. */
  function Progressed(a: Progress, fs: seq<Piece>): Progress {
    if fs == [] then a else Assemble(Progressed(a, fs[..|fs| - 1]), fs[|fs| - 1]).0
  }

  /** Fragments numbered 1, 2, ... of which none is marked as the last. */
  predicate OpenRun(fs: seq<Piece>) {
    forall i :: 0 <= i < |fs| ==> fs[i].number == i + 1 && !fs[i].last
  }

  /** Fragments numbered 1, 2, ... of which exactly the last is marked so. */
  predicate ClosedRun(fs: seq<Piece>) {
    fs != [] && OpenRun(fs[..|fs| - 1]) && fs[|fs| - 1].number == |fs| && fs[|fs| - 1].last
  }

  /** The n last fragments. */
  function Tail(fs: seq<Piece>, n: nat): seq<Piece>
    requires n <= |fs|
  {
    fs[|fs| - n..]
  }

  lemma TailSnoc(fs: seq<Piece>, f: Piece, n: nat)
    requires n <= |fs|
    ensures var tail := Tail(fs + [f], n + 1); tail[..n] == Tail(fs, n) && tail[n] == f
  {
  }

  /** What is held is the open run that the fragments end in. */
  predicate Held(a: Progress, fs: seq<Piece>) {
    var n := NumberOf(a);
    Reachable(a) && n <= |fs| && OpenRun(Tail(fs, n)) && DataOf(a) == Payload(Tail(fs, n))
  }

  lemma HeldNext(a: Progress, fs: seq<Piece>, f: Piece)
    requires Held(a, fs)
    ensures Held(Assemble(a, f).0, fs + [f])
  {
    var n, a' := NumberOf(a), Assemble(a, f).0;
    if a'.Idle? {
      assert Tail(fs + [f], 0) == [];
    } else {
      var tail := Tail(fs + [f], n + 1);
      TailSnoc(fs, f, n);
      assert Payload(tail) == Payload(tail[..n]) + f.payload;
      assert OpenRun(tail) by {
        assert OpenRun(tail[..n]);
        forall i | 0 <= i < n ensures tail[i].number == i + 1 && !tail[i].last {
          assert tail[i] == tail[..n][i];
        }
      }
    }
  }

  lemma {:induction false} HeldIsARun(fs: seq<Piece>)
    ensures Held(Progressed(Idle, fs), fs)
  {
    if fs == [] {
    } else {
      var init, f := fs[..|fs| - 1], fs[|fs| - 1];
      HeldIsARun(init);
      HeldNext(Progressed(Idle, init), init, f);
      assert init + [f] == fs;
    }
  }

  /** Whatever the assembler delivers is a closed run of consecutive fragments, put together. */
  lemma DeliveredIsARun(fs: seq<Piece>, f: Piece)
    ensures var a := Progressed(Idle, fs);
            var n, done := NumberOf(a) + 1, Assemble(a, f).1;
            done.Some? ==> n <= |fs + [f]| && ClosedRun(Tail(fs + [f], n)) && done.value == Payload(Tail(fs + [f], n))
  {
    HeldIsARun(fs);
    TailSnoc(fs, f, NumberOf(Progressed(Idle, fs)));
  }

  /** From any state at all, a complete run leaves the assembler idle: only the run that cut in can be lost. */
  lemma {:induction false} AfterAClosedRun(a: Progress, fs: seq<Piece>, i: nat)
    requires Reachable(a) && ClosedRun(fs) && 1 <= i <= |fs|
    ensures i == |fs| ==> Progressed(a, fs[..i]) == Idle
    ensures i < |fs| ==> Progressed(a, fs[..i]) == if a.Idle? then Partial(i, Payload(fs[..i])) else Idle
  {
    assert fs[..i][..i - 1] == fs[..i - 1];
    assert fs[..i - 1] == fs[..|fs| - 1][..i - 1];
    assert i < |fs| ==> fs[i - 1] == fs[..|fs| - 1][i - 1];
    PayloadSnoc(fs, i - 1);
    if i > 1 {
      AfterAClosedRun(a, fs, i - 1);
    } else {
      assert fs[..0] == [];
    }
  }

  // ---------------------------------------------------------------------------------------------
  // Any pieces of any topics
  // ---------------------------------------------------------------------------------------------

  /** The fragments of one topic among the pieces, whatever stands between them. */
  function Fragments(ps: seq<Piece>, topic: seq<byte>): seq<Piece> {
    if ps == [] then []
    else
      var p := ps[|ps| - 1];
      Fragments(ps[..|ps| - 1], topic) + if p.topic == topic && p.number != 0 then [p] else []
  }

  /** How many fragments of the run under way there are: each has the next number and none is the last. */
  function UnderWay(fs: seq<Piece>): (n: nat)
    ensures n <= |fs| && n <= 255
  {
    if fs == [] then 0
    else
      var n, f := UnderWay(fs[..|fs| - 1]), fs[|fs| - 1];
      if f.number == n + 1 && !f.last then n + 1 else 0
  }

  /** The fragment ends a run that began when none was under way. */
  predicate Ends(fs: seq<Piece>, f: Piece) {
    f.number == UnderWay(fs) + 1 && f.last
  }

  /** The run under way is an open one, and it began when none was. */
  lemma {:induction false} UnderWayIsARun(fs: seq<Piece>)
    ensures OpenRun(Tail(fs, UnderWay(fs))) && UnderWay(fs[..|fs| - UnderWay(fs)]) == 0
  {
    if UnderWay(fs) == 0 {
      assert fs[..|fs|] == fs;
    } else {
      var init, f := fs[..|fs| - 1], fs[|fs| - 1];
      UnderWayIsARun(init);
      RunGrows(init, f, UnderWay(init));
      assert init + [f] == fs;
    }
  }

  lemma RunGrows(fs: seq<Piece>, f: Piece, n: nat)
    requires n <= |fs| && OpenRun(Tail(fs, n)) && f.number == n + 1 && !f.last
    ensures OpenRun(Tail(fs + [f], n + 1)) && (fs + [f])[..|fs + [f]| - (n + 1)] == fs[..|fs| - n]
  {
    TailSnoc(fs, f, n);
    OpenRunSnoc(Tail(fs + [f], n + 1));
  }

  lemma OpenRunSnoc(fs: seq<Piece>)
    requires fs != [] && OpenRun(fs[..|fs| - 1]) && fs[|fs| - 1].number == |fs| && !fs[|fs| - 1].last
    ensures OpenRun(fs)
  {
    forall i | 0 <= i < |fs| ensures fs[i].number == i + 1 && !fs[i].last {
      assert i < |fs| - 1 ==> fs[i] == fs[..|fs| - 1][i];
    }
  }

  lemma {:induction false} RunIsUnderWay(before: seq<Piece>, fs: seq<Piece>)
    requires OpenRun(fs) && UnderWay(before) == 0
    ensures UnderWay(before + fs) == |fs|
  {
    if fs == [] {
      assert before + fs == before;
    } else {
      var init, f := fs[..|fs| - 1], fs[|fs| - 1];
      RunIsUnderWay(before, init);
      assert (before + fs)[..|before + fs| - 1] == before + init;
    }
  }

  /**
    A fragment completes a message exactly if the fragments of its topic up to it end in a closed run, of as many
    as its number says, that began when none was under way. A first fragment that cuts in on another run is lost
    with it.
   */
  lemma EndsExactly(fs: seq<Piece>, f: Piece)
    ensures Ends(fs, f) <==>
              var n: nat := f.number as nat;
              && 0 < n <= |fs| + 1 && ClosedRun(Tail(fs + [f], n)) && UnderWay((fs + [f])[..|fs| + 1 - n]) == 0
  {
    if Ends(fs, f) {
      EndsARun(fs, f);
    }
    var n: nat := f.number as nat;
    if 0 < n <= |fs| + 1 && ClosedRun(Tail(fs + [f], n)) && UnderWay((fs + [f])[..|fs| + 1 - n]) == 0 {
      ARunEnds(fs, f, n);
    }
  }

  lemma EndsARun(fs: seq<Piece>, f: Piece)
    requires Ends(fs, f)
    ensures var n := UnderWay(fs) + 1;
            ClosedRun(Tail(fs + [f], n)) && UnderWay((fs + [f])[..|fs| + 1 - n]) == 0
  {
    UnderWayIsARun(fs);
    RunCloses(fs, f, UnderWay(fs));
  }

  lemma RunCloses(fs: seq<Piece>, f: Piece, n: nat)
    requires n <= |fs| && OpenRun(Tail(fs, n)) && f.number == n + 1 && f.last
    ensures ClosedRun(Tail(fs + [f], n + 1)) && (fs + [f])[..|fs| + 1 - (n + 1)] == fs[..|fs| - n]
  {
    TailSnoc(fs, f, n);
  }

  lemma ARunEnds(fs: seq<Piece>, f: Piece, n: nat)
    requires 0 < n <= |fs| + 1 && ClosedRun(Tail(fs + [f], n)) && UnderWay((fs + [f])[..|fs| + 1 - n]) == 0
    ensures Ends(fs, f)
  {
    TailSnoc(fs, f, n - 1);
    var before := fs[..|fs| - (n - 1)];
    assert (fs + [f])[..|fs| + 1 - n] == before;
    RunIsUnderWay(before, Tail(fs, n - 1));
    assert before + Tail(fs, n - 1) == fs;
  }

  /** What an assembler holds after these fragments. */
  function HeldAfter(fs: seq<Piece>): Progress {
    var n := UnderWay(fs);
    if n == 0 then Idle else Partial(n, Payload(Tail(fs, n)))
  }

  /** The message, if any, that a piece completes after the pieces before it. */
  function Completed(topics: set<seq<byte>>, before: seq<Piece>, p: Piece): seq<Message> {
    var fs := Fragments(before, p.topic);
    if p.topic !in topics then []
    else if p.number == 0 then [Message(p.topic, p.payload)]
    else if Ends(fs, p) then [Message(p.topic, Payload(Tail(fs + [p], UnderWay(fs) + 1)))]
    else []
  }

  function AllCompleted(topics: set<seq<byte>>, ps: seq<Piece>): seq<Message> {
    if ps == [] then []
    else
      var before := ps[..|ps| - 1];
      AllCompleted(topics, before) + Completed(topics, before, ps[|ps| - 1])
  }

  lemma AssembleAfter(fs: seq<Piece>, f: Piece)
    ensures Assemble(HeldAfter(fs), f) ==
              (HeldAfter(fs + [f]), if Ends(fs, f) then Some(Payload(Tail(fs + [f], UnderWay(fs) + 1))) else None)
  {
    var n := UnderWay(fs);
    var tail := Tail(fs + [f], n + 1);
    assert (fs + [f])[..|fs|] == fs;
    TailSnoc(fs, f, n);
    assert Payload(tail) == Payload(tail[..n]) + f.payload;
  }

  /** Each assembler holds the run under way in the fragments of its topic. */
  ghost predicate Holds(st: Topics, ps: seq<Piece>) {
    forall t :: HoldsAt(st, ps, t)
  }

  predicate HoldsAt(st: Topics, ps: seq<Piece>, topic: seq<byte>) {
    topic in st ==> st[topic] == HeldAfter(Fragments(ps, topic))
  }

  lemma ReceivesExactly(st: Topics, before: seq<Piece>, p: Piece)
    requires Holds(st, before)
    ensures var out := Receive(st, p);
            out.messages == Completed(st.Keys, before, p) && out.topics.Keys == st.Keys && Holds(out.topics, before + [p])
  {
    var fs := Fragments(before, p.topic);
    assert HoldsAt(st, before, p.topic);
    if p.topic in st && p.number != 0 {
      AssembleAfter(fs, p);
      HoldsNext(st, before, p, HeldAfter(fs + [p]));
    } else {
      HoldsStill(st, before, p);
    }
  }

  lemma HoldsNext(st: Topics, before: seq<Piece>, p: Piece, a: Progress)
    requires Holds(st, before) && p.number != 0 && a == HeldAfter(Fragments(before, p.topic) + [p])
    ensures Holds(st[p.topic := a], before + [p])
  {
    var st', ps := st[p.topic := a], before + [p];
    forall t ensures HoldsAt(st', ps, t) {
      assert HoldsAt(st, before, t);
      HoldsAtNext(st, before, p, a, t);
    }
  }

  lemma HoldsAtNext(st: Topics, before: seq<Piece>, p: Piece, a: Progress, topic: seq<byte>)
    requires HoldsAt(st, before, topic) && p.number != 0 && a == HeldAfter(Fragments(before, p.topic) + [p])
    ensures HoldsAt(st[p.topic := a], before + [p], topic)
  {
    FragmentsSnoc(before, p, topic);
  }

  lemma HoldsStill(st: Topics, before: seq<Piece>, p: Piece)
    requires Holds(st, before) && (p.topic in st ==> p.number == 0)
    ensures Holds(st, before + [p])
  {
    var ps := before + [p];
    forall t ensures HoldsAt(st, ps, t) {
      assert HoldsAt(st, before, t);
      FragmentsSnoc(before, p, t);
    }
  }

  lemma FragmentsSnoc(ps: seq<Piece>, p: Piece, topic: seq<byte>)
    ensures Fragments(ps + [p], topic)
         == if p.topic == topic && p.number != 0 then Fragments(ps, topic) + [p] else Fragments(ps, topic)
  {
    assert (ps + [p])[..|ps|] == ps;
  }

  /**
    For any pieces at all, of any topics, with whole messages and lost fragments between them: an assembler that
    was idle holds the run under way in the fragments of its topic, and what is delivered is, in order, the
    payload of each piece without a number and of each closed run that is complete.
   */
  lemma {:induction false} DeliveredExactly(st: Topics, ps: seq<Piece>)
    requires AllIdle(st)
    ensures Run(st, ps).messages == AllCompleted(st.Keys, ps)
    ensures Run(st, ps).topics.Keys == st.Keys && Holds(Run(st, ps).topics, ps)
  {
    if ps != [] {
      var before, p := ps[..|ps| - 1], ps[|ps| - 1];
      DeliveredExactly(st, before);
      RunNext(st, ps, |before|);
      assert before + [p] == ps == ps[..|before| + 1];
      ReceivesExactly(Run(st, before).topics, before, p);
    }
  }

  /** So is what the assembler of one topic holds, of its fragments alone. */
  lemma {:induction false} ProgressedIsHeld(fs: seq<Piece>)
    ensures Progressed(Idle, fs) == HeldAfter(fs)
  {
    if fs != [] {
      var init, f := fs[..|fs| - 1], fs[|fs| - 1];
      ProgressedIsHeld(init);
      AssembleAfter(init, f);
      assert init + [f] == fs;
    }
  }

  // ---------------------------------------------------------------------------------------------
  // What a publisher sends for one message
  // ---------------------------------------------------------------------------------------------

  predicate IsWhole(ps: seq<Piece>, m: Message) {
    ps == [Piece(m.topic, 0, false, m.data)]
  }

  /**
    The fragments of a message. Their numbers are counted in a uint8_t; what the last flag is when the count
    has wrapped does not matter below.
   */
  predicate IsTrain(ps: seq<Piece>, m: Message) {
    && ps != [] && Payload(ps) == m.data
    && (forall i :: 0 <= i < |ps| ==> ps[i].topic == m.topic && ps[i].payload != [] && ps[i].number == (i + 1) % 256)
    && (forall i :: 0 <= i < |ps| ==> i < |ps| - 1 || |ps| <= 255 ==> (ps[i].last <==> i == |ps| - 1))
  }

  predicate Carries(ps: seq<Piece>, m: Message) {
    IsWhole(ps, m) || IsTrain(ps, m)
  }

  function Underway(ps: seq<Piece>, i: nat): Progress
    requires i <= |ps|
  {
    if i == 0 then Idle else Partial(i, Payload(ps[..i]))
  }

  lemma UnderwayNext(st: Topics, ps: seq<Piece>, m: Message, i: nat)
    requires IsTrain(ps, m) && i < |ps| - 1 && i < 255
    ensures Receive(st[m.topic := Underway(ps, i)], ps[i]) == Outcome(st[m.topic := Underway(ps, i + 1)], [])
  {
    PayloadSnoc(ps, i);
    var st' := st[m.topic := Underway(ps, i)];
    assert st'[m.topic := Underway(ps, i + 1)] == st[m.topic := Underway(ps, i + 1)];
  }

  /** Nothing is delivered on the way to fragment 255, or to the end of the message. */
  lemma {:induction false} OnTheWay(st: Topics, ps: seq<Piece>, m: Message, i: nat)
    requires IsTrain(ps, m) && m.topic in st && st[m.topic] == Idle && i < |ps| && i <= 255
    ensures Run(st, ps[..i]) == Outcome(st[m.topic := Underway(ps, i)], [])
  {
    if i == 0 {
      assert st[m.topic := Idle] == st;
    } else {
      OnTheWay(st, ps, m, i - 1);
      RunNext(st, ps, i - 1);
      UnderwayNext(st, ps, m, i - 1);
    }
  }

  lemma {:induction false} PartOfPayload(ps: seq<Piece>, i: nat)
    requires i < |ps|
    ensures |ps[i].payload| <= |Payload(ps)|
    ensures |ps| >= 2 && (forall p :: p in ps ==> p.payload != []) ==> |ps[i].payload| < |Payload(ps)|
  {
    var n := |ps| - 1;
    if i < n {
      PartOfPayload(ps[..n], i);
      assert ps[n] in ps;
    } else if n > 0 {
      PartOfPayload(ps[..n], 0);
      assert ps[0] in ps;
    }
  }

  lemma WholeMessage(st: Topics, ps: seq<Piece>, m: Message)
    requires IsWhole(ps, m) && m.topic in st
    ensures Run(st, ps) == Outcome(st, [m])
  {
    RunOne(st, ps[0]);
  }

  lemma LastFragment(st: Topics, ps: seq<Piece>, m: Message)
    requires IsTrain(ps, m) && |ps| <= 255 && m.topic in st && st[m.topic] == Idle
    ensures var n := |ps| - 1; Receive(st[m.topic := Underway(ps, n)], ps[n]) == Outcome(st, [m])
  {
    var n := |ps| - 1;
    PayloadSnoc(ps, n);
    assert ps[..n + 1] == ps;
    assert st[m.topic := Underway(ps, n)][m.topic := Idle] == st;
  }

  /** A message of up to 255 fragments is delivered, and nothing is left behind. */
  lemma CarriedMessage(st: Topics, ps: seq<Piece>, m: Message)
    requires Carries(ps, m) && |ps| <= 255 && m.topic in st && st[m.topic] == Idle
    ensures Run(st, ps) == Outcome(st, [m])
  {
    if IsWhole(ps, m) {
      WholeMessage(st, ps, m);
    } else {
      var n := |ps| - 1;
      OnTheWay(st, ps, m, n);
      LastFragment(st, ps, m);
      RunNext(st, ps, n);
      assert ps[..n + 1] == ps;
    }
  }

  /** Of a longer one, fragment 256 has number 0 and is delivered as a message of its own. */
  lemma OverlongMessage(st: Topics, ps: seq<Piece>, m: Message)
    requires IsTrain(ps, m) && |ps| > 255 && m.topic in st && st[m.topic] == Idle
    ensures var out := Run(st, ps).messages; out != [] && out[0] == Message(m.topic, ps[255].payload) && out[0] != m
  {
    OnTheWay(st, ps, m, 255);
    RunConcat(st, ps[..255], ps[255..]);
    assert ps[..255] + ps[255..] == ps;
    assert ps[255..][0] == ps[255];
    PartOfPayload(ps, 255);
  }

  lemma {:induction false} Unheard(st: Topics, ps: seq<Piece>, m: Message)
    requires (forall p :: p in ps ==> p.topic == m.topic) && m.topic !in st
    ensures Run(st, ps) == Outcome(st, [])
  {
    if ps != [] {
      assert ps[0] in ps;
      Unheard(st, ps[1..], m);
    }
  }

  function Flatten<T>(ss: seq<seq<T>>): seq<T> {
    if ss == [] then [] else ss[0] + Flatten(ss[1..])
  }

  /** The messages that somebody subscribes to. */
  function Heard(st: Topics, ms: seq<Message>): seq<Message> {
    if ms == [] then []
    else if ms[0].topic in st then [ms[0]] + Heard(st, ms[1..])
    else Heard(st, ms[1..])
  }

  predicate AllIdle(st: Topics) {
    forall t :: t in st ==> st[t] == Idle
  }

  predicate Each(trains: seq<seq<Piece>>, ms: seq<Message>) {
    |trains| == |ms| && forall i :: 0 <= i < |ms| ==> Carries(trains[i], ms[i])
  }

  /** No message that somebody subscribes to takes more than 255 fragments. */
  predicate WithinNumbers(st: Topics, trains: seq<seq<Piece>>, ms: seq<Message>)
    requires |trains| == |ms|
  {
    forall i :: 0 <= i < |ms| && ms[i].topic in st ==> |trains[i]| <= 255
  }

  lemma WithinNumbersFront(st: Topics, trains: seq<seq<Piece>>, ms: seq<Message>)
    requires |trains| == |ms| > 0
    ensures WithinNumbers(st, trains, ms)
       <==> (ms[0].topic in st ==> |trains[0]| <= 255) && WithinNumbers(st, trains[1..], ms[1..])
  {
    var front := ms[0].topic in st ==> |trains[0]| <= 255;
    if front && WithinNumbers(st, trains[1..], ms[1..]) {
      forall i | 0 <= i < |ms| && ms[i].topic in st ensures |trains[i]| <= 255 {
        if i > 0 {
          assert trains[i] == trains[1..][i - 1] && ms[i] == ms[1..][i - 1];
        }
      }
    }
  }

  lemma CarriedTopic(ps: seq<Piece>, m: Message)
    requires Carries(ps, m)
    ensures forall p :: p in ps ==> p.topic == m.topic
  {
  }

  /**
    The messages come out as they went in, in order and each once, exactly when none of them takes more
    fragments than can be numbered; and then the assemblers are idle again.
   */
  lemma {:induction false} DeliveredAsSent(st: Topics, trains: seq<seq<Piece>>, ms: seq<Message>)
    requires AllIdle(st) && Each(trains, ms)
    ensures WithinNumbers(st, trains, ms) <==> Run(st, Flatten(trains)).messages == Heard(st, ms)
    ensures WithinNumbers(st, trains, ms) ==> Run(st, Flatten(trains)).topics == st
  {
    if ms != [] {
      var ps, m, rest, ns := trains[0], ms[0], trains[1..], ms[1..];
      WithinNumbersFront(st, trains, ms);
      RunConcat(st, ps, Flatten(rest));
      assert Carries(ps, m);
      if m.topic !in st {
        CarriedTopic(ps, m);
        Unheard(st, ps, m);
        DeliveredAsSent(st, rest, ns);
      } else if |ps| <= 255 {
        CarriedMessage(st, ps, m);
        DeliveredAsSent(st, rest, ns);
        var out := Run(st, Flatten(rest)).messages;
        assert ([m] + out)[1..] == out && ([m] + Heard(st, ns))[1..] == Heard(st, ns);
      } else {
        OverlongMessage(st, ps, m);
        assert Run(st, Flatten(trains)).messages[0] != m == Heard(st, ms)[0];
      }
    }
  }
}
