/** Receiver2: the University stop-and-wait receiver. A datagram whose number
    differs from the previous datagram's number is new and its payload is
    written; every datagram, new or duplicate, is acknowledged with the low
    byte of its number, and becomes the previous one. */
module Receiver2 {
  import opened Bytes
  import opened Options
  import opened Codec
  import opened Datagram
  import opened Framing
  import opened Receiving
  import opened UniversityRx

  datatype State = State(prev: int)

  /** `prevPacketNum = -1`: no 16-bit number equals it, so the first datagram
      is always new. */
  const Init := State(-1)

  function Step(s: State, d: seq<byte>): (r: Receiving.Step<State>)
    ensures r.Crash? <==> Number(d) != s.prev && |d| < HeaderSize
    ensures r.Next? ==> r.acks == [EncodeAck1(Number(d))] && r.state == State(Number(d))
    ensures r.Next? && Number(d) == s.prev ==> r.written == [] && !r.finished
    ensures r.Next? && Number(d) != s.prev ==>
      && r.written == d[HeaderSize..if |d| < PacketSize then |d| else PacketSize]
      && (r.finished <==> Signed(d[2]) > 0)
  {
    ArrivePayload(d);
    var a := Arrive(d);
    var n := UnsignedNum(a.view[0], a.view[1]);
    if n != s.prev then
      match Payload(a)
      case None => Crash
      case Some(p) => Next(State(n), p, [EncodeAck1(n)], EofPositive(a.view[2]))
    else
      Next(State(n), [], [EncodeAck1(n)], false)
  }

  /** Repeated copies of the datagram just accepted change nothing but add
      acknowledgements. */
  lemma {:induction false} Duplicates(t: Trace<State>, d: seq<byte>, c: nat)
    requires !t.crashed && t.state.prev == Number(d)
    ensures var t' := Run(Step, t, Copies(d, c));
      t'.output == t.output && t'.finished == t.finished && !t'.crashed && t'.state == t.state
    decreases c
  {
    if c > 0 {
      assert Copies(d, c) == [d] + Copies(d, c - 1);
      Duplicates(Feed(Step, t, d), d, c - 1);
    }
  }

  /** The number Receiver2 holds after packet `i` of an alternating-bit
      transfer, or before the first one. */
  function PrevAfter(i: nat): int
  {
    if i == 0 then -1 else NumberAt(Alternating, i - 1)
  }

  /** The stop-and-wait channel: each of Sender2's datagrams delivered, in
      order, one or more times. From the state reached after the first `i`
      packets, the rest of the transfer completes the file. */
  lemma {:induction false} DeliversRest(input: seq<byte>, counts: seq<nat>, i: nat, t: Trace<State>)
    requires |counts| == |Chunks(input, UniversityCap)|
    requires forall j :: 0 <= j < |counts| ==> counts[j] >= 1
    requires i < |counts|
    requires var cs := Chunks(input, UniversityCap);
      t.output == Data(cs[..i]) && !t.finished && !t.crashed && t.state == State(PrevAfter(i))
    ensures var fs := Frames(input, UniversityCap, Alternating);
      var t' := Run(Step, t, Repeat(fs[i..], counts[i..]));
      t'.finished && !t'.crashed && t'.output == input
    decreases |counts| - i
  {
    var cs := Chunks(input, UniversityCap);
    var fs := Frames(input, UniversityCap, Alternating);
    var d := fs[i];
    var rest := Repeat(fs[i + 1..], counts[i + 1..]);
    RepeatAt(fs, counts, i);
    OnePacket(input, counts[i], i, t);
    var t2 := Run(Step, t, [d] + Copies(d, counts[i] - 1));
    RunAppend(Step, t, [d] + Copies(d, counts[i] - 1), rest);
    if i + 1 == |counts| {
      assert cs[..i + 1] == cs;
      ChunksReassemble(input, UniversityCap);
      RunStopped(Step, t2, rest);
    } else {
      DeliversRest(input, counts, i + 1, t2);
    }
  }

  /** All the copies of packet `i`: the first is accepted, the others are
      suppressed. */
  lemma OnePacket(input: seq<byte>, c: nat, i: nat, t: Trace<State>)
    requires c >= 1
    requires i < |Chunks(input, UniversityCap)|
    requires var cs := Chunks(input, UniversityCap);
      t.output == Data(cs[..i]) && !t.finished && !t.crashed && t.state == State(PrevAfter(i))
    ensures var cs := Chunks(input, UniversityCap);
      var d := Frames(input, UniversityCap, Alternating)[i];
      var t' := Run(Step, t, [d] + Copies(d, c - 1));
      && t'.output == Data(cs[..i + 1]) && !t'.crashed && t'.state == State(PrevAfter(i + 1))
      && (t'.finished <==> i + 1 == |cs|)
  {
    var cs := Chunks(input, UniversityCap);
    var d := Frames(input, UniversityCap, Alternating)[i];
    FrameAt(input, UniversityCap, Alternating, i);
    assert d == Frame(i % 2, cs[i]) && |cs[i].payload| <= UniversityCap;
    var n := i % 2;
    assert n % 65536 == n && PrevAfter(i + 1) == n;
    OneFrame(t, n, cs[i], c);
    DataPrefixSnoc(cs, i);
  }

  /** One frame sent `c >= 1` times to a receiver expecting a new number. */
  lemma OneFrame(t: Trace<State>, n: int, ch: Chunk, c: nat)
    requires c >= 1 && !t.finished && !t.crashed && t.state.prev != n % 65536
    requires |ch.payload| <= UniversityCap
    ensures var d := Frame(n, ch);
      var t' := Run(Step, t, [d] + Copies(d, c - 1));
      && t'.output == t.output + ch.payload && !t'.crashed && t'.state == State(n % 65536)
      && (t'.finished <==> ch.eof)
  {
    var d := Frame(n, ch);
    SeeFrame(n, ch);
    FeedNew(t, n, ch);
    var t1 := Feed(Step, t, d);
    assert Run(Step, t, [d]) == t1 by {
      var one: seq<seq<byte>> := [d];
      assert one[1..] == [];
    }
    Duplicates(t1, d, c - 1);
    RunAppend(Step, t, [d], Copies(d, c - 1));
  }

  /** A data datagram whose number differs from the previous one: its
      payload is appended, its number becomes the previous one, and the loop
      ends exactly on the end-of-file packet. */
  lemma FeedNew(t: Trace<State>, n: int, c: Chunk)
    requires !t.finished && !t.crashed && t.state.prev != n % 65536
    requires |c.payload| <= UniversityCap
    ensures var t' := Feed(Step, t, Frame(n, c));
      && t'.output == t.output + c.payload && !t'.crashed && (t'.finished <==> c.eof)
      && t'.state == State(n % 65536)
  {
    SeeFrame(n, c);
  }

  /** Over a channel that duplicates datagrams but neither loses nor
      reorders them, the file is received exactly. */
  lemma Lossless(input: seq<byte>, counts: seq<nat>)
    requires |counts| == |Chunks(input, UniversityCap)|
    requires forall j :: 0 <= j < |counts| ==> counts[j] >= 1
    ensures var t := Run(Step, Start(Init), Repeat(Frames(input, UniversityCap, Alternating), counts));
      t.finished && !t.crashed && t.output == input
  {
    var cs := Chunks(input, UniversityCap);
    var fs := Frames(input, UniversityCap, Alternating);
    ChunksShape(input, UniversityCap);
    assert cs[..0] == [];
    DeliversRest(input, counts, 0, Start(Init));
    assert fs[0..] == fs && counts[0..] == counts;
  }
}
