/** Receiver1b: the Coursework alternating-bit receiver. The packet number is
    the second header byte alone, read as a signed Java byte; a datagram whose
    number differs from the previous datagram's is written, every datagram is
    acknowledged with its number, and a flag byte of exactly 1 ends the loop,
    duplicate or not. */
module Receiver1b {
  import opened Bytes
  import opened Options
  import opened Codec
  import opened Datagram
  import opened Framing
  import opened Receiving
  import opened CourseworkRx

  datatype State = State(buf: RxBuffer, prev: int)

  /** `receivedPacketNo = 2`: neither 0 nor 1, so the first datagram is
      always written. */
  const Init := State(Fresh, 2)

  function Step(s: State, d: seq<byte>): (r: Receiving.Step<State>)
    ensures var v := Overlay(s.buf, d);
      && (r.Crash? <==> Signed(v[1]) != s.prev && |d| < HeaderSize)
      && (r.Next? ==> && r.state == State(v, Signed(v[1]))
                      && r.acks == [[v[1]]]
                      && (r.finished <==> v[2] == 1))
      && (r.Next? && Signed(v[1]) == s.prev ==> r.written == [])
      && (r.Next? && Signed(v[1]) != s.prev ==>
            r.written == d[HeaderSize..if |d| < BufferSize then |d| else BufferSize])
  {
    ArrivePayload(s.buf, d);
    var a := Arrive(s.buf, d);
    var n := Signed(a.view[1]);
    assert EncodeAck1(n) == [a.view[1]];
    if n != s.prev then
      match Payload(a)
      case None => Crash
      case Some(p) => Next(State(a.view, n), p, [EncodeAck1(n)], EofIsOne(a.view[2]))
    else
      Next(State(a.view, n), [], [EncodeAck1(n)], EofIsOne(a.view[2]))
  }

  /** Repeated copies of an accepted packet, other than the end-of-file one,
      change neither the output nor the number held. */
  lemma {:induction false} Duplicates(t: Trace<State>, n: nat, ch: Chunk, k: nat)
    requires n < 2 && |ch.payload| <= CourseworkCap
    requires !t.crashed && t.state.prev == n
    requires t.finished || !ch.eof
    ensures var t' := Run(Step, t, Copies(Frame(n, ch), k));
      t'.output == t.output && t'.finished == t.finished && !t'.crashed && t'.state.prev == n
    decreases k
  {
    if k > 0 {
      var d := Frame(n, ch);
      assert Copies(d, k) == [d] + Copies(d, k - 1);
      SeeFrame(t.state.buf, n, ch);
      Duplicates(Feed(Step, t, d), n, ch, k - 1);
    }
  }

  function PrevAfter(i: nat): int
  {
    if i == 0 then 2 else NumberAt(Alternating, i - 1)
  }

  lemma FeedNew(t: Trace<State>, n: nat, c: Chunk)
    requires n < 2 && !t.finished && !t.crashed && t.state.prev != n
    requires |c.payload| <= CourseworkCap
    ensures var t' := Feed(Step, t, Frame(n, c));
      && t'.output == t.output + c.payload && !t'.crashed && (t'.finished <==> c.eof)
      && t'.state.prev == n
  {
    SeeFrame(t.state.buf, n, c);
  }

  lemma OnePacket(input: seq<byte>, c: nat, i: nat, t: Trace<State>)
    requires c >= 1
    requires i < |Chunks(input, CourseworkCap)|
    requires var cs := Chunks(input, CourseworkCap);
      t.output == Data(cs[..i]) && !t.finished && !t.crashed && t.state.prev == PrevAfter(i)
    ensures var cs := Chunks(input, CourseworkCap);
      var d := Frames(input, CourseworkCap, Alternating)[i];
      var t' := Run(Step, t, [d] + Copies(d, c - 1));
      && t'.output == Data(cs[..i + 1]) && !t'.crashed && t'.state.prev == PrevAfter(i + 1)
      && (t'.finished <==> i + 1 == |cs|)
  {
    var cs := Chunks(input, CourseworkCap);
    var fs := Frames(input, CourseworkCap, Alternating);
    FrameAt(input, CourseworkCap, Alternating, i);
    var d := fs[i];
    FeedNew(t, i % 2, cs[i]);
    var t1 := Feed(Step, t, d);
    DataPrefixSnoc(cs, i);
    Duplicates(t1, i % 2, cs[i], c - 1);
    RunAppend(Step, t, [d], Copies(d, c - 1));
  }

  /** The alternating-bit channel: each of Sender1b's datagrams delivered, in
      order, one or more times. From the state after the first `i` packets the
      rest of the transfer completes the file. */
  lemma {:induction false} DeliversRest(input: seq<byte>, counts: seq<nat>, i: nat, t: Trace<State>)
    requires |counts| == |Chunks(input, CourseworkCap)|
    requires forall j :: 0 <= j < |counts| ==> counts[j] >= 1
    requires i < |counts|
    requires var cs := Chunks(input, CourseworkCap);
      t.output == Data(cs[..i]) && !t.finished && !t.crashed && t.state.prev == PrevAfter(i)
    ensures var fs := Frames(input, CourseworkCap, Alternating);
      var t' := Run(Step, t, Repeat(fs[i..], counts[i..]));
      t'.finished && !t'.crashed && t'.output == input
    decreases |counts| - i
  {
    var cs := Chunks(input, CourseworkCap);
    var fs := Frames(input, CourseworkCap, Alternating);
    var d := fs[i];
    var rest := Repeat(fs[i + 1..], counts[i + 1..]);
    RepeatAt(fs, counts, i);
    OnePacket(input, counts[i], i, t);
    var t2 := Run(Step, t, [d] + Copies(d, counts[i] - 1));
    RunAppend(Step, t, [d] + Copies(d, counts[i] - 1), rest);
    if i + 1 == |counts| {
      assert cs[..i + 1] == cs;
      ChunksReassemble(input, CourseworkCap);
      RunStopped(Step, t2, rest);
    } else {
      DeliversRest(input, counts, i + 1, t2);
    }
  }

  /** Over a channel that duplicates datagrams but neither loses nor
      reorders them, the file is received exactly. */
  lemma Lossless(input: seq<byte>, counts: seq<nat>)
    requires |counts| == |Chunks(input, CourseworkCap)|
    requires forall j :: 0 <= j < |counts| ==> counts[j] >= 1
    ensures var t := Run(Step, Start(Init), Repeat(Frames(input, CourseworkCap, Alternating), counts));
      t.finished && !t.crashed && t.output == input
  {
    var cs := Chunks(input, CourseworkCap);
    var fs := Frames(input, CourseworkCap, Alternating);
    ChunksShape(input, CourseworkCap);
    assert cs[..0] == [];
    DeliversRest(input, counts, 0, Start(Init));
    assert fs[0..] == fs && counts[0..] == counts;
  }
}
