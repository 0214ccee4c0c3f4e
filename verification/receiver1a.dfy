/** Receiver1a: the unacknowledged Coursework receiver. It reuses one
    1027-byte buffer, writes every datagram's payload and stops after the
    first datagram whose flag byte is exactly 1. */
module Receiver1a {
  import opened Bytes
  import opened Options
  import opened Codec
  import opened Datagram
  import opened Framing
  import opened Receiving
  import opened CourseworkRx

  /** The only state carried between datagrams is the receive buffer. */
  function Step(buf: RxBuffer, d: seq<byte>): (r: Receiving.Step<RxBuffer>)
    ensures r.Crash? <==> |d| < HeaderSize
    ensures r.Next? ==> && r.written == d[HeaderSize..if |d| < BufferSize then |d| else BufferSize]
                        && |r.written| <= CourseworkCap
                        && r.acks == []
                        && (r.finished <==> d[2] == 1)
                        && r.state == Overlay(buf, d)
  {
    ArrivePayload(buf, d);
    var a := Arrive(buf, d);
    match Payload(a)
    case None => Crash
    case Some(p) => Next(a.view, p, [], EofIsOne(a.view[2]))
  }

  lemma {:induction false} DeliversPrefix(input: seq<byte>, k: nat)
    requires k <= |Chunks(input, CourseworkCap)|
    ensures var cs := Chunks(input, CourseworkCap);
      var t := Run(Step, Start(Fresh), Frames(input, CourseworkCap, Counting(0))[..k]);
      && t.output == Data(cs[..k]) && t.acks == [] && !t.crashed
      && (t.finished <==> k == |cs|)
  {
    var cs := Chunks(input, CourseworkCap);
    var fs := Frames(input, CourseworkCap, Counting(0));
    if k == 0 {
      assert fs[..0] == [];
      assert cs[..0] == [];
    } else {
      DeliversPrefix(input, k - 1);
      FrameAt(input, CourseworkCap, Counting(0), k - 1);
      var t := Run(Step, Start(Fresh), fs[..k - 1]);
      FeedFrame(t, k - 1, cs[k - 1]);
      TakeSnoc(fs, k);
      RunSnoc(Step, Start(Fresh), fs[..k - 1], fs[k - 1]);
      TakeSnoc(cs, k);
      DataSnoc(cs[..k - 1], cs[k - 1]);
    }
  }

  /** A well-formed data datagram on a running trace: its payload is
      appended, nothing is acknowledged, and the loop ends exactly on the
      end-of-file packet. */
  lemma FeedFrame(t: Trace<RxBuffer>, n: int, c: Chunk)
    requires !t.finished && !t.crashed
    requires |c.payload| <= CourseworkCap
    ensures var t' := Feed(Step, t, Frame(n, c));
      t'.output == t.output + c.payload && t'.acks == t.acks && !t'.crashed && (t'.finished <==> c.eof)
  {
    SeeFrame(t.state, n, c);
  }

  /** Over a lossless, in-order channel the file is received exactly and the
      datagrams after the end-of-file one are never read. */
  lemma Lossless(input: seq<byte>, later: seq<seq<byte>>)
    ensures var t := Run(Step, Start(Fresh), Frames(input, CourseworkCap, Counting(0)) + later);
      t.finished && !t.crashed && t.output == input
  {
    var cs := Chunks(input, CourseworkCap);
    var fs := Frames(input, CourseworkCap, Counting(0));
    FrameAt(input, CourseworkCap, Counting(0), 0);
    DeliversPrefix(input, |cs|);
    assert fs[..|cs|] == fs;
    assert cs[..|cs|] == cs;
    ChunksReassemble(input, CourseworkCap);
    RunAppend(Step, Start(Fresh), fs, later);
    RunStopped(Step, Run(Step, Start(Fresh), fs), later);
  }
}
