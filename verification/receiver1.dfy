/** Receiver1: the unacknowledged University receiver. Every datagram's
    payload is written, whatever its number, and the loop ends after the first
    datagram whose signed flag byte is positive. */
module Receiver1 {
  import opened Bytes
  import opened Options
  import opened Codec
  import opened Datagram
  import opened Framing
  import opened Receiving
  import opened UniversityRx

  /** Receiver1 keeps nothing between datagrams. */
  datatype State = Idle

  function Step(s: State, d: seq<byte>): (r: Receiving.Step<State>)
    ensures r.Crash? <==> |d| < HeaderSize
    ensures r.Next? ==> && r.written == d[HeaderSize..if |d| < PacketSize then |d| else PacketSize]
                        && r.acks == []
                        && (r.finished <==> Signed(d[2]) > 0)
  {
    ArrivePayload(d);
    var a := Arrive(d);
    match Payload(a)
    case None => Crash
    case Some(p) => Next(Idle, p, [], EofPositive(a.view[2]))
  }

  /** Sender1's datagrams delivered in order: after `k` of them the output is
      the first `k` payloads, and the loop has ended exactly when all of them
      arrived. */
  lemma {:induction false} DeliversPrefix(input: seq<byte>, k: nat)
    requires k <= |Chunks(input, UniversityCap)|
    ensures var cs := Chunks(input, UniversityCap);
      var t := Run(Step, Start(Idle), Frames(input, UniversityCap, Counting(0))[..k]);
      && t.output == Data(cs[..k]) && t.acks == [] && !t.crashed
      && (t.finished <==> k == |cs|)
  {
    var cs := Chunks(input, UniversityCap);
    var fs := Frames(input, UniversityCap, Counting(0));
    if k == 0 {
      assert fs[..0] == [];
      assert cs[..0] == [];
    } else {
      DeliversPrefix(input, k - 1);
      FrameAt(input, UniversityCap, Counting(0), k - 1);
      var t := Run(Step, Start(Idle), fs[..k - 1]);
      FeedFrame(t, k - 1, cs[k - 1]);
      TakeSnoc(fs, k);
      RunSnoc(Step, Start(Idle), fs[..k - 1], fs[k - 1]);
      TakeSnoc(cs, k);
      DataSnoc(cs[..k - 1], cs[k - 1]);
    }
  }

  /** A well-formed data datagram on a running trace: its payload is
      appended, nothing is acknowledged, and the loop ends exactly on the
      end-of-file packet. */
  lemma FeedFrame(t: Trace<State>, n: int, c: Chunk)
    requires !t.finished && !t.crashed
    requires |c.payload| <= UniversityCap
    ensures var t' := Feed(Step, t, Frame(n, c));
      t'.output == t.output + c.payload && t'.acks == t.acks && !t'.crashed && (t'.finished <==> c.eof)
  {
    SeeFrame(n, c);
  }

  /** Over a lossless, in-order channel the file is received exactly, and any
      datagram after the last one is never read. */
  lemma Lossless(input: seq<byte>, later: seq<seq<byte>>)
    ensures var t := Run(Step, Start(Idle), Frames(input, UniversityCap, Counting(0)) + later);
      t.finished && !t.crashed && t.output == input
  {
    var cs := Chunks(input, UniversityCap);
    var fs := Frames(input, UniversityCap, Counting(0));
    FrameAt(input, UniversityCap, Counting(0), 0);
    DeliversPrefix(input, |cs|);
    assert fs[..|cs|] == fs;
    assert cs[..|cs|] == cs;
    ChunksReassemble(input, UniversityCap);
    RunAppend(Step, Start(Idle), fs, later);
    RunStopped(Step, Run(Step, Start(Idle), fs), later);
  }
}
