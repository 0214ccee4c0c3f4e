/** Receiver2a: the Coursework go-back-N receiver. The packet number is read
    as a signed big-endian 16-bit short; only the number one past the last
    accepted one is accepted; every datagram is answered with the last
    accepted number, little-endian. As written, a flag byte of exactly 1 ends
    the loop even on a datagram that was discarded; `Corrected` ends it only
    on an accepted one. */
module Receiver2a {
  import opened Bytes
  import opened Options
  import opened Codec
  import opened Datagram
  import opened Framing
  import opened Receiving
  import opened CourseworkRx

  datatype State = State(buf: RxBuffer, last: int)

  /** `receivedPacketNo = -1`: packet 0 is expected first. */
  const Init := State(Fresh, -1)

  function Number(buf: RxBuffer, d: seq<byte>): int
  {
    var v := Overlay(buf, d);
    SignedShortNum(v[0], v[1])
  }

  /** One turn of the loop; `strictEof` selects whether a discarded datagram
      may end it (false, as written) or not (true). */
  function StepWith(strictEof: bool, s: State, d: seq<byte>): (r: Receiving.Step<State>)
    ensures var v := Overlay(s.buf, d);
      var n := Number(s.buf, d);
      && (r.Crash? <==> n == s.last + 1 && |d| < HeaderSize)
      && (r.Next? ==> r.state.buf == v && r.acks == [EncodeAck(r.state.last)])
      && (r.Next? && n == s.last + 1 ==>
            && r.state.last == n
            && r.written == d[HeaderSize..if |d| < BufferSize then |d| else BufferSize]
            && (r.finished <==> v[2] == 1))
      && (r.Next? && n != s.last + 1 ==>
            && r.state.last == s.last && r.written == []
            && (r.finished <==> !strictEof && v[2] == 1))
  {
    ArrivePayload(s.buf, d);
    var a := Arrive(s.buf, d);
    var n := SignedShortNum(a.view[0], a.view[1]);
    var eof := EofIsOne(a.view[2]);
    if n == s.last + 1 then
      match Payload(a)
      case None => Crash
      case Some(p) => Next(State(a.view, n), p, [EncodeAck(n)], eof)
    else
      Next(State(a.view, s.last), [], [EncodeAck(s.last)], !strictEof && eof)
  }

  function Step(s: State, d: seq<byte>): (r: Receiving.Step<State>)
    ensures r == StepWith(false, s, d)
  {
    StepWith(false, s, d)
  }

  function Corrected(s: State, d: seq<byte>): (r: Receiving.Step<State>)
    ensures r == StepWith(true, s, d)
  {
    StepWith(true, s, d)
  }

  /** Over any channel, the last accepted number stays a signed 16-bit value
      and the acknowledgements, as Sender2a decodes them, start at -1, never
      decrease and never exceed the number held. */
  predicate AcksMonotone(t: Trace<State>)
  {
    && -1 <= t.state.last < 32768
    && (forall j :: 0 <= j < |t.acks| ==> -1 <= DecodeSignedAck(t.acks[j]) <= t.state.last)
    && (forall i, j :: 0 <= i < j < |t.acks| ==> DecodeSignedAck(t.acks[i]) <= DecodeSignedAck(t.acks[j]))
  }

  lemma {:induction false} AcksNeverDecrease(ch: seq<seq<byte>>)
    ensures AcksMonotone(Run(Step, Start(Init), ch))
    decreases |ch|
  {
    if |ch| > 0 {
      var pre := ch[..|ch| - 1];
      assert pre + [ch[|ch| - 1]] == ch;
      AcksNeverDecrease(pre);
      RunSnoc(Step, Start(Init), pre, ch[|ch| - 1]);
      var t := Run(Step, Start(Init), pre);
      var r := Step(t.state, ch[|ch| - 1]);
      if !t.finished && !t.crashed && r.Next? {
        SignedAckRoundTrip(r.state.last);
      }
    }
  }

  /** The first acknowledgement of a run that starts with a discarded
      datagram is 0xFF 0xFF. */
  lemma FirstAckBeforeAcceptance(d: seq<byte>)
    requires Number(Fresh, d) != 0
    ensures Step(Init, d).Next? && Step(Init, d).acks == [[255, 255]]
  {
    MinusOneAck();
  }

  /** Delivered in order, the first `k` of Sender2a's datagrams for the
      packets `cs` are all accepted, their payloads written, and the loop
      ends exactly after the last one. */
  lemma {:induction false} DeliversPrefix(cs: seq<Chunk>, k: nat)
    requires Shaped(cs, CourseworkCap) && |cs| <= 32768 && k <= |cs|
    ensures var t := Run(Step, Start(Init), FramesFrom(cs, Counting(0), 0)[..k]);
      && t.state.last == k - 1 && t.output == Data(cs[..k]) && !t.crashed
      && (t.finished <==> k == |cs|)
  {
    var fs := FramesFrom(cs, Counting(0), 0);
    if k == 0 {
      assert fs[..0] == [];
      assert cs[..0] == [];
    } else {
      DeliversPrefix(cs, k - 1);
      AcceptNext(fs, cs, k);
    }
  }

  /** Delivered in order, all of the datagrams for the packets `cs` write
      all of their payloads and end the loop. */
  lemma DeliversAll(cs: seq<Chunk>)
    requires Shaped(cs, CourseworkCap) && |cs| <= 32768
    ensures var t := Run(Step, Start(Init), FramesFrom(cs, Counting(0), 0));
      t.finished && !t.crashed && t.output == Data(cs)
  {
    var fs := FramesFrom(cs, Counting(0), 0);
    DeliversPrefix(cs, |cs|);
    assert fs[..|cs|] == fs;
    assert cs[..|cs|] == cs;
  }

  /** Over a lossless, in-order channel the file is received exactly. */
  lemma Lossless(input: seq<byte>)
    requires |Chunks(input, CourseworkCap)| <= 32768
    ensures var t := Run(Step, Start(Init), Frames(input, CourseworkCap, Counting(0)));
      t.finished && !t.crashed && t.output == input
  {
    ChunksShaped(input, CourseworkCap);
    DeliversAll(Chunks(input, CourseworkCap));
    ChunksReassemble(input, CourseworkCap);
  }

  /** The next datagram in order, after a prefix the receiver has accepted
      in full, is accepted too. */
  lemma AcceptNext(fs: seq<seq<byte>>, cs: seq<Chunk>, k: nat)
    requires 0 < k <= |fs| && |fs| == |cs| && k <= 32768
    requires fs[k - 1] == Frame(k - 1, cs[k - 1]) && |cs[k - 1].payload| <= CourseworkCap
    requires var t := Run(Step, Start(Init), fs[..k - 1]);
      t.state.last == k - 2 && t.output == Data(cs[..k - 1]) && !t.crashed && !t.finished
    ensures var t := Run(Step, Start(Init), fs[..k]);
      && t.state.last == k - 1 && t.output == Data(cs[..k]) && !t.crashed
      && (t.finished <==> cs[k - 1].eof)
  {
    var t := Run(Step, Start(Init), fs[..k - 1]);
    TakeSnoc(fs, k);
    RunSnoc(Step, Start(Init), fs[..k - 1], fs[k - 1]);
    FeedFrame(false, Step, t, k - 1, cs[k - 1]);
    DataPrefixSnoc(cs, k - 1);
  }

  /** One of Sender2a's datagrams on a running trace, for either ending rule:
      `step` is Step when `strictEof` is false and Corrected when it is true. */
  lemma FeedFrame(strictEof: bool, step: (State, seq<byte>) -> Receiving.Step<State>, t: Trace<State>, n: nat, c: Chunk)
    requires if strictEof then step == Corrected else step == Step
    requires !t.finished && !t.crashed && n < 32768
    requires |c.payload| <= CourseworkCap
    ensures var t' := Feed(step, t, Frame(n, c));
      && !t'.crashed
      && (n == t.state.last + 1 ==>
            t'.state.last == n && t'.output == t.output + c.payload && (t'.finished <==> c.eof))
      && (n != t.state.last + 1 ==>
            t'.state.last == t.state.last && t'.output == t.output
            && (t'.finished <==> !strictEof && c.eof))
  {
    SeeFrame(t.state.buf, n, c);
    SignedHeaderRoundTrip(n, c.eof);
  }

  /** The discarded end-of-file datagram: a two-packet transfer whose second
      datagram overtakes the first ends the loop with nothing written. */
  lemma EarlyEnd(input: seq<byte>)
    requires |Chunks(input, CourseworkCap)| == 2
    ensures var t := Run(Step, Start(Init), [Frames(input, CourseworkCap, Counting(0))[1]]);
      t.finished && t.output == [] && t.output != input
  {
    var cs := Chunks(input, CourseworkCap);
    FrameAt(input, CourseworkCap, Counting(0), 1);
    ChunksReassemble(input, CourseworkCap);
    ChunksShape(input, CourseworkCap);
    assert Data(cs) == cs[0].payload + Data(cs[1..]);
    FeedFrame(false, Step, Start(Init), 1, cs[1]);
  }

  /** What the corrected receiver knows after any run over Sender2a's
      datagrams for the packets `cs`, in any order, lost or repeated: it has
      written exactly the payloads up to the last accepted number and has
      stopped exactly when it has written them all. */
  predicate SafeOver(cs: seq<Chunk>, t: Trace<State>)
  {
    && !t.crashed
    && -1 <= t.state.last < |cs|
    && t.output == Data(cs[..t.state.last + 1])
    && (t.finished <==> t.state.last + 1 == |cs|)
  }

  /** The same, for the packets of the file `input`. */
  predicate Safe(input: seq<byte>, t: Trace<State>)
  {
    SafeOver(Chunks(input, CourseworkCap), t)
  }

  lemma FeedSafe(cs: seq<Chunk>, t: Trace<State>, d: seq<byte>)
    requires Shaped(cs, CourseworkCap) && |cs| <= 32768
    requires d in FramesFrom(cs, Counting(0), 0)
    requires SafeOver(cs, t)
    ensures SafeOver(cs, Feed(Corrected, t, d))
  {
    var fs := FramesFrom(cs, Counting(0), 0);
    var i :| 0 <= i < |fs| && fs[i] == d;
    FeedSafeAt(cs, t, i, d);
  }

  /** Packet `i`'s datagram keeps the corrected receiver safe. */
  lemma FeedSafeAt(cs: seq<Chunk>, t: Trace<State>, i: nat, d: seq<byte>)
    requires i < |cs| <= 32768 && |cs[i].payload| <= CourseworkCap && d == Frame(i, cs[i])
    requires cs[i].eof <==> i == |cs| - 1
    requires SafeOver(cs, t)
    ensures SafeOver(cs, Feed(Corrected, t, d))
  {
    if !t.finished {
      FeedFrame(true, Corrected, t, i, cs[i]);
      if i == t.state.last + 1 {
        DataPrefixSnoc(cs, i);
      }
    }
  }

  lemma {:induction false} SafetyOver(cs: seq<Chunk>, ch: seq<seq<byte>>)
    requires Shaped(cs, CourseworkCap) && |cs| <= 32768
    requires forall j :: 0 <= j < |ch| ==> ch[j] in FramesFrom(cs, Counting(0), 0)
    ensures SafeOver(cs, Run(Corrected, Start(Init), ch))
    decreases |ch|
  {
    if |ch| == 0 {
      assert cs[..0] == [];
    } else {
      var pre := ch[..|ch| - 1];
      assert pre + [ch[|ch| - 1]] == ch;
      SafetyOver(cs, pre);
      RunSnoc(Corrected, Start(Init), pre, ch[|ch| - 1]);
      FeedSafe(cs, Run(Corrected, Start(Init), pre), ch[|ch| - 1]);
    }
  }

  lemma Safety(input: seq<byte>, ch: seq<seq<byte>>)
    requires |Chunks(input, CourseworkCap)| <= 32768
    requires forall j :: 0 <= j < |ch| ==> ch[j] in Frames(input, CourseworkCap, Counting(0))
    ensures Safe(input, Run(Corrected, Start(Init), ch))
    ensures Run(Corrected, Start(Init), ch).finished ==> Run(Corrected, Start(Init), ch).output == input
  {
    var cs := Chunks(input, CourseworkCap);
    ChunksShaped(input, CourseworkCap);
    SafetyOver(cs, ch);
    FinishedAll(cs, Run(Corrected, Start(Init), ch));
    ChunksReassemble(input, CourseworkCap);
  }

  /** A safe trace that has stopped has written every payload. */
  lemma FinishedAll(cs: seq<Chunk>, t: Trace<State>)
    requires SafeOver(cs, t)
    ensures t.finished ==> t.output == Data(cs)
  {
    if t.finished {
      assert cs[..|cs|] == cs;
    }
  }
}
