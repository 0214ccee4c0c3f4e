/** Receiver3: the University go-back-N receiver. Only the packet numbered
    one past the last accepted one is accepted; every datagram is answered
    with a cumulative acknowledgement of the last accepted number. */
module Receiver3 {
  import opened Bytes
  import opened Options
  import opened Codec
  import opened Datagram
  import opened Framing
  import opened Receiving
  import opened UniversityRx

  datatype State = State(prev: int)

  /** `prevPacketNum = 0`: the first packet accepted is number 1. */
  const Init := State(0)

  function Step(s: State, d: seq<byte>): (r: Receiving.Step<State>)
    ensures r.Crash? <==> Number(d) == s.prev + 1 && |d| < HeaderSize
    ensures r.Next? ==> r.acks == [EncodeAck(r.state.prev)]
    ensures r.Next? && Number(d) == s.prev + 1 ==>
      && r.state == State(s.prev + 1)
      && r.written == d[HeaderSize..if |d| < PacketSize then |d| else PacketSize]
      && (r.finished <==> Signed(d[2]) > 0)
    ensures r.Next? && Number(d) != s.prev + 1 ==> r.state == s && r.written == [] && !r.finished
  {
    ArrivePayload(d);
    var a := Arrive(d);
    var n := UnsignedNum(a.view[0], a.view[1]);
    if n == s.prev + 1 then
      match Payload(a)
      case None => Crash
      case Some(p) => Next(State(s.prev + 1), p, [EncodeAck(s.prev + 1)], EofPositive(a.view[2]))
    else
      Next(s, [], [EncodeAck(s.prev)], false)
  }

  /** Over any channel whatsoever, the number held stays a 16-bit value and
      the acknowledgements, as the sender decodes them, never decrease and
      never exceed the number held. */
  predicate AcksMonotone(t: Trace<State>)
  {
    && 0 <= t.state.prev < 65536
    && (forall j :: 0 <= j < |t.acks| ==> DecodeAck(t.acks[j]) <= t.state.prev)
    && (forall i, j :: 0 <= i < j < |t.acks| ==> DecodeAck(t.acks[i]) <= DecodeAck(t.acks[j]))
  }

  lemma {:induction false} AcksNeverDecrease(ch: seq<seq<byte>>)
    ensures AcksMonotone(Run(Step, Start(Init), ch))
    decreases |ch|
  {
    if |ch| > 0 {
      var pre := ch[..|ch| - 1];
      assert pre + [ch[|ch| - 1]] == ch;
      AcksNeverDecrease(pre);
      RunSnoc(Step, Start(Init), pre, ch[|ch| - 1]);
      var t := Run(Step, Start(Init), pre);
      var r := Step(t.state, ch[|ch| - 1]);
      if !t.finished && !t.crashed && r.Next? {
        AckRoundTrip(r.state.prev);
      }
    }
  }

  /** What the receiver knows after any run over Sender3's datagrams, in any
      order, lost or repeated: it has written exactly the first `prev`
      payloads, and it has stopped exactly when it has written them all. */
  predicate Safe(input: seq<byte>, t: Trace<State>)
  {
    var cs := Chunks(input, UniversityCap);
    && !t.crashed
    && 0 <= t.state.prev <= |cs|
    && t.output == Data(cs[..t.state.prev])
    && (t.finished <==> t.state.prev == |cs|)
  }

  lemma FeedSafe(input: seq<byte>, t: Trace<State>, d: seq<byte>)
    requires |Chunks(input, UniversityCap)| < 65536
    requires d in Frames(input, UniversityCap, Counting(1))
    requires Safe(input, t)
    ensures Safe(input, Feed(Step, t, d))
  {
    var cs := Chunks(input, UniversityCap);
    var fs := Frames(input, UniversityCap, Counting(1));
    var i :| 0 <= i < |fs| && fs[i] == d;
    FrameAt(input, UniversityCap, Counting(1), i);
    if !t.finished {
      FeedFrame(t, i + 1, cs[i]);
      if i == t.state.prev {
        DataPrefixSnoc(cs, i);
      }
    }
  }

  /** One of Sender3's datagrams on a running trace: accepted, with its
      payload written and its number acknowledged, exactly when it is the
      next one expected; otherwise only the last accepted number is
      acknowledged again. */
  lemma FeedFrame(t: Trace<State>, n: nat, c: Chunk)
    requires !t.finished && !t.crashed && n < 65536
    requires |c.payload| <= UniversityCap
    ensures var t' := Feed(Step, t, Frame(n, c));
      && !t'.crashed
      && (n == t.state.prev + 1 ==> t' == Trace(State(n), t.output + c.payload, t.acks + [EncodeAck(n)], c.eof, false))
      && (n != t.state.prev + 1 ==> t' == t.(acks := t.acks + [EncodeAck(t.state.prev)]))
  {
    SeeFrame(n, c);
  }

  lemma {:induction false} Safety(input: seq<byte>, ch: seq<seq<byte>>)
    requires |Chunks(input, UniversityCap)| < 65536
    requires forall j :: 0 <= j < |ch| ==> ch[j] in Frames(input, UniversityCap, Counting(1))
    ensures Safe(input, Run(Step, Start(Init), ch))
    ensures Run(Step, Start(Init), ch).finished ==> Run(Step, Start(Init), ch).output == input
    decreases |ch|
  {
    var cs := Chunks(input, UniversityCap);
    if |ch| == 0 {
      assert cs[..0] == [];
      ChunksShape(input, UniversityCap);
    } else {
      var pre := ch[..|ch| - 1];
      assert pre + [ch[|ch| - 1]] == ch;
      Safety(input, pre);
      RunSnoc(Step, Start(Init), pre, ch[|ch| - 1]);
      FeedSafe(input, Run(Step, Start(Init), pre), ch[|ch| - 1]);
    }
    if Run(Step, Start(Init), ch).finished {
      assert cs[..|cs|] == cs;
      ChunksReassemble(input, UniversityCap);
    }
  }

  /** Delivered in order, the first `k` datagrams are all accepted. */
  lemma {:induction false} DeliversPrefix(input: seq<byte>, k: nat)
    requires |Chunks(input, UniversityCap)| < 65536
    requires k <= |Chunks(input, UniversityCap)|
    ensures Run(Step, Start(Init), Frames(input, UniversityCap, Counting(1))[..k]).state.prev == k
  {
    var fs := Frames(input, UniversityCap, Counting(1));
    if k == 0 {
      assert fs[..0] == [];
    } else {
      DeliversPrefix(input, k - 1);
      TakeSnoc(fs, k);
      RunSnoc(Step, Start(Init), fs[..k - 1], fs[k - 1]);
      FrameAt(input, UniversityCap, Counting(1), k - 1);
      SeeFrame(k, Chunks(input, UniversityCap)[k - 1]);
      var pre := fs[..k - 1];
      TakeIn(fs, k - 1);
      Safety(input, pre);
    }
  }

  /** Over a lossless, in-order channel the file is received exactly. */
  lemma Lossless(input: seq<byte>)
    requires |Chunks(input, UniversityCap)| < 65536
    ensures var t := Run(Step, Start(Init), Frames(input, UniversityCap, Counting(1)));
      t.finished && t.output == input
  {
    var fs := Frames(input, UniversityCap, Counting(1));
    DeliversPrefix(input, |fs|);
    assert fs[..|fs|] == fs;
    Safety(input, fs);
  }
}
