/** The shape shared by every receiver's loop body: take one datagram, write
    some bytes to the output file, send zero or more acknowledgements, and say
    whether the loop ends. A write whose length argument is negative (a
    datagram shorter than the header) throws an exception that no receiver
    catches, so the loop stops there without a result. */
module Receiving {
  import opened Bytes

  datatype Step<+S> =
    | Next(state: S, written: seq<byte>, acks: seq<seq<byte>>, finished: bool)
    | Crash

  /** Everything the loop has done so far. */
  datatype Trace<+S> = Trace(state: S, output: seq<byte>, acks: seq<seq<byte>>, finished: bool, crashed: bool)

  function Start<S>(s: S): Trace<S>
  {
    Trace(s, [], [], false, false)
  }

  /** One turn of the loop on a trace that may already have stopped. */
  function Feed<S>(step: (S, seq<byte>) -> Step<S>, t: Trace<S>, d: seq<byte>): Trace<S>
  {
    if t.finished || t.crashed then t
    else match step(t.state, d)
      case Crash => t.(crashed := true)
      case Next(s, w, a, f) => Trace(s, t.output + w, t.acks + a, f, false)
  }

  /** The loop run over the datagrams the channel delivers, in order; once it
      has stopped, later datagrams are never read. */
  function Run<S>(step: (S, seq<byte>) -> Step<S>, t: Trace<S>, ch: seq<seq<byte>>): Trace<S>
    decreases |ch|
  {
    if |ch| == 0 then t else Run(step, Feed(step, t, ch[0]), ch[1..])
  }

  lemma {:induction false} RunAppend<S>(step: (S, seq<byte>) -> Step<S>, t: Trace<S>, a: seq<seq<byte>>, b: seq<seq<byte>>)
    ensures Run(step, t, a + b) == Run(step, Run(step, t, a), b)
    decreases |a|
  {
    if |a| == 0 {
      assert a + b == b;
    } else {
      assert (a + b)[1..] == a[1..] + b;
      RunAppend(step, Feed(step, t, a[0]), a[1..], b);
    }
  }

  lemma {:induction false} RunStopped<S>(step: (S, seq<byte>) -> Step<S>, t: Trace<S>, ch: seq<seq<byte>>)
    requires t.finished || t.crashed
    ensures Run(step, t, ch) == t
    decreases |ch|
  {
    if |ch| > 0 {
      RunStopped(step, t, ch[1..]);
    }
  }

  lemma RunSnoc<S>(step: (S, seq<byte>) -> Step<S>, t: Trace<S>, ch: seq<seq<byte>>, d: seq<byte>)
    ensures Run(step, t, ch + [d]) == Feed(step, Run(step, t, ch), d)
  {
    RunAppend(step, t, ch, [d]);
  }

  lemma RunPair<S>(step: (S, seq<byte>) -> Step<S>, t: Trace<S>, a: seq<byte>, b: seq<byte>)
    ensures Run(step, t, [a, b]) == Feed(step, Feed(step, t, a), b)
  {
    assert [a, b][1..] == [b] && [b][1..] == [];
    assert Run(step, t, [a, b]) == Run(step, Feed(step, t, a), [b]);
    assert Run(step, Feed(step, t, a), [b]) == Run(step, Feed(step, Feed(step, t, a), b), []);
  }

  /** `c` copies of one datagram, as a channel that duplicates it delivers them. */
  function Copies(d: seq<byte>, c: nat): (r: seq<seq<byte>>)
    ensures |r| == c
    ensures forall i :: 0 <= i < c ==> r[i] == d
  {
    seq(c, _ => d)
  }

  /** Datagram `i` delivered `counts[i]` times, in order. */
  function Repeat(ds: seq<seq<byte>>, counts: seq<nat>): seq<seq<byte>>
    requires |counts| == |ds|
    decreases |ds|
  {
    if |ds| == 0 then [] else Copies(ds[0], counts[0]) + Repeat(ds[1..], counts[1..])
  }

  /** A slice of one datagram repeated `c` times is its `c` copies. */
  lemma RepeatOne(fs: seq<seq<byte>>, k: nat, c: nat)
    requires k < |fs|
    ensures Repeat(fs[k..k + 1], [c]) == Copies(fs[k], c)
  {
    assert fs[k..k + 1][1..] == [];
  }

  /** A repeated delivery of a slice: its first datagram's copies, then the
      rest of the slice repeated. */
  lemma RepeatCons(fs: seq<seq<byte>>, k: nat, c: nat, counts: seq<nat>)
    requires k + 1 + |counts| <= |fs|
    ensures Repeat(fs[k..k + 1 + |counts|], [c] + counts) == Copies(fs[k], c) + Repeat(fs[k + 1..k + 1 + |counts|], counts)
  {
    var n := |counts|;
    assert fs[k..k + 1 + n][1..] == fs[k + 1..k + 1 + n];
    assert ([c] + counts)[1..] == counts;
  }

  /** Splitting a repeated delivery at datagram `i`: its first copy, its
      remaining copies, then the rest. */
  lemma RepeatAt(ds: seq<seq<byte>>, counts: seq<nat>, i: nat)
    requires |counts| == |ds| && i < |ds| && counts[i] >= 1
    ensures Repeat(ds[i..], counts[i..]) == [ds[i]] + Copies(ds[i], counts[i] - 1) + Repeat(ds[i + 1..], counts[i + 1..])
  {
    assert ds[i..][1..] == ds[i + 1..] && counts[i..][1..] == counts[i + 1..];
    assert Copies(ds[i], counts[i]) == [ds[i]] + Copies(ds[i], counts[i] - 1);
  }
}
