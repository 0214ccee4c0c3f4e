/** How every sender cuts its input into packets. With `available` bytes left
    the sender reads `min(available, cap)` bytes and marks the packet as the
    last one when `available <= cap`; the packet is the 3-byte header followed
    by those bytes. The University senders use cap 1021 (1024-byte datagrams),
    the Coursework senders cap 1024 (1027-byte datagrams). */
module Framing {
  import opened Bytes
  import opened Codec

  const UniversityCap: nat := 1021
  const CourseworkCap: nat := 1024

  datatype Chunk = Chunk(payload: seq<byte>, eof: bool)

  /** `datalen = available >= cap ? cap : available` (Sender1..4), equivalently
      `bytesToSend = 1024; if (available < 1024) bytesToSend = available`
      (Sender1a, Sender1b, Sender2a). */
  function ChunkLen(available: nat, cap: nat): (len: nat)
    ensures len <= available && len <= cap
    ensures len == available || len == cap
    ensures available > cap ==> len == cap
  {
    if available >= cap then cap else available
  }

  /** One read of the send loop: the packet's payload and flag, and what is
      left of the input afterwards. */
  function NextChunk(rest: seq<byte>, cap: nat): (r: (Chunk, seq<byte>))
    ensures r.0.payload + r.1 == rest
    ensures r.0.eof <==> |rest| <= cap
    ensures r.0.eof ==> r.1 == []
    ensures !r.0.eof ==> |r.0.payload| == cap
  {
    var len := ChunkLen(|rest|, cap);
    assert rest[..len] + rest[len..] == rest;
    (Chunk(rest[..len], |rest| <= cap), rest[len..])
  }

  /** The packets a sender makes of `input`, in order. */
  function Chunks(input: seq<byte>, cap: nat): seq<Chunk>
    requires cap > 0
    decreases |input|
  {
    var (c, rest) := NextChunk(input, cap);
    if c.eof then [c] else [c] + Chunks(rest, cap)
  }

  /** The bytes carried by a sequence of packets, in order. */
  function Data(cs: seq<Chunk>): seq<byte>
    decreases |cs|
  {
    if |cs| == 0 then [] else cs[0].payload + Data(cs[1..])
  }

  lemma {:induction false} DataAppend(a: seq<Chunk>, b: seq<Chunk>)
    ensures Data(a + b) == Data(a) + Data(b)
    decreases |a|
  {
    if |a| == 0 {
      assert a + b == b;
    } else {
      assert (a + b)[1..] == a[1..] + b;
      DataAppend(a[1..], b);
    }
  }

  lemma DataSnoc(a: seq<Chunk>, c: Chunk)
    ensures Data(a + [c]) == Data(a) + c.payload
  {
    DataAppend(a, [c]);
  }

  /** The payloads of the first `i + 1` packets. */
  lemma DataPrefixSnoc(cs: seq<Chunk>, i: nat)
    requires i < |cs|
    ensures Data(cs[..i + 1]) == Data(cs[..i]) + cs[i].payload
  {
    TakeSnoc(cs, i + 1);
    DataSnoc(cs[..i], cs[i]);
  }

  lemma DataPair(cs: seq<Chunk>)
    requires |cs| == 2
    ensures Data(cs) == cs[0].payload + cs[1].payload
  {
    assert cs[1..][1..] == [];
    assert Data(cs) == cs[0].payload + Data(cs[1..]);
    assert Data(cs[1..]) == cs[1].payload + Data(cs[1..][1..]);
  }

  /** Reassembling the packets' payloads gives back the input exactly, when
      every read returns the requested number of bytes. */
  lemma {:induction false} ChunksReassemble(input: seq<byte>, cap: nat)
    requires cap > 0
    ensures Data(Chunks(input, cap)) == input
    decreases |input|
  {
    var (c, rest) := NextChunk(input, cap);
    if !c.eof {
      ChunksReassemble(rest, cap);
    }
  }

  /** Exactly one packet is marked end-of-file, the last one; every earlier
      packet is full, and the last one is not larger than the cap and is empty
      only when it is the only packet (an empty input). */
  lemma {:induction false} ChunksShape(input: seq<byte>, cap: nat)
    requires cap > 0
    ensures var cs := Chunks(input, cap);
      && |cs| >= 1
      && (forall i :: 0 <= i < |cs| ==> (cs[i].eof <==> i == |cs| - 1))
      && (forall i :: 0 <= i < |cs| - 1 ==> |cs[i].payload| == cap)
      && |cs[|cs| - 1].payload| <= cap
      && (|cs| > 1 ==> |cs[|cs| - 1].payload| > 0)
    decreases |input|
  {
    var (c, rest) := NextChunk(input, cap);
    if !c.eof {
      ChunksShape(rest, cap);
      var tail := Chunks(rest, cap);
      assert Chunks(input, cap) == [c] + tail;
      if |tail| == 1 {
        assert tail[0] == NextChunk(rest, cap).0;
      }
      ConsShape(c, tail, cap);
    }
  }

  /** A full packet not marked end-of-file, put in front of a well-shaped
      sequence whose last packet is not empty. */
  lemma ConsShape(c: Chunk, tail: seq<Chunk>, cap: nat)
    requires !c.eof && |c.payload| == cap
    requires |tail| >= 1
    requires forall i :: 0 <= i < |tail| ==> (tail[i].eof <==> i == |tail| - 1)
    requires forall i :: 0 <= i < |tail| - 1 ==> |tail[i].payload| == cap
    requires 0 < |tail[|tail| - 1].payload| <= cap
    ensures var cs := [c] + tail;
      && |cs| >= 1
      && (forall i :: 0 <= i < |cs| ==> (cs[i].eof <==> i == |cs| - 1))
      && (forall i :: 0 <= i < |cs| - 1 ==> |cs[i].payload| == cap)
      && |cs[|cs| - 1].payload| <= cap
      && (|cs| > 1 ==> |cs[|cs| - 1].payload| > 0)
  {
    var cs := [c] + tail;
    assert forall i :: 1 <= i < |cs| ==> cs[i] == tail[i - 1];
  }

  /** The shape of a sender's packet sequence, without the input it came
      from: at least one packet, none larger than the cap, and only the last
      one marked end-of-file. */
  predicate Shaped(cs: seq<Chunk>, cap: nat)
  {
    && |cs| >= 1
    && (forall i :: 0 <= i < |cs| ==> (cs[i].eof <==> i == |cs| - 1))
    && (forall i :: 0 <= i < |cs| ==> |cs[i].payload| <= cap)
  }

  lemma ChunksShaped(input: seq<byte>, cap: nat)
    requires cap > 0
    ensures Shaped(Chunks(input, cap), cap)
  {
    ChunksShape(input, cap);
  }

  lemma MulSucc(a: nat, b: nat)
    ensures a * (b + 1) == a * b + a
  {
  }

  /** The input length is cap times the number of full packets plus the size
      of the last one. */
  lemma {:induction false} ChunksLength(input: seq<byte>, cap: nat)
    requires cap > 0
    ensures var cs := Chunks(input, cap);
      |cs| >= 1 && |input| == cap * (|cs| - 1) + |cs[|cs| - 1].payload|
    decreases |input|
  {
    var (c, rest) := NextChunk(input, cap);
    if !c.eof {
      ChunksLength(rest, cap);
      var cs := Chunks(input, cap);
      var tail := Chunks(rest, cap);
      assert cs == [c] + tail;
      assert cs[|cs| - 1] == tail[|tail| - 1];
      MulSucc(cap, |tail| - 1);
    }
  }

  /** The number of packets: one for an empty input, otherwise the input
      length divided by the cap, rounded up (the smallest count whose packets
      can hold the input). */
  lemma ChunksCount(input: seq<byte>, cap: nat)
    requires cap > 0
    ensures var n := |Chunks(input, cap)|;
      && (|input| == 0 ==> n == 1)
      && (|input| > 0 ==> cap * (n - 1) < |input| <= cap * n)
  {
    var cs := Chunks(input, cap);
    ChunksShape(input, cap);
    ChunksLength(input, cap);
    MulSucc(cap, |cs| - 1);
    if |input| > 0 && |cs| == 1 {
      assert |cs[0].payload| == |input|;
    }
  }

  /** A 2500-byte input with the University cap: three packets of 1021, 1021
      and 458 bytes, only the third marked end-of-file. */
  lemma Example2500(input: seq<byte>)
    requires |input| == 2500
    ensures var cs := Chunks(input, UniversityCap);
      && |cs| == 3
      && |cs[0].payload| == 1021 && |cs[1].payload| == 1021 && |cs[2].payload| == 458
      && !cs[0].eof && !cs[1].eof && cs[2].eof
  {
    ChunksShape(input, UniversityCap);
    ChunksLength(input, UniversityCap);
  }

  /** A data packet: header, then payload. */
  function Frame(n: int, c: Chunk): (f: seq<byte>)
    ensures |f| == HeaderSize + |c.payload|
    ensures f[..HeaderSize] == EncodeHeader(n, c.eof) && f[HeaderSize..] == c.payload
  {
    EncodeHeader(n, c.eof) + c.payload
  }

  /** How a sender numbers its packets: counting up from a first number
      (Sender1/3/4, Sender1a, Sender2a) or alternating 0, 1, 0, ... (Sender2,
      Sender1b). */
  datatype Numbering = Counting(first: int) | Alternating

  function NumberAt(nb: Numbering, i: nat): int
  {
    match nb
    case Counting(first) => first + i
    case Alternating => i % 2
  }

  /** The datagrams for packets `k, k+1, ...` of a packet sequence. */
  function FramesFrom(cs: seq<Chunk>, nb: Numbering, k: nat): (fs: seq<seq<byte>>)
    ensures |fs| == |cs|
    ensures forall i :: 0 <= i < |cs| ==> fs[i] == Frame(NumberAt(nb, k + i), cs[i])
    decreases |cs|
  {
    if |cs| == 0 then [] else [Frame(NumberAt(nb, k), cs[0])] + FramesFrom(cs[1..], nb, k + 1)
  }

  function Frames(input: seq<byte>, cap: nat, nb: Numbering): (fs: seq<seq<byte>>)
    requires cap > 0
    ensures |fs| == |Chunks(input, cap)|
  {
    FramesFrom(Chunks(input, cap), nb, 0)
  }

  /** The i-th datagram of a transfer: its number, its flag (set only on the
      last one), its payload and its size, which fits the receiving buffer. */
  lemma FrameAt(input: seq<byte>, cap: nat, nb: Numbering, i: nat)
    requires cap > 0
    requires i < |Chunks(input, cap)|
    ensures var cs := Chunks(input, cap);
      && |Frames(input, cap, nb)| == |cs|
      && Frames(input, cap, nb)[i] == Frame(NumberAt(nb, i), cs[i])
      && (cs[i].eof <==> i == |cs| - 1)
      && HeaderSize <= |Frames(input, cap, nb)[i]| <= HeaderSize + cap
  {
    ChunksShape(input, cap);
  }
}
