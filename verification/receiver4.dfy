/** Receiver4: the University selective-repeat receiver. A packet inside the
    window `[windowBase, windowBase + windowSize - 1]` is acknowledged with its
    own number; the next one expected is written and the buffered packets that
    follow it without a gap are written after it, while any other is buffered
    unless a packet with its number already is. A packet behind the window is
    acknowledged again; one ahead of it is ignored. As written, a buffered
    packet stores an array as long as the whole datagram, so three zero bytes
    follow its payload into the file; `Corrected` stores the payload alone. */
module Receiver4 {
  import opened Bytes
  import opened Options
  import opened Codec
  import opened Datagram
  import opened Framing
  import opened Receiving
  import opened UniversityRx
  import opened BufferedPackets
  import opened ReorderQueue

  datatype State = State(prev: int, base: int, queue: seq<BufferedPacket>)

  /** `prevPacketNum = -1`, `windowBase = 0`, an empty queue. */
  const Init := State(-1, 0, [])

  /** The bytes written for a run of buffered packets, in order. */
  function Written(q: seq<BufferedPacket>): seq<byte>
    decreases |q|
  {
    if |q| == 0 then [] else q[0].data + Written(q[1..])
  }

  lemma {:induction false} WrittenSnoc(q: seq<BufferedPacket>, e: BufferedPacket)
    ensures Written(q + [e]) == Written(q) + e.data
    decreases |q|
  {
    if |q| == 0 {
      assert [e][1..] == [];
    } else {
      assert (q + [e])[1..] == q[1..] + [e];
      WrittenSnoc(q[1..], e);
    }
  }

  /** What the drain loop leaves: the last number written, the queue, the
      bytes written and the end-of-transfer flag. */
  datatype Drained = Drained(prev: int, queue: seq<BufferedPacket>, written: seq<byte>, finished: bool)

  /** The drain loop: while the head of the queue is numbered one past the
      last packet written, write its data, take its number and let its flag
      overwrite `finishedTransfer`. */
  function Drain(prev: int, q: seq<BufferedPacket>, fin: bool): (r: Drained)
    ensures r.prev >= prev && |r.queue| <= |q|
    decreases |q|
  {
    if |q| > 0 && q[0].num == prev + 1 then
      var r := Drain(q[0].num, q[1..], q[0].eof);
      Drained(r.prev, r.queue, q[0].data + r.written, r.finished)
    else
      Drained(prev, q, [], fin)
  }

  /** The drain takes the longest run at the head of the queue numbered
      `prev + 1, prev + 2, ...`, stops at the first gap, writes the run's data
      in order, and ends with the last taken packet's flag (or `fin` when it
      takes none). */
  lemma DrainSpec(prev: int, q: seq<BufferedPacket>, fin: bool)
    ensures var r := Drain(prev, q, fin);
      var m := |q| - |r.queue|;
      && r.queue == q[m..]
      && r.prev == prev + m
      && (forall i :: 0 <= i < m ==> q[i].num == prev + 1 + i)
      && (|r.queue| == 0 || r.queue[0].num != r.prev + 1)
      && r.written == Written(q[..m])
      && r.finished == (if m == 0 then fin else q[m - 1].eof)
  {
    DrainShape(prev, q, fin);
    DrainRun(prev, q, fin);
    DrainWritten(prev, q, fin);
  }

  /** The drain leaves a suffix of the queue, not headed by the next number,
      and the flag of the last packet it took. */
  lemma {:induction false} DrainShape(prev: int, q: seq<BufferedPacket>, fin: bool)
    ensures var r := Drain(prev, q, fin);
      var m := |q| - |r.queue|;
      && r.queue == q[m..]
      && r.prev == prev + m
      && (|r.queue| == 0 || r.queue[0].num != r.prev + 1)
      && r.finished == (if m == 0 then fin else q[m - 1].eof)
    decreases |q|
  {
    if |q| > 0 && q[0].num == prev + 1 {
      DrainShape(q[0].num, q[1..], q[0].eof);
      var r := Drain(q[0].num, q[1..], q[0].eof);
      var m := |q| - |r.queue|;
      assert q[m..] == q[1..][m - 1..];
      if m > 1 {
        assert q[m - 1] == q[1..][m - 2];
      }
    }
  }

  /** The packets the drain takes are numbered `prev + 1, prev + 2, ...`. */
  lemma {:induction false} DrainRun(prev: int, q: seq<BufferedPacket>, fin: bool)
    ensures var m := |q| - |Drain(prev, q, fin).queue|;
      forall i :: 0 <= i < m ==> q[i].num == prev + 1 + i
    decreases |q|
  {
    if |q| > 0 && q[0].num == prev + 1 {
      DrainRun(q[0].num, q[1..], q[0].eof);
      var m := |q| - |Drain(prev, q, fin).queue|;
      forall i | 0 <= i < m
        ensures q[i].num == prev + 1 + i
      {
        if i > 0 {
          assert q[i] == q[1..][i - 1];
        }
      }
    }
  }

  /** The drain writes the data of the packets it takes, in order. */
  lemma {:induction false} DrainWritten(prev: int, q: seq<BufferedPacket>, fin: bool)
    ensures var r := Drain(prev, q, fin);
      r.written == Written(q[..|q| - |r.queue|])
    decreases |q|
  {
    if |q| > 0 && q[0].num == prev + 1 {
      DrainWritten(q[0].num, q[1..], q[0].eof);
      var r := Drain(q[0].num, q[1..], q[0].eof);
      var m := |q| - |r.queue|;
      assert q[..m][1..] == q[1..][..m - 1];
    } else {
      assert q[..0] == [];
    }
  }

  /** A drain of a queue whose numbers lie above the last packet written
      leaves a queue whose numbers lie above the next one expected. */
  lemma DrainLeavesGap(prev: int, q: seq<BufferedPacket>, fin: bool)
    requires Ascending(q)
    requires forall i :: 0 <= i < |q| ==> prev < q[i].num
    ensures var r := Drain(prev, q, fin);
      Ascending(r.queue) && forall i :: 0 <= i < |r.queue| ==> r.prev + 1 < r.queue[i].num
  {
    var r := Drain(prev, q, fin);
    var m := |q| - |r.queue|;
    DrainSpec(prev, q, fin);
    if |r.queue| > 0 {
      assert r.queue[0] == q[m];
      if m > 0 {
        assert q[m - 1].num == r.prev;
      }
      forall i | 0 <= i < |r.queue|
        ensures r.prev + 1 < r.queue[i].num
      {
        assert r.queue[i] == q[m + i];
      }
    }
  }

  /** The bytes a buffered packet keeps. As written, `new byte[len]` with the
      payload copied to its front: the payload and three zeros, or `len` zeros
      when the datagram is shorter than the header. Corrected, the payload. */
  function Stored(padded: bool, a: Arrival): (data: seq<byte>)
    requires a.Valid()
    ensures padded ==> |data| == a.len
    ensures padded && a.len >= HeaderSize ==>
      data == a.view[HeaderSize..a.len] + [0, 0, 0]
    ensures !padded && a.len >= HeaderSize ==> data == a.view[HeaderSize..a.len]
  {
    if padded then
      var data := seq(a.len, j requires 0 <= j < a.len => if j + HeaderSize < a.len then a.view[j + HeaderSize] else 0);
      assert a.len >= HeaderSize ==> data == a.view[HeaderSize..a.len] + [0, 0, 0];
      data
    else if a.len >= HeaderSize then a.view[HeaderSize..a.len]
    else []
  }

  /** The acknowledgement for a packet behind the window, sent after the
      window test whatever its outcome. */
  function OldAck(n: int, base: int): seq<seq<byte>>
  {
    if 0 <= n < base then [EncodeAck(n)] else []
  }

  /** The in-order branch: the packet's payload `p` is written, then the
      drain; the window base moves to one past the last packet written, so the
      packet is acknowledged by the window test and again by the test for
      packets behind the window. */
  function Deliver(s: State, n: nat, p: seq<byte>, eof: bool): (r: Receiving.Step<State>)
    ensures var dr := Drain(n, s.queue, eof);
      && r == Next(State(dr.prev, dr.prev + 1, dr.queue), p + dr.written, [EncodeAck(n), EncodeAck(n)], dr.finished)
      && r.state.base > n
  {
    var dr := Drain(n, s.queue, eof);
    var base := dr.prev + 1;
    Next(State(dr.prev, base, dr.queue), p + dr.written, [EncodeAck(n)] + OldAck(n, base), dr.finished)
  }

  /** The out-of-order branch: the packet is buffered unless a packet with
      its number already is, and acknowledged once. */
  function Hold(s: State, bp: BufferedPacket): (r: Receiving.Step<State>)
    requires bp.num >= s.base
    ensures r.Next? && r.written == [] && !r.finished && r.acks == [EncodeAck(bp.num)]
    ensures r.state.prev == s.prev && r.state.base == s.base
    ensures Contains(s.queue, bp) ==> r.state.queue == s.queue
    ensures !Contains(s.queue, bp) ==> multiset(r.state.queue) == multiset(s.queue) + multiset{bp}
  {
    var q := if Contains(s.queue, bp) then s.queue else Add(s.queue, bp);
    Next(State(s.prev, s.base, q), [], [EncodeAck(bp.num)] + OldAck(bp.num, s.base), false)
  }

  /** One turn of the loop with window size `ws`; `padded` selects the
      buffered-packet storage as written (true) or corrected (false). */
  function StepWith(padded: bool, ws: int, s: State, d: seq<byte>): (r: Receiving.Step<State>)
    ensures var n := Number(d);
      && (r.Crash? <==> s.base <= n <= s.base + ws - 1 && n == s.prev + 1 && |d| < HeaderSize)
      && (n > s.base + ws - 1 || n < s.base ==> r == Next(s, [], OldAck(n, s.base), false))
  {
    ArrivePayload(d);
    var a := Arrive(d);
    var n := UnsignedNum(a.view[0], a.view[1]);
    var eof := EofPositive(a.view[2]);
    if s.base <= n <= s.base + ws - 1 then
      if n == s.prev + 1 then
        match Payload(a)
        case None => Crash
        case Some(p) => Deliver(s, n, p, eof)
      else
        Hold(s, BufferedPacket(n, Stored(padded, a), eof))
    else
      Next(s, [], OldAck(n, s.base), false)
  }

  function Step(ws: int): (step: (State, seq<byte>) -> Receiving.Step<State>)
    ensures forall s, d :: step(s, d) == StepWith(true, ws, s, d)
  {
    (s, d) => StepWith(true, ws, s, d)
  }

  function Corrected(ws: int): (step: (State, seq<byte>) -> Receiving.Step<State>)
    ensures forall s, d :: step(s, d) == StepWith(false, ws, s, d)
  {
    (s, d) => StepWith(false, ws, s, d)
  }

  /** The window invariant: the base is one past the last packet written, and
      the buffered numbers are distinct, ascending and inside the window above
      its base. */
  predicate Inv(ws: int, s: State)
  {
    && s.base == s.prev + 1
    && s.prev >= -1
    && Ascending(s.queue)
    && forall i :: 0 <= i < |s.queue| ==> s.base < s.queue[i].num <= s.base + ws - 1
  }

  lemma InitInv(ws: int)
    ensures Inv(ws, Init)
  {
  }

  lemma DrainKeepsInv(ws: int, s: State, eof: bool)
    requires Inv(ws, s)
    ensures var dr := Drain(s.base, s.queue, eof);
      Inv(ws, State(dr.prev, dr.prev + 1, dr.queue))
  {
    var dr := Drain(s.base, s.queue, eof);
    DrainSpec(s.base, s.queue, eof);
    DrainLeavesGap(s.base, s.queue, eof);
    var m := |s.queue| - |dr.queue|;
    forall i | 0 <= i < |dr.queue|
      ensures dr.queue[i].num <= dr.prev + 1 + ws - 1
    {
      assert dr.queue[i] == s.queue[m + i];
    }
  }

  lemma DeliverKeepsInv(ws: int, s: State, n: nat, p: seq<byte>, eof: bool)
    requires Inv(ws, s) && n == s.base
    ensures Inv(ws, Deliver(s, n, p, eof).state)
  {
    DrainKeepsInv(ws, s, eof);
  }

  lemma HoldKeepsInv(ws: int, s: State, bp: BufferedPacket)
    requires Inv(ws, s) && s.base < bp.num <= s.base + ws - 1
    ensures Inv(ws, Hold(s, bp).state)
  {
    var q := Hold(s, bp).state.queue;
    forall i | 0 <= i < |q|
      ensures s.base < q[i].num <= s.base + ws - 1
    {
      HeldFrom(s, bp, i);
    }
  }

  /** Every packet buffered after the out-of-order branch was buffered
      before or is the packet that arrived. */
  lemma HeldFrom(s: State, bp: BufferedPacket, i: nat)
    requires bp.num >= s.base && i < |Hold(s, bp).state.queue|
    ensures var x := Hold(s, bp).state.queue[i];
      x == bp || exists j :: 0 <= j < |s.queue| && s.queue[j] == x
  {
    var q := Hold(s, bp).state.queue;
    assert q[i] in multiset(q);
    if q[i] != bp {
      assert q[i] in s.queue;
    }
  }

  lemma StepKeepsInv(padded: bool, ws: int, s: State, d: seq<byte>)
    requires Inv(ws, s)
    requires StepWith(padded, ws, s, d).Next?
    ensures Inv(ws, StepWith(padded, ws, s, d).state)
  {
    ArrivePayload(d);
    var a := Arrive(d);
    var n := Number(d);
    var eof := EofPositive(a.view[2]);
    if s.base <= n <= s.base + ws - 1 {
      if n == s.prev + 1 {
        DeliverKeepsInv(ws, s, n, Payload(a).value, eof);
      } else {
        HoldKeepsInv(ws, s, BufferedPacket(n, Stored(padded, a), eof));
      }
    }
  }

  /** The queue never holds as many packets as the window is wide. */
  lemma BufferBound(ws: int, s: State)
    requires Inv(ws, s)
    ensures |s.queue| <= if ws > 1 then ws - 1 else 0
  {
    AscendingBound(s.queue, s.base, s.base + ws - 1);
  }

  lemma {:induction false} RunKeepsInv(padded: bool, ws: int, ch: seq<seq<byte>>)
    ensures Inv(ws, Run((s, d) => StepWith(padded, ws, s, d), Start(Init), ch).state)
    decreases |ch|
  {
    var step := (s, d) => StepWith(padded, ws, s, d);
    if |ch| > 0 {
      var pre := ch[..|ch| - 1];
      assert pre + [ch[|ch| - 1]] == ch;
      RunKeepsInv(padded, ws, pre);
      RunSnoc(step, Start(Init), pre, ch[|ch| - 1]);
      var t := Run(step, Start(Init), pre);
      if !t.finished && !t.crashed && StepWith(padded, ws, t.state, ch[|ch| - 1]).Next? {
        StepKeepsInv(padded, ws, t.state, ch[|ch| - 1]);
      }
    }
  }

  /** A packet at the window base, which under the invariant is the next one
      expected: its payload is written first and it is acknowledged twice. */
  lemma InOrder(padded: bool, ws: int, s: State, d: seq<byte>)
    requires Inv(ws, s) && HeaderSize <= |d| <= PacketSize
    requires Number(d) == s.base && ws >= 1
    ensures var r := StepWith(padded, ws, s, d);
      && r.Next?
      && |r.written| >= |d| - HeaderSize && r.written[..|d| - HeaderSize] == d[HeaderSize..]
      && r.acks == [EncodeAck(Number(d)), EncodeAck(Number(d))]
      && r.state.base > Number(d)
  {
    ArrivePayload(d);
  }

  /** A packet inside the window but above its base is buffered, unless a
      packet with its number already is, and acknowledged once; nothing is
      written. As written, the data kept is its payload and three zeros. */
  lemma OutOfOrder(padded: bool, ws: int, s: State, d: seq<byte>)
    requires Inv(ws, s) && HeaderSize <= |d| <= PacketSize
    requires s.base < Number(d) <= s.base + ws - 1
    ensures var r := StepWith(padded, ws, s, d);
      var bp := BufferedPacket(Number(d), if padded then d[HeaderSize..] + [0, 0, 0] else d[HeaderSize..], Signed(d[2]) > 0);
      && r.Next? && r.written == [] && !r.finished
      && r.acks == [EncodeAck(Number(d))]
      && r.state.prev == s.prev && r.state.base == s.base
      && (Contains(s.queue, bp) ==> r.state.queue == s.queue)
      && (!Contains(s.queue, bp) ==> multiset(r.state.queue) == multiset(s.queue) + multiset{bp})
  {
    ArrivePayload(d);
    var a := Arrive(d);
    assert a.view[HeaderSize..a.len] == d[HeaderSize..];
  }

  /** With packets 5, 6 and 8 buffered, the arrival of packet 4 writes 4, 5
      and 6 and leaves 8 waiting behind the gap at 7. */
  lemma DrainExample(a: seq<byte>, b: seq<byte>, c: seq<byte>)
    ensures var q := [BufferedPacket(5, a, false), BufferedPacket(6, b, false), BufferedPacket(8, c, true)];
      Drain(4, q, false) == Drained(6, [q[2]], a + b, false)
  {
    var q := [BufferedPacket(5, a, false), BufferedPacket(6, b, false), BufferedPacket(8, c, true)];
    assert q[1..][1..] == [q[2]];
    assert Drain(6, [q[2]], false) == Drained(6, [q[2]], [], false);
    assert Drain(5, q[1..], false) == Drained(6, [q[2]], b, false);
    assert a + b == a + (b + []);
  }

  /** A buffered packet that holds exactly what Sender4 put in packet
      `e.num`. */
  predicate Matches(cs: seq<Chunk>, e: BufferedPacket)
  {
    0 <= e.num < |cs| && e.data == cs[e.num].payload && e.eof == cs[e.num].eof
  }

  lemma {:induction false} WrittenRun(cs: seq<Chunk>, q: seq<BufferedPacket>, k: nat, m: nat)
    requires m <= |q| && k + m <= |cs|
    requires forall j :: 0 <= j < m ==> q[j].num == k + j && Matches(cs, q[j])
    ensures Written(q[..m]) == Data(cs[k..k + m])
    decreases m
  {
    if m == 0 {
      assert q[..0] == [] && cs[k..k] == [];
    } else {
      WrittenRun(cs, q, k, m - 1);
      TakeSnoc(q, m);
      WrittenSnoc(q[..m - 1], q[m - 1]);
      assert cs[k..k + m] == cs[k..k + m - 1] + [cs[k + m - 1]];
      DataSnoc(cs[k..k + m - 1], cs[k + m - 1]);
    }
  }

  /** What the corrected receiver knows after any run over Sender4's
      datagrams for the packets `cs`, in any order, lost or repeated: the
      window invariant holds, it has written exactly the payloads up to its
      last in-order packet, every buffered packet holds the right payload,
      and it has stopped exactly when it has written them all. */
  predicate Safe(cs: seq<Chunk>, ws: int, t: Trace<State>)
  {
    && !t.crashed
    && Inv(ws, t.state)
    && t.state.prev < |cs|
    && t.output == Data(cs[..t.state.prev + 1])
    && (forall i :: 0 <= i < |t.state.queue| ==> Matches(cs, t.state.queue[i]))
    && (t.finished <==> t.state.prev + 1 == |cs|)
  }

  /** Draining after packet `i` writes the payloads of the packets that
      follow it, up to the new last packet written. */
  lemma DrainOutput(cs: seq<Chunk>, q: seq<BufferedPacket>, i: nat, fin: bool)
    requires i < |cs|
    requires forall j :: 0 <= j < |q| ==> Matches(cs, q[j])
    ensures var dr := Drain(i, q, fin);
      dr.prev < |cs| && Data(cs[..i + 1]) + dr.written == Data(cs[..dr.prev + 1])
  {
    var dr := Drain(i, q, fin);
    var m := |q| - |dr.queue|;
    DrainSpec(i, q, fin);
    if m > 0 {
      assert Matches(cs, q[m - 1]);
    }
    WrittenRun(cs, q, i + 1, m);
    assert cs[..i + 1] + cs[i + 1..i + 1 + m] == cs[..i + 1 + m];
    DataAppend(cs[..i + 1], cs[i + 1..i + 1 + m]);
  }

  /** Draining after packet `i` ends the transfer exactly when the last
      packet written is the last packet of all. */
  lemma DrainFinished(cs: seq<Chunk>, q: seq<BufferedPacket>, i: nat)
    requires Shaped(cs, UniversityCap) && i < |cs|
    requires forall j :: 0 <= j < |q| ==> Matches(cs, q[j])
    ensures var dr := Drain(i, q, cs[i].eof);
      dr.finished <==> dr.prev + 1 == |cs|
  {
    var dr := Drain(i, q, cs[i].eof);
    var m := |q| - |dr.queue|;
    DrainSpec(i, q, cs[i].eof);
    if m > 0 {
      assert Matches(cs, q[m - 1]);
    }
  }

  /** Draining keeps only packets already in the queue. */
  lemma DrainMatches(cs: seq<Chunk>, q: seq<BufferedPacket>, i: nat, fin: bool)
    requires forall j :: 0 <= j < |q| ==> Matches(cs, q[j])
    ensures var dr := Drain(i, q, fin);
      forall j :: 0 <= j < |dr.queue| ==> Matches(cs, dr.queue[j])
  {
    var dr := Drain(i, q, fin);
    var m := |q| - |dr.queue|;
    DrainSpec(i, q, fin);
    forall j | 0 <= j < |dr.queue|
      ensures Matches(cs, dr.queue[j])
    {
      assert dr.queue[j] == q[m + j];
    }
  }

  lemma DeliverSafe(cs: seq<Chunk>, ws: int, t: Trace<State>, i: nat)
    requires Shaped(cs, UniversityCap)
    requires Safe(cs, ws, t) && !t.finished
    requires i == t.state.base
    ensures var r := Deliver(t.state, i, cs[i].payload, cs[i].eof);
      Safe(cs, ws, Trace(r.state, t.output + r.written, t.acks + r.acks, r.finished, false))
  {
    var dr := Drain(i, t.state.queue, cs[i].eof);
    DrainSafe(cs, ws, t.state, i);
    SafeAfterDrain(cs, ws, t, i, dr.prev, dr.queue, dr.written, dr.finished, [EncodeAck(i), EncodeAck(i)]);
  }

  /** The drain after packet `i`, with every buffered packet one of the
      file's: the new state keeps the invariant, the output grows by the next
      packets in order, and the transfer ends exactly after the last one. */
  lemma DrainSafe(cs: seq<Chunk>, ws: int, s: State, i: nat)
    requires Shaped(cs, UniversityCap) && i < |cs|
    requires Inv(ws, s) && i == s.base
    requires forall j :: 0 <= j < |s.queue| ==> Matches(cs, s.queue[j])
    ensures var dr := Drain(i, s.queue, cs[i].eof);
      && Inv(ws, State(dr.prev, dr.prev + 1, dr.queue)) && dr.prev < |cs|
      && Data(cs[..i + 1]) == Data(cs[..i]) + cs[i].payload
      && Data(cs[..i + 1]) + dr.written == Data(cs[..dr.prev + 1])
      && (dr.finished <==> dr.prev + 1 == |cs|)
      && forall j :: 0 <= j < |dr.queue| ==> Matches(cs, dr.queue[j])
  {
    DrainKeepsInv(ws, s, cs[i].eof);
    DrainOutput(cs, s.queue, i, cs[i].eof);
    DrainFinished(cs, s.queue, i);
    DrainMatches(cs, s.queue, i, cs[i].eof);
    DataPrefixSnoc(cs, i);
  }

  /** What the in-order branch needs of the drain to keep the trace safe. */
  lemma SafeAfterDrain(cs: seq<Chunk>, ws: int, t: Trace<State>, i: nat,
                       prev: int, q: seq<BufferedPacket>, written: seq<byte>, fin: bool, acks: seq<seq<byte>>)
    requires Safe(cs, ws, t) && i == t.state.base && i < |cs|
    requires Inv(ws, State(prev, prev + 1, q)) && prev < |cs|
    requires Data(cs[..i + 1]) == Data(cs[..i]) + cs[i].payload
    requires Data(cs[..i + 1]) + written == Data(cs[..prev + 1])
    requires fin <==> prev + 1 == |cs|
    requires forall j :: 0 <= j < |q| ==> Matches(cs, q[j])
    ensures Safe(cs, ws, Trace(State(prev, prev + 1, q), t.output + (cs[i].payload + written), t.acks + acks, fin, false))
  {
    assert t.output + (cs[i].payload + written) == (t.output + cs[i].payload) + written;
  }

  lemma HoldSafe(cs: seq<Chunk>, ws: int, t: Trace<State>, bp: BufferedPacket)
    requires Safe(cs, ws, t) && !t.finished
    requires t.state.base < bp.num <= t.state.base + ws - 1
    requires Matches(cs, bp)
    ensures var r := Hold(t.state, bp);
      Safe(cs, ws, Trace(r.state, t.output + r.written, t.acks + r.acks, r.finished, false))
  {
    HoldKeepsInv(ws, t.state, bp);
    var q := Hold(t.state, bp).state.queue;
    forall j | 0 <= j < |q|
      ensures Matches(cs, q[j])
    {
      HeldFrom(t.state, bp, j);
    }
  }

  /** A datagram numbered one past the last packet written, inside the
      window and holding a header, takes the in-order branch. */
  lemma StepDeliver(padded: bool, ws: int, s: State, d: seq<byte>, p: seq<byte>)
    requires s.base <= Number(d) <= s.base + ws - 1 && Number(d) == s.prev + 1 && Number(d) >= 0
    requires Payload(Arrive(d)) == Some(p)
    ensures StepWith(padded, ws, s, d) == Deliver(s, Number(d), p, EofPositive(Flag(d)))
  {
  }

  /** Any other datagram inside the window takes the buffering branch. */
  lemma StepHold(padded: bool, ws: int, s: State, d: seq<byte>)
    requires s.base <= Number(d) <= s.base + ws - 1 && Number(d) != s.prev + 1
    ensures StepWith(padded, ws, s, d) == Hold(s, BufferedPacket(Number(d), Stored(padded, Arrive(d)), EofPositive(Flag(d))))
  {
  }

  /** The corrected step on Sender4's datagram for packet `i` keeps the
      trace safe. */
  lemma StepSafe(cs: seq<Chunk>, ws: int, t: Trace<State>, i: nat)
    requires Shaped(cs, UniversityCap) && |cs| <= 65536 && i < |cs|
    requires Safe(cs, ws, t) && !t.finished
    ensures var r := StepWith(false, ws, t.state, Frame(i, cs[i]));
      r.Next? && Safe(cs, ws, Trace(r.state, t.output + r.written, t.acks + r.acks, r.finished, false))
  {
    var d := Frame(i, cs[i]);
    var s := t.state;
    SeeFrame(i, cs[i]);
    if s.base <= i <= s.base + ws - 1 {
      if i == s.prev + 1 {
        StepDeliver(false, ws, s, d, cs[i].payload);
        DeliverSafe(cs, ws, t, i);
      } else {
        StepHold(false, ws, s, d);
        assert Stored(false, Arrive(d)) == cs[i].payload;
        HoldSafe(cs, ws, t, BufferedPacket(i, cs[i].payload, cs[i].eof));
      }
    }
  }

  lemma FeedSafe(cs: seq<Chunk>, ws: int, t: Trace<State>, d: seq<byte>)
    requires Shaped(cs, UniversityCap) && |cs| <= 65536
    requires d in FramesFrom(cs, Counting(0), 0)
    requires Safe(cs, ws, t)
    ensures Safe(cs, ws, Feed(Corrected(ws), t, d))
  {
    var fs := FramesFrom(cs, Counting(0), 0);
    var i :| 0 <= i < |fs| && fs[i] == d;
    if !t.finished {
      assert d == Frame(i, cs[i]);
      StepSafe(cs, ws, t, i);
      var r := StepWith(false, ws, t.state, d);
      assert Corrected(ws)(t.state, d) == r;
    }
  }

  lemma {:induction false} SafeRun(cs: seq<Chunk>, ws: int, ch: seq<seq<byte>>)
    requires Shaped(cs, UniversityCap) && |cs| <= 65536
    requires forall j :: 0 <= j < |ch| ==> ch[j] in FramesFrom(cs, Counting(0), 0)
    ensures Safe(cs, ws, Run(Corrected(ws), Start(Init), ch))
    decreases |ch|
  {
    if |ch| == 0 {
      assert cs[..0] == [];
    } else {
      var pre := ch[..|ch| - 1];
      assert pre + [ch[|ch| - 1]] == ch;
      SafeRun(cs, ws, pre);
      RunSnoc(Corrected(ws), Start(Init), pre, ch[|ch| - 1]);
      FeedSafe(cs, ws, Run(Corrected(ws), Start(Init), pre), ch[|ch| - 1]);
    }
  }

  /** Whatever the channel does to Sender4's datagrams (loss, duplication,
      reordering), the corrected receiver never writes a byte out of place,
      and once it stops it has written the file exactly. */
  lemma Safety(input: seq<byte>, ws: int, ch: seq<seq<byte>>)
    requires |Chunks(input, UniversityCap)| <= 65536
    requires forall j :: 0 <= j < |ch| ==> ch[j] in Frames(input, UniversityCap, Counting(0))
    ensures var t := Run(Corrected(ws), Start(Init), ch);
      && !t.crashed
      && -1 <= t.state.prev < |Chunks(input, UniversityCap)|
      && t.output == Data(Chunks(input, UniversityCap)[..t.state.prev + 1])
      && (t.finished ==> t.output == input)
  {
    var cs := Chunks(input, UniversityCap);
    ChunksShaped(input, UniversityCap);
    assert Frames(input, UniversityCap, Counting(0)) == FramesFrom(cs, Counting(0), 0);
    SafeRun(cs, ws, ch);
    SafeFinished(cs, ws, Run(Corrected(ws), Start(Init), ch));
    ChunksReassemble(input, UniversityCap);
  }

  /** A safe trace has written a prefix of the payloads, and all of them once
      it has stopped. */
  lemma SafeFinished(cs: seq<Chunk>, ws: int, t: Trace<State>)
    requires Safe(cs, ws, t)
    ensures -1 <= t.state.prev < |cs| && t.output == Data(cs[..t.state.prev + 1])
    ensures t.finished ==> t.output == Data(cs)
  {
    if t.finished {
      assert cs[..|cs|] == cs;
    }
  }

  /** A loop body that is one of the two steps. */
  ghost predicate Steps(step: (State, seq<byte>) -> Receiving.Step<State>, padded: bool, ws: int)
  {
    forall s, d :: step(s, d) == StepWith(padded, ws, s, d)
  }

  /** Packet `k` arriving when it is the next one expected and nothing is
      buffered: its payload is written, it is acknowledged twice, and the
      receiver stops exactly when it is the last packet. */
  lemma InOrderFrame(step: (State, seq<byte>) -> Receiving.Step<State>, padded: bool, ws: int, cs: seq<Chunk>, t: Trace<State>, k: nat)
    requires Steps(step, padded, ws) && ws >= 1
    requires Shaped(cs, UniversityCap) && |cs| <= 65536 && k < |cs|
    requires !t.crashed && !t.finished && t.state == State(k - 1, k, [])
    ensures Feed(step, t, Frame(k, cs[k]))
      == Trace(State(k, k + 1, []), t.output + cs[k].payload, t.acks + [EncodeAck(k), EncodeAck(k)], k == |cs| - 1, false)
  {
    SeeFrame(k, cs[k]);
    StepDeliver(padded, ws, t.state, Frame(k, cs[k]), cs[k].payload);
  }

  /** A copy of packet `k` arriving after it was written: it is behind the
      window, so it is only acknowledged again. */
  lemma BehindFrame(step: (State, seq<byte>) -> Receiving.Step<State>, padded: bool, ws: int, cs: seq<Chunk>, t: Trace<State>, k: nat)
    requires Steps(step, padded, ws)
    requires Shaped(cs, UniversityCap) && |cs| <= 65536 && k < |cs|
    requires !t.crashed && !t.finished && t.state.base == k + 1
    ensures Feed(step, t, Frame(k, cs[k])) == t.(acks := t.acks + [EncodeAck(k)])
  {
    SeeFrame(k, cs[k]);
  }

  /** Further copies of packet `k` once it has been written change nothing
      but the acknowledgements. */
  lemma {:induction false} DuplicatesIgnored(step: (State, seq<byte>) -> Receiving.Step<State>, padded: bool, ws: int, cs: seq<Chunk>, t: Trace<State>, k: nat, c: nat)
    requires Steps(step, padded, ws)
    requires Shaped(cs, UniversityCap) && |cs| <= 65536 && k < |cs|
    requires !t.crashed && t.state.base == k + 1
    ensures var r := Run(step, t, Copies(Frame(k, cs[k]), c));
      r.state == t.state && r.output == t.output && r.finished == t.finished && !r.crashed
    decreases c
  {
    var d := Frame(k, cs[k]);
    if c > 0 {
      if t.finished {
        RunStopped(step, t, Copies(d, c));
      } else {
        BehindFrame(step, padded, ws, cs, t, k);
        assert Copies(d, c)[1..] == Copies(d, c - 1);
        DuplicatesIgnored(step, padded, ws, cs, Feed(step, t, d), k, c - 1);
      }
    }
  }

  /** Over a channel that neither loses nor reorders but may repeat a
      datagram, the rest of the run from packet `k` writes the remaining
      payloads and stops after the last packet, with nothing buffered. */
  lemma {:induction false} RepeatedRun(step: (State, seq<byte>) -> Receiving.Step<State>, padded: bool, ws: int, cs: seq<Chunk>, counts: seq<nat>, t: Trace<State>, k: nat)
    requires Steps(step, padded, ws) && ws >= 1
    requires Shaped(cs, UniversityCap) && |cs| <= 65536 && k <= |cs|
    requires |counts| == |cs| && forall j :: 0 <= j < |counts| ==> counts[j] >= 1
    requires !t.crashed && t.state == State(k - 1, k, []) && t.output == Data(cs[..k]) && (t.finished <==> k == |cs|)
    ensures var fs := FramesFrom(cs, Counting(0), 0);
      var r := Run(step, t, Repeat(fs[k..], counts[k..]));
      && !r.crashed && r.finished
      && r.state == State(|cs| - 1, |cs|, [])
      && r.output == Data(cs)
    decreases |cs| - k
  {
    var fs := FramesFrom(cs, Counting(0), 0);
    if k == |cs| {
      assert cs[..k] == cs;
      assert Repeat(fs[k..], counts[k..]) == [];
    } else {
      RepeatAt(fs, counts, k);
      var dups := Copies(fs[k], counts[k] - 1);
      var rest := Repeat(fs[k + 1..], counts[k + 1..]);
      assert [fs[k]] + dups + rest == [fs[k]] + (dups + rest);
      RunAppend(step, t, [fs[k]], dups + rest);
      RunSnoc(step, t, [], fs[k]);
      assert [] + [fs[k]] == [fs[k]];
      InOrderFrame(step, padded, ws, cs, t, k);
      DataPrefixSnoc(cs, k);
      var t1 := Feed(step, t, fs[k]);
      RunAppend(step, t1, dups, rest);
      DuplicatesIgnored(step, padded, ws, cs, t1, k, counts[k] - 1);
      RepeatedRun(step, padded, ws, cs, counts, Run(step, t1, dups), k + 1);
    }
  }

  /** Both receivers write the file exactly over a channel that delivers
      every datagram of Sender4 in order, each at least once. */
  lemma LosslessWith(step: (State, seq<byte>) -> Receiving.Step<State>, padded: bool, ws: int, input: seq<byte>, counts: seq<nat>)
    requires Steps(step, padded, ws) && ws >= 1
    requires |Chunks(input, UniversityCap)| <= 65536
    requires |counts| == |Chunks(input, UniversityCap)| && forall j :: 0 <= j < |counts| ==> counts[j] >= 1
    ensures var t := Run(step, Start(Init), Repeat(Frames(input, UniversityCap, Counting(0)), counts));
      t.finished && t.output == input && t.state.queue == []
  {
    var cs := Chunks(input, UniversityCap);
    var fs := Frames(input, UniversityCap, Counting(0));
    ChunksShaped(input, UniversityCap);
    assert fs == FramesFrom(cs, Counting(0), 0);
    assert cs[..0] == [] && fs[0..] == fs && counts[0..] == counts;
    RepeatedRun(step, padded, ws, cs, counts, Start(Init), 0);
    ChunksReassemble(input, UniversityCap);
  }

  /** The receiver as written is lossless when nothing is reordered. */
  lemma Lossless(ws: int, input: seq<byte>, counts: seq<nat>)
    requires ws >= 1
    requires |Chunks(input, UniversityCap)| <= 65536
    requires |counts| == |Chunks(input, UniversityCap)| && forall j :: 0 <= j < |counts| ==> counts[j] >= 1
    ensures var t := Run(Step(ws), Start(Init), Repeat(Frames(input, UniversityCap, Counting(0)), counts));
      t.finished && t.output == input
  {
    LosslessWith(Step(ws), true, ws, input, counts);
  }

  /** The second of two packets arriving first, with a window of two: it is
      buffered with the data the storage keeps. */
  lemma SecondFirst(step: (State, seq<byte>) -> Receiving.Step<State>, padded: bool, cs: seq<Chunk>)
    requires Steps(step, padded, 2)
    requires Shaped(cs, UniversityCap) && |cs| == 2
    ensures Feed(step, Start(Init), Frame(1, cs[1]))
      == Trace(State(-1, 0, [BufferedPacket(1, cs[1].payload + (if padded then [0, 0, 0] else []), true)]), [], [EncodeAck(1)], false, false)
  {
    var d := Frame(1, cs[1]);
    SeeFrame(1, cs[1]);
    var a := Arrive(d);
    assert a.view[HeaderSize..a.len] == cs[1].payload;
    var bp := BufferedPacket(1, Stored(padded, a), true);
    assert bp.data == cs[1].payload + (if padded then [0, 0, 0] else []);
    StepHold(padded, 2, Init, d);
    var q := Add([], bp);
    assert q[0] in multiset(q);
    assert q == [bp];
  }

  /** Then the first packet: it is written, and the drain writes the
      buffered one and ends the transfer. */
  lemma FirstSecond(step: (State, seq<byte>) -> Receiving.Step<State>, padded: bool, cs: seq<Chunk>, data: seq<byte>, t: Trace<State>)
    requires Steps(step, padded, 2)
    requires Shaped(cs, UniversityCap) && |cs| == 2
    requires t == Trace(State(-1, 0, [BufferedPacket(1, data, true)]), [], [EncodeAck(1)], false, false)
    ensures var r := Feed(step, t, Frame(0, cs[0]));
      r.finished && r.output == cs[0].payload + data
  {
    var bp := BufferedPacket(1, data, true);
    var d := Frame(0, cs[0]);
    SeeFrame(0, cs[0]);
    assert Number(d) == 0;
    var eof := EofPositive(Flag(d));
    StepDeliver(padded, 2, t.state, d, cs[0].payload);
    assert [bp][1..] == [];
    assert Drain(1, [], true) == Drained(1, [], [], true);
    var dr := Drain(0, [bp], eof);
    assert dr == Drained(1, [], data + [], true);
    var r := Deliver(t.state, 0, cs[0].payload, eof);
    assert r.Next? && r.written == cs[0].payload + data && r.finished;
    assert step(t.state, d) == r;
  }

  lemma SwappedRun(step: (State, seq<byte>) -> Receiving.Step<State>, padded: bool, cs: seq<Chunk>)
    requires Steps(step, padded, 2)
    requires Shaped(cs, UniversityCap) && |cs| == 2
    ensures var t := Run(step, Start(Init), [Frame(1, cs[1]), Frame(0, cs[0])]);
      t.finished && t.output == cs[0].payload + (cs[1].payload + (if padded then [0, 0, 0] else []))
  {
    var d1 := Frame(1, cs[1]);
    var d0 := Frame(0, cs[0]);
    var pad: seq<byte> := if padded then [0, 0, 0] else [];
    SecondFirst(step, padded, cs);
    var t1 := Feed(step, Start(Init), d1);
    FirstSecond(step, padded, cs, cs[1].payload + pad, t1);
    RunPair(step, Start(Init), d1, d0);
    assert Run(step, Start(Init), [d1, d0]) == Feed(step, t1, d0);
  }

  /** A two-packet file whose packets arrive swapped, with a window of two.
      As written the file ends with three extra zero bytes; corrected it is
      exact. */
  lemma SwappedWith(step: (State, seq<byte>) -> Receiving.Step<State>, padded: bool, input: seq<byte>)
    requires Steps(step, padded, 2)
    requires |Chunks(input, UniversityCap)| == 2
    ensures var fs := Frames(input, UniversityCap, Counting(0));
      var t := Run(step, Start(Init), [fs[1], fs[0]]);
      t.finished && t.output == input + (if padded then [0, 0, 0] else [])
  {
    SwappedInput(input, if padded then [0, 0, 0] else []);
    SwappedRun(step, padded, Chunks(input, UniversityCap));
  }

  /** A two-packet file: its datagrams, and its payloads in order followed
      by `pad`. */
  lemma SwappedInput(input: seq<byte>, pad: seq<byte>)
    requires |Chunks(input, UniversityCap)| == 2
    ensures var cs := Chunks(input, UniversityCap);
      var fs := Frames(input, UniversityCap, Counting(0));
      && Shaped(cs, UniversityCap)
      && [fs[1], fs[0]] == [Frame(1, cs[1]), Frame(0, cs[0])]
      && cs[0].payload + (cs[1].payload + pad) == input + pad
  {
    var cs := Chunks(input, UniversityCap);
    ChunksShaped(input, UniversityCap);
    ChunksReassemble(input, UniversityCap);
    FrameAt(input, UniversityCap, Counting(0), 0);
    FrameAt(input, UniversityCap, Counting(0), 1);
    DataPair(cs);
    assert cs[0].payload + (cs[1].payload + pad) == cs[0].payload + cs[1].payload + pad;
  }

  /** As written: the file gains three zero bytes. */
  lemma TrailingZeros(input: seq<byte>)
    requires |Chunks(input, UniversityCap)| == 2
    ensures var fs := Frames(input, UniversityCap, Counting(0));
      var t := Run(Step(2), Start(Init), [fs[1], fs[0]]);
      t.finished && t.output == input + [0, 0, 0] && t.output != input
  {
    SwappedWith(Step(2), true, input);
  }

  /** Corrected: the same channel gives back the file exactly. */
  lemma SwappedCorrected(input: seq<byte>)
    requires |Chunks(input, UniversityCap)| == 2
    ensures var fs := Frames(input, UniversityCap, Counting(0));
      var t := Run(Corrected(2), Start(Init), [fs[1], fs[0]]);
      t.finished && t.output == input
  {
    SwappedWith(Corrected(2), false, input);
    assert input + [] == input;
  }
}
