/** Sender2a, the Coursework go-back-N sender. The window is a list of
    PacketInfo entries; the cursor `ackPacket` and the flag `receiveAck` are
    static fields shared with the acknowledgement thread. Each turn of the
    main loop drops at most one entry from the front of the window, fills the
    window from the file, sending each new packet once as it is made, then
    resends every entry above the cursor whose time of transmission is more
    than `timeout` ms old. The loop ends as soon as the packet marked
    end-of-file has been made. The acknowledgement thread runs while
    `receiveAck` is set, which the main loop first does after its first send:
    if the thread tests the flag before that, it ends at once. */
module Sender2a {
  import opened Bytes
  import opened Options
  import opened Codec
  import opened Framing
  import opened Reading
  import opened PacketInfos
  import Receiving
  import Receiver2a

  datatype State = State(
    window: seq<PacketInfo>, reader: Reader, packetNo: int,
    ackPacket: int, receiveAck: bool, listening: bool)

  /** `ackPacket = -1`, `receiveAck = false`, `packetNo = 0`; the thread has
      been started. */
  function Init(input: seq<byte>): State
  {
    State([], Open(input), 0, -1, false, true)
  }

  /** One pass of the acknowledgement thread's loop: test `receiveAck` and
      end if it is clear; otherwise wait for a datagram (`a` is None when the
      wait times out) and move the cursor up to its signed little-endian
      number if that is higher. */
  function Listen(st: State, a: Option<seq<byte>>): (r: State)
    ensures r.window == st.window && r.reader == st.reader && r.packetNo == st.packetNo
    ensures r.receiveAck == st.receiveAck
    ensures r.listening == (st.listening && st.receiveAck)
    ensures r.ackPacket >= st.ackPacket
    ensures !r.listening ==> r.ackPacket == st.ackPacket
    ensures r.listening && a.Some? ==> r.ackPacket == if DecodeSignedAck(a.value) > st.ackPacket then DecodeSignedAck(a.value) else st.ackPacket
    ensures a.None? ==> r.ackPacket == st.ackPacket
  {
    if !st.listening then st
    else if !st.receiveAck then st.(listening := false)
    else match a
      case None => st
      case Some(d) =>
        var n := DecodeSignedAck(d);
        if n > st.ackPacket then st.(ackPacket := n) else st
  }

  /** Receiver2a's acknowledgement of `n` moves the cursor to `n` if it is
      higher, so a stale acknowledgement changes nothing. */
  lemma ListenToAck(st: State, n: int)
    requires st.listening && st.receiveAck && -32768 <= n < 32768
    ensures Listen(st, Some(EncodeAck(n))).ackPacket == if n > st.ackPacket then n else st.ackPacket
  {
    SignedAckRoundTrip(n);
  }

  /** The removal at the top of the loop: the first entry goes if its number
      is at or below the cursor; an empty window is left alone (the index
      exception is caught). */
  function RetireOne(w: seq<PacketInfo>, ackPacket: int): (r: seq<PacketInfo>)
    ensures |w| - 1 <= |r| <= |w| && r == w[|w| - |r|..]
    ensures |r| < |w| <==> |w| > 0 && w[0].packetNo <= ackPacket
  {
    if |w| > 0 && w[0].packetNo <= ackPacket then w[1..] else w
  }

  /** One pass of the admission loop at time `now`: read the next packet,
      append its entry, advance the number, send it and set `receiveAck`. */
  function AdmitOne(st: State, now: int): (r: (State, seq<byte>))
    requires !st.reader.eof
  {
    var (c, rd) := Read(st.reader, CourseworkCap);
    var f := Frame(st.packetNo, c);
    (st.(window := st.window + [New(f, st.packetNo, now)], reader := rd, packetNo := st.packetNo + 1, receiveAck := true), f)
  }

  /** The admission loop, `while (packetsInfo.size() < windowSize)`, left by
      `break` once the packet marked end-of-file has been made. Returns the
      state and the datagrams sent. The window keeps its entries at the
      front, never grows beyond `ws`, and is full unless the file has been
      read to the end. */
  function Admit(st: State, ws: int, now: int): (r: (State, seq<seq<byte>>))
    ensures |r.0.window| >= |st.window| && r.0.window[..|st.window|] == st.window
    ensures |r.0.window| <= (if |st.window| > ws then |st.window| else ws)
    ensures |r.0.window| >= ws || r.0.reader.eof
    ensures r.0.packetNo - |r.0.window| == st.packetNo - |st.window|
    ensures r.0.ackPacket == st.ackPacket && r.0.listening == st.listening
    ensures r.0.receiveAck == (st.receiveAck || |r.0.window| > |st.window|)
    ensures st.reader.eof ==> r == (st, [])
    decreases if st.reader.eof then 0 else |st.reader.rest| + 1
  {
    if |st.window| < ws && !st.reader.eof then
      var (st', f) := AdmitOne(st, now);
      if st'.reader.eof then (st', [f])
      else
        var r := Admit(st', ws, now);
        assert r.0.window[..|st.window|] == r.0.window[..|st'.window|][..|st.window|];
        (r.0, [f] + r.1)
    else (st, [])
  }

  /** Each packet is sent once as it is made: the datagrams the admission
      loop sends are the new entries' datagrams, in order. */
  lemma {:induction false} AdmitSends(st: State, ws: int, now: int)
    ensures var r := Admit(st, ws, now);
      r.1 == Packets(r.0.window[|st.window|..])
    decreases if st.reader.eof then 0 else |st.reader.rest| + 1
  {
    if |st.window| < ws && !st.reader.eof {
      var (st', f) := AdmitOne(st, now);
      var e := st'.window[|st.window|];
      assert e.packet == f;
      if st'.reader.eof {
        assert st'.window[|st.window|..] == [e];
      } else {
        AdmitSends(st', ws, now);
        var r := Admit(st', ws, now);
        assert r.0.window[..|st'.window|] == st'.window;
        assert r.0.window[|st.window|] == e;
        assert r.0.window[|st.window|..] == [e] + r.0.window[|st'.window|..];
        PacketsCons(e, r.0.window[|st'.window|..]);
      }
    }
  }

  lemma PacketsCons(e: PacketInfo, w: seq<PacketInfo>)
    ensures Packets([e] + w) == [e.packet] + Packets(w)
  {
    assert forall i :: 1 <= i < |w| + 1 ==> ([e] + w)[i] == w[i - 1];
  }
  /** The resend loop at time `now`: every entry above the cursor whose
      time of transmission is more than `timeout` ms old is sent, in window
      order, and stamped with `now`; the others are left alone. */
  function Scan(w: seq<PacketInfo>, ackPacket: int, now: int, timeout: int): (r: (seq<PacketInfo>, seq<seq<byte>>))
    ensures |r.0| == |w| && |r.1| <= |w|
    ensures forall i :: 0 <= i < |w| ==>
      r.0[i] == if Due(w[i], ackPacket, now, timeout) then SetTimeOfTransmission(w[i], now) else w[i]
    ensures forall p :: p in r.1 <==> exists i :: 0 <= i < |w| && Due(w[i], ackPacket, now, timeout) && w[i].packet == p
    decreases |w|
  {
    if |w| == 0 then ([], [])
    else
      var rest := Scan(w[1..], ackPacket, now, timeout);
      assert forall i :: 1 <= i < |w| ==> w[i] == w[1..][i - 1];
      if Due(w[0], ackPacket, now, timeout) then
        ([SetTimeOfTransmission(w[0], now)] + rest.0, [w[0].packet] + rest.1)
      else
        ([w[0]] + rest.0, rest.1)
  }

  /** What one turn of the main loop sends: the new packets as they are
      made, then the resends. */
  datatype Sends = Sends(made: seq<seq<byte>>, resent: seq<seq<byte>>)

  /** One turn of the `do ... while (stillSending)` loop at time `now`:
      retire at most one entry, admit, resend, and clear `receiveAck` if the
      window is empty. */
  function Turn(st: State, ws: int, timeout: int, now: int): (r: (State, Sends))
  {
    var admitted := Admit(st.(window := RetireOne(st.window, st.ackPacket)), ws, now);
    var st2 := admitted.0;
    var scanned := Scan(st2.window, st2.ackPacket, now, timeout);
    var st3 := st2.(window := scanned.0, receiveAck := if |scanned.0| == 0 then false else st2.receiveAck);
    (st3, Sends(admitted.1, scanned.1))
  }

  /** What can happen between two turns of the main loop: the loop takes a
      turn, reading the clock once, or the acknowledgement thread takes a
      pass, receiving a datagram or timing out. */
  datatype Event = Loop(now: int) | AckArrives(a: seq<byte>) | AckWaitTimesOut

  datatype Progress = Progress(st: State, sent: seq<seq<byte>>, stopped: bool)

  /** The program driven by `events` until the main loop ends or the events
      run out. The loop ends when `stillSending` is false, that is once the
      packet marked end-of-file has been made. */
  function Go(ws: int, timeout: int, p: Progress, events: seq<Event>): Progress
    decreases |events|
  {
    if p.stopped || |events| == 0 then p
    else match events[0]
      case Loop(now) =>
        var t := Turn(p.st, ws, timeout, now);
        Go(ws, timeout, Progress(t.0, p.sent + t.1.made + t.1.resent, t.0.reader.eof), events[1..])
      case AckArrives(a) =>
        Go(ws, timeout, p.(st := Listen(p.st, Some(a))), events[1..])
      case AckWaitTimesOut =>
        Go(ws, timeout, p.(st := Listen(p.st, None)), events[1..])
  }

  function Send(input: seq<byte>, ws: int, timeout: int, events: seq<Event>): Progress
  {
    Go(ws, timeout, Progress(Init(input), [], false), events)
  }

  /** The window holds consecutive numbers ending just below `packetNo`. */
  predicate Numbered(st: State)
  {
    forall i :: 0 <= i < |st.window| ==> st.window[i].packetNo == st.packetNo - |st.window| + i
  }

  /** Every entry carries the datagram for its number. */
  predicate Carries(cs: seq<Chunk>, w: seq<PacketInfo>)
  {
    forall i :: 0 <= i < |w| ==> 0 <= w[i].packetNo < |cs| && w[i].packet == Frame(w[i].packetNo, cs[w[i].packetNo])
  }

  /** The invariant: the reader has made exactly the packets numbered below
      `packetNo`; the window holds the last of them with consecutive
      numbers, each entry carrying its datagram, and at most `ws` entries;
      the cursor is at least -1. */
  predicate Inv(input: seq<byte>, ws: int, st: State)
  {
    && st.packetNo >= 0
    && ReaderAt(input, CourseworkCap, st.reader, st.packetNo)
    && |st.window| <= st.packetNo
    && |st.window| <= (if ws > 0 then ws else 0)
    && Numbered(st)
    && Carries(Chunks(input, CourseworkCap), st.window)
    && st.ackPacket >= -1
  }

  lemma InitInv(input: seq<byte>, ws: int)
    ensures Inv(input, ws, Init(input))
  {
    OpenAt(input, CourseworkCap);
  }

  lemma AdmitOneNumbered(st: State, now: int)
    requires Numbered(st) && !st.reader.eof
    ensures Numbered(AdmitOne(st, now).0)
  {
    var r := AdmitOne(st, now).0;
    forall i | 0 <= i < |r.window|
      ensures r.window[i].packetNo == r.packetNo - |r.window| + i
    {
      if i < |st.window| {
        assert r.window[i] == st.window[i];
      }
    }
  }

  lemma AdmitOneCarries(cs: seq<Chunk>, st: State, now: int, c: Chunk)
    requires Carries(cs, st.window) && !st.reader.eof
    requires 0 <= st.packetNo < |cs| && c == cs[st.packetNo] && c == Read(st.reader, CourseworkCap).0
    ensures Carries(cs, AdmitOne(st, now).0.window)
  {
    var w := AdmitOne(st, now).0.window;
    forall i | 0 <= i < |w|
      ensures 0 <= w[i].packetNo < |cs| && w[i].packet == Frame(w[i].packetNo, cs[w[i].packetNo])
    {
      if i < |st.window| {
        assert w[i] == st.window[i];
      }
    }
  }

  lemma AdmitOneKeepsInv(input: seq<byte>, ws: int, st: State, now: int)
    requires Inv(input, ws, st) && !st.reader.eof && |st.window| < ws
    ensures Inv(input, ws, AdmitOne(st, now).0)
  {
    var res := Read(st.reader, CourseworkCap);
    ReadAt(input, CourseworkCap, st.reader, st.packetNo);
    var r := AdmitOne(st, now).0;
    assert r.reader == res.1 && r.packetNo == st.packetNo + 1;
    assert ReaderAt(input, CourseworkCap, r.reader, r.packetNo);
    AdmitOneNumbered(st, now);
    AdmitOneCarries(Chunks(input, CourseworkCap), st, now, res.0);
  }

  lemma {:induction false} AdmitKeepsInv(input: seq<byte>, ws: int, st: State, now: int)
    requires Inv(input, ws, st)
    ensures Inv(input, ws, Admit(st, ws, now).0)
    decreases if st.reader.eof then 0 else |st.reader.rest| + 1
  {
    if |st.window| < ws && !st.reader.eof {
      AdmitOneKeepsInv(input, ws, st, now);
      if !AdmitOne(st, now).0.reader.eof {
        AdmitKeepsInv(input, ws, AdmitOne(st, now).0, now);
      }
    }
  }

  lemma DropKeepsInv(input: seq<byte>, ws: int, st: State, k: nat)
    requires Inv(input, ws, st) && k <= |st.window|
    ensures Inv(input, ws, st.(window := st.window[k..]))
  {
    var w := st.window[k..];
    forall i | 0 <= i < |w|
      ensures w[i].packetNo == st.packetNo - |w| + i
      ensures 0 <= w[i].packetNo < |Chunks(input, CourseworkCap)|
      ensures w[i].packet == Frame(w[i].packetNo, Chunks(input, CourseworkCap)[w[i].packetNo])
    {
      assert w[i] == st.window[k + i];
    }
  }

  /** Every datagram in the window is one of the file's datagrams. */
  lemma CarriedAreFrames(input: seq<byte>, ws: int, st: State)
    requires Inv(input, ws, st)
    ensures forall i :: 0 <= i < |st.window| ==> st.window[i].packet in Frames(input, CourseworkCap, Counting(0))
  {
    var cs := Chunks(input, CourseworkCap);
    var fs := Frames(input, CourseworkCap, Counting(0));
    forall i | 0 <= i < |st.window|
      ensures st.window[i].packet in fs
    {
      var j := st.window[i].packetNo;
      assert fs[j] == Frame(j, cs[j]);
    }
  }

  predicate FromFile(input: seq<byte>, sent: seq<seq<byte>>)
  {
    forall j :: 0 <= j < |sent| ==> sent[j] in Frames(input, CourseworkCap, Counting(0))
  }

  lemma FromFileAppend(input: seq<byte>, a: seq<seq<byte>>, b: seq<seq<byte>>)
    requires FromFile(input, a) && FromFile(input, b)
    ensures FromFile(input, a + b)
  {
    forall j | 0 <= j < |a + b|
      ensures (a + b)[j] in Frames(input, CourseworkCap, Counting(0))
    {
      if j < |a| {
        assert (a + b)[j] == a[j];
      } else {
        assert (a + b)[j] == b[j - |a|];
      }
    }
  }

  /** Retiring and admitting keep the invariant, and the admission loop
      sends only the file's datagrams. */
  lemma AdmitFromFile(input: seq<byte>, ws: int, st: State, now: int)
    requires Inv(input, ws, st)
    ensures Inv(input, ws, Admit(st, ws, now).0)
    ensures FromFile(input, Admit(st, ws, now).1)
  {
    var admitted := Admit(st, ws, now);
    AdmitKeepsInv(input, ws, st, now);
    AdmitSends(st, ws, now);
    CarriedAreFrames(input, ws, admitted.0);
    var made := admitted.0.window[|st.window|..];
    forall j | 0 <= j < |admitted.1|
      ensures admitted.1[j] in Frames(input, CourseworkCap, Counting(0))
    {
      assert admitted.1[j] == made[j].packet;
      assert made[j] == admitted.0.window[|st.window| + j];
    }
  }

  /** Resending keeps the invariant, whatever becomes of `receiveAck`, and
      sends only the file's datagrams. */
  lemma ScanKeepsInv(input: seq<byte>, ws: int, timeout: int, st: State, now: int, flag: bool)
    requires Inv(input, ws, st)
    ensures Inv(input, ws, st.(window := Scan(st.window, st.ackPacket, now, timeout).0, receiveAck := flag))
    ensures FromFile(input, Scan(st.window, st.ackPacket, now, timeout).1)
  {
    var w := Scan(st.window, st.ackPacket, now, timeout).0;
    ScanSameEntries(st.window, st.ackPacket, now, timeout);
    ScanCarries(Chunks(input, CourseworkCap), st.window, w);
    assert Numbered(st.(window := w, receiveAck := flag));
    CarriedAreFrames(input, ws, st);
    ScanSendsCarried(st.window, st.ackPacket, now, timeout, Frames(input, CourseworkCap, Counting(0)));
  }

  /** The scan keeps every entry's number and datagram in place. */
  lemma ScanSameEntries(w: seq<PacketInfo>, ackPacket: int, now: int, timeout: int)
    ensures var r := Scan(w, ackPacket, now, timeout).0;
      forall i :: 0 <= i < |w| ==> r[i].packetNo == w[i].packetNo && r[i].packet == w[i].packet
  {
  }

  lemma ScanCarries(cs: seq<Chunk>, w: seq<PacketInfo>, r: seq<PacketInfo>)
    requires Carries(cs, w) && |r| == |w|
    requires forall i :: 0 <= i < |w| ==> r[i].packetNo == w[i].packetNo && r[i].packet == w[i].packet
    ensures Carries(cs, r)
  {
  }

  /** The scan sends only datagrams the window carries. */
  lemma ScanSendsCarried(w: seq<PacketInfo>, ackPacket: int, now: int, timeout: int, fs: seq<seq<byte>>)
    requires forall i :: 0 <= i < |w| ==> w[i].packet in fs
    ensures var sent := Scan(w, ackPacket, now, timeout).1;
      forall j :: 0 <= j < |sent| ==> sent[j] in fs
  {
    var sent := Scan(w, ackPacket, now, timeout).1;
    forall j | 0 <= j < |sent|
      ensures sent[j] in fs
    {
      assert sent[j] in sent;
    }
  }

  /** A turn keeps the invariant and sends only the file's datagrams; the
      loop's end condition, the reader at the end of the file, means every
      packet has been made. */
  lemma TurnKeepsInv(input: seq<byte>, ws: int, timeout: int, st: State, now: int)
    requires Inv(input, ws, st)
    ensures var t := Turn(st, ws, timeout, now);
      && Inv(input, ws, t.0)
      && FromFile(input, t.1.made) && FromFile(input, t.1.resent)
      && t.0.ackPacket == st.ackPacket && t.0.listening == st.listening
      && (t.0.reader.eof ==> t.0.packetNo == |Chunks(input, CourseworkCap)|)
  {
    var retired := st.(window := RetireOne(st.window, st.ackPacket));
    DropKeepsInv(input, ws, st, |st.window| - |retired.window|);
    AdmitFromFile(input, ws, retired, now);
    var st2 := Admit(retired, ws, now).0;
    var scanned := Scan(st2.window, st2.ackPacket, now, timeout);
    ScanKeepsInv(input, ws, timeout, st2, now, if |scanned.0| == 0 then false else st2.receiveAck);
  }

  lemma {:induction false} GoKeepsInv(input: seq<byte>, ws: int, timeout: int, p: Progress, events: seq<Event>)
    requires Inv(input, ws, p.st) && FromFile(input, p.sent)
    requires p.stopped ==> p.st.packetNo == |Chunks(input, CourseworkCap)|
    ensures var q := Go(ws, timeout, p, events);
      && Inv(input, ws, q.st) && FromFile(input, q.sent)
      && q.st.ackPacket >= p.st.ackPacket
      && (q.stopped ==> q.st.packetNo == |Chunks(input, CourseworkCap)|)
    decreases |events|
  {
    if !p.stopped && |events| > 0 {
      match events[0]
      case Loop(now) =>
        var t := Turn(p.st, ws, timeout, now);
        TurnKeepsInv(input, ws, timeout, p.st, now);
        FromFileAppend(input, p.sent, t.1.made);
        FromFileAppend(input, p.sent + t.1.made, t.1.resent);
        GoKeepsInv(input, ws, timeout, Progress(t.0, p.sent + t.1.made + t.1.resent, t.0.reader.eof), events[1..]);
      case AckArrives(a) =>
        GoKeepsInv(input, ws, timeout, p.(st := Listen(p.st, Some(a))), events[1..]);
      case AckWaitTimesOut =>
        GoKeepsInv(input, ws, timeout, p.(st := Listen(p.st, None)), events[1..]);
    }
  }

  /** Whatever the clock and the acknowledgements do, every datagram sent is
      one of the file's datagrams, the cursor never goes below its start,
      and the loop ends only once every packet of the file has been made. */
  lemma SendSafe(input: seq<byte>, ws: int, timeout: int, events: seq<Event>)
    ensures var q := Send(input, ws, timeout, events);
      && FromFile(input, q.sent)
      && q.st.ackPacket >= -1
      && (q.stopped ==> q.st.reader.eof && q.st.packetNo == |Chunks(input, CourseworkCap)|)
  {
    InitInv(input, ws);
    GoKeepsInv(input, ws, timeout, Progress(Init(input), [], false), events);
    GoStopsAtEof(ws, timeout, Progress(Init(input), [], false), events);
  }

  lemma {:induction false} GoStopsAtEof(ws: int, timeout: int, p: Progress, events: seq<Event>)
    requires p.stopped ==> p.st.reader.eof
    ensures Go(ws, timeout, p, events).stopped ==> Go(ws, timeout, p, events).st.reader.eof
    decreases |events|
  {
    if !p.stopped && |events| > 0 {
      match events[0]
      case Loop(now) =>
        var t := Turn(p.st, ws, timeout, now);
        GoStopsAtEof(ws, timeout, Progress(t.0, p.sent + t.1.made + t.1.resent, t.0.reader.eof), events[1..]);
      case AckArrives(a) =>
        GoStopsAtEof(ws, timeout, p.(st := Listen(p.st, Some(a))), events[1..]);
      case AckWaitTimesOut =>
        GoStopsAtEof(ws, timeout, p.(st := Listen(p.st, None)), events[1..]);
    }
  }

  /** Sender2a with the corrected Receiver2a: whatever subset of the sent
      datagrams the channel delivers, in whatever order and with whatever
      repetitions, the receiver writes a prefix of the file's packets, and
      the whole file if it finishes. */
  lemma EndToEnd(input: seq<byte>, ws: int, timeout: int, events: seq<Event>, ch: seq<seq<byte>>)
    requires |Chunks(input, CourseworkCap)| <= 32768
    requires forall j :: 0 <= j < |ch| ==> ch[j] in Send(input, ws, timeout, events).sent
    ensures var t := Receiving.Run(Receiver2a.Corrected, Receiving.Start(Receiver2a.Init), ch);
      && Receiver2a.Safe(input, t)
      && (t.finished ==> t.output == input)
  {
    SendSafe(input, ws, timeout, events);
    var sent := Send(input, ws, timeout, events).sent;
    InBoth(ch, sent, Frames(input, CourseworkCap, Counting(0)));
    Receiver2a.Safety(input, ch);
  }

  /** With room in the window for every packet left, the admission loop
      reads the file to the end. */
  lemma {:induction false} AdmitReachesEof(input: seq<byte>, ws: int, st: State, now: int)
    requires Inv(input, ws, st)
    requires |Chunks(input, CourseworkCap)| - st.packetNo + |st.window| <= ws
    ensures Admit(st, ws, now).0.reader.eof
    decreases if st.reader.eof then 0 else |st.reader.rest| + 1
  {
    if !st.reader.eof {
      AdmitOneKeepsInv(input, ws, st, now);
      if !AdmitOne(st, now).0.reader.eof {
        AdmitReachesEof(input, ws, AdmitOne(st, now).0, now);
      }
    }
  }

  /** The loop does not wait for acknowledgements: a file that fits in the
      window is sent in the first turn, and the loop ends there with no
      acknowledgement heard and the cursor still at -1. */
  lemma EndsWithoutAcks(input: seq<byte>, ws: int, timeout: int, now: int, events: seq<Event>)
    requires |Chunks(input, CourseworkCap)| <= ws
    ensures var q := Send(input, ws, timeout, [Loop(now)] + events);
      q.stopped && q.st.ackPacket == -1
  {
    var st := Init(input);
    InitInv(input, ws);
    var retired := st.(window := RetireOne(st.window, st.ackPacket));
    assert retired == st;
    AdmitReachesEof(input, ws, st, now);
    var t := Turn(st, ws, timeout, now);
    assert t.0.reader.eof && t.0.ackPacket == -1;
    var e := [Loop(now)] + events;
    assert e[0] == Loop(now) && e[1..] == events;
    var q := Progress(t.0, [] + t.1.made + t.1.resent, true);
    assert Go(ws, timeout, q, events) == q;
    assert Send(input, ws, timeout, e) == Go(ws, timeout, q, events);
  }

  /** The thread's state once it has ended before the first send: it has
      gone, the cursor stays at -1, so nothing is ever retired; the window
      holds every packet made so far. */
  predicate Orphaned(input: seq<byte>, ws: int, st: State)
  {
    && Inv(input, ws, st)
    && !st.listening && st.ackPacket == -1
    && |st.window| == st.packetNo
  }

  lemma TurnOrphaned(input: seq<byte>, ws: int, timeout: int, st: State, now: int)
    requires |Chunks(input, CourseworkCap)| > ws && Orphaned(input, ws, st)
    ensures Orphaned(input, ws, Turn(st, ws, timeout, now).0)
    ensures !Turn(st, ws, timeout, now).0.reader.eof
  {
    if |st.window| > 0 {
      assert st.window[0].packetNo == 0;
    }
    assert RetireOne(st.window, st.ackPacket) == st.window;
    TurnKeepsInv(input, ws, timeout, st, now);
  }

  lemma {:induction false} GoOrphaned(input: seq<byte>, ws: int, timeout: int, p: Progress, events: seq<Event>)
    requires |Chunks(input, CourseworkCap)| > ws && Orphaned(input, ws, p.st) && !p.stopped
    ensures !Go(ws, timeout, p, events).stopped
    decreases |events|
  {
    if |events| > 0 {
      match events[0]
      case Loop(now) =>
        var t := Turn(p.st, ws, timeout, now);
        TurnOrphaned(input, ws, timeout, p.st, now);
        GoOrphaned(input, ws, timeout, Progress(t.0, p.sent + t.1.made + t.1.resent, false), events[1..]);
      case AckArrives(a) =>
        GoOrphaned(input, ws, timeout, p.(st := Listen(p.st, Some(a))), events[1..]);
      case AckWaitTimesOut =>
        GoOrphaned(input, ws, timeout, p.(st := Listen(p.st, None)), events[1..]);
    }
  }

  /** The start-up race: if the acknowledgement thread takes its first pass
      before the main loop's first send, it finds `receiveAck` clear and
      ends. A file larger than the window is then never finished, whatever
      acknowledgements arrive later. */
  lemma RaceNeverEnds(input: seq<byte>, ws: int, timeout: int, first: Event, events: seq<Event>)
    requires first.AckArrives? || first.AckWaitTimesOut?
    requires |Chunks(input, CourseworkCap)| > ws
    ensures !Send(input, ws, timeout, [first] + events).stopped
  {
    var e := [first] + events;
    assert e[0] == first && e[1..] == events;
    InitInv(input, ws);
    var a := if first.AckArrives? then Some(first.a) else None;
    var st := Listen(Init(input), a);
    assert Orphaned(input, ws, st);
    GoOrphaned(input, ws, timeout, Progress(st, [], false), events);
  }

  /** With a window size of zero or less nothing is ever made or sent and
      the loop never ends. */
  lemma {:induction false} NoWindowNeverEnds(ws: int, timeout: int, p: Progress, events: seq<Event>)
    requires ws <= 0 && !p.stopped && p.st.window == [] && !p.st.reader.eof
    ensures !Go(ws, timeout, p, events).stopped
    ensures Go(ws, timeout, p, events).sent == p.sent
    decreases |events|
  {
    if |events| > 0 {
      match events[0]
      case Loop(now) =>
        var t := Turn(p.st, ws, timeout, now);
        assert Scan([], p.st.ackPacket, now, timeout) == ([], []);
        assert t.1 == Sends([], []) && t.0.window == [] && !t.0.reader.eof;
        NoWindowNeverEnds(ws, timeout, Progress(t.0, p.sent + t.1.made + t.1.resent, false), events[1..]);
      case AckArrives(a) =>
        NoWindowNeverEnds(ws, timeout, p.(st := Listen(p.st, Some(a))), events[1..]);
      case AckWaitTimesOut =>
        NoWindowNeverEnds(ws, timeout, p.(st := Listen(p.st, None)), events[1..]);
    }
  }

  /** The entries the admission loop adds have a time of transmission of 0
      and the numbers that follow the window's. */
  lemma {:induction false} AdmitAddsFresh(st: State, ws: int, now: int)
    requires Numbered(st)
    ensures forall i :: |st.window| <= i < |Admit(st, ws, now).0.window| ==>
      Admit(st, ws, now).0.window[i].timeOfTransmission == 0 && Admit(st, ws, now).0.window[i].packetNo >= st.packetNo
    decreases if st.reader.eof then 0 else |st.reader.rest| + 1
  {
    if |st.window| < ws && !st.reader.eof {
      var st' := AdmitOne(st, now).0;
      AdmitOneNumbered(st, now);
      assert st'.window[|st.window|].timeOfTransmission == 0 && st'.window[|st.window|].packetNo == st.packetNo;
      if !st'.reader.eof {
        AdmitAddsFresh(st', ws, now);
        var r := Admit(st', ws, now).0;
        assert Admit(st, ws, now).0 == r;
        assert r.window[..|st'.window|] == st'.window;
        assert r.window[|st.window|] == st'.window[|st.window|];
        assert st'.packetNo == st.packetNo + 1;
        forall i | |st.window| <= i < |r.window|
          ensures r.window[i].timeOfTransmission == 0 && r.window[i].packetNo >= st.packetNo
        {
          if i == |st.window| {
            assert r.window[i] == st'.window[|st.window|];
          }
        }
      }
    }
  }

  /** A new packet is sent twice in the turn that makes it: once as it is
      made, and again by the resend loop, because its time of transmission
      reads as 0 and so has always timed out once the clock is past
      `timeout`. */
  lemma MadeAndResent(input: seq<byte>, ws: int, timeout: int, st: State, now: int)
    requires Inv(input, ws, st) && timeout < now && st.ackPacket < st.packetNo
    ensures var t := Turn(st, ws, timeout, now);
      forall p :: p in t.1.made ==> p in t.1.resent
  {
    var retired := st.(window := RetireOne(st.window, st.ackPacket));
    DropKeepsInv(input, ws, st, |st.window| - |retired.window|);
    var admitted := Admit(retired, ws, now);
    AdmitSends(retired, ws, now);
    AdmitAddsFresh(retired, ws, now);
    var w := admitted.0.window;
    var k := |retired.window|;
    forall p | p in admitted.1
      ensures p in Scan(w, admitted.0.ackPacket, now, timeout).1
    {
      var j :| 0 <= j < |admitted.1| && admitted.1[j] == p;
      assert w[k..][j] == w[k + j];
      assert Due(w[k + j], admitted.0.ackPacket, now, timeout);
    }
  }
}
