/** Sender3, the go-back-N sender. The acknowledgement thread keeps only the
    highest number acknowledged so far, the cursor. Each turn of the send
    loop drops the entries at or below the cursor, fills the window from the
    file and, if the first entry above the cursor was last sent more than
    30 ms ago, resends it and every entry after it. Numbering starts at 1, so
    the receiver's first acknowledgement (of 0) releases nothing. */
module Sender3 {
  import opened Bytes
  import opened Codec
  import opened Framing
  import opened Reading
  import opened WindowPackets
  import opened WindowSenders
  import Receiving
  import Receiver3

  const TimeoutLength: int := 30

  /** The state the send loop and the acknowledgement thread share. */
  datatype State = State(s: Sender, ackedPacketNum: int)

  /** The acknowledgement thread: `ackedPacketNum = max(ackedPacketNum, n)`. */
  function AckIn(cursor: int, a: seq<byte>): (c: int)
    ensures c >= cursor && c >= DecodeAck(a)
    ensures c == cursor || c == DecodeAck(a)
  {
    if DecodeAck(a) > cursor then DecodeAck(a) else cursor
  }

  /** An acknowledgement older than the cursor changes nothing, and the
      receiver's acknowledgement of `n` below 65536 brings the cursor to at
      least `n`. */
  lemma AckOf(cursor: int, n: int)
    requires 0 <= n < 65536
    ensures AckIn(cursor, EncodeAck(n)) == if n > cursor then n else cursor
  {
    AckRoundTrip(n);
  }

  /** Removing acknowledged packets: the entries at the front numbered at or
      below the cursor go. */
  function Retire(w: seq<WindowPacket>, cursor: int): (r: seq<WindowPacket>)
    ensures |r| <= |w| && r == w[|w| - |r|..]
    ensures forall i :: 0 <= i < |w| - |r| ==> w[i].num <= cursor
    ensures |r| == 0 || r[0].num > cursor
    decreases |w|
  {
    if |w| > 0 && w[0].num <= cursor then Retire(w[1..], cursor) else w
  }

  /** In a window of consecutive numbers, retiring keeps exactly the entries
      above the cursor. */
  lemma RetireAbove(s: Sender, cursor: int)
    requires Numbered(s)
    ensures forall i :: 0 <= i < |Retire(s.window, cursor)| ==> Retire(s.window, cursor)[i].num > cursor
    ensures forall i :: 0 <= i < |s.window| && s.window[i].num > cursor ==> s.window[i] in Retire(s.window, cursor)
  {
    var w := s.window;
    var r := Retire(w, cursor);
    var k := |w| - |r|;
    assert r == w[k..];
    forall i | 0 <= i < |r|
      ensures r[i].num > cursor
    {
      assert r[i] == w[k + i];
      assert w[k + i].num == w[k].num + i;
    }
    forall i | 0 <= i < |w| && w[i].num > cursor
      ensures w[i] in r
    {
      assert i >= k;
      assert r[i - k] == w[i];
    }
  }

  /** The index of the first entry above the cursor, or the length of the
      window if there is none. */
  function FirstAbove(w: seq<WindowPacket>, cursor: int): (k: nat)
    ensures k <= |w|
    ensures forall i :: 0 <= i < k ==> w[i].num <= cursor
    ensures k < |w| ==> w[k].num > cursor
    decreases |w|
  {
    if |w| == 0 || w[0].num > cursor then 0 else FirstAbove(w[1..], cursor) + 1
  }

  /** Whether the scan starts sending: the first entry above the cursor has
      timed out. */
  predicate Fires(w: seq<WindowPacket>, cursor: int, now: int)
  {
    var k := FirstAbove(w, cursor);
    k < |w| && now > w[k].timeLastSent + TimeoutLength
  }

  /** The scan, with `sending` the value of `sendPackets` so far: entries at
      or below the cursor are skipped; the first one above it either starts
      sending or ends the scan. */
  function ScanFrom(w: seq<WindowPacket>, cursor: int, now: int, sending: bool): (r: (seq<WindowPacket>, seq<seq<byte>>))
    ensures |r.0| == |w| && |r.1| <= |w|
    ensures SameEntries(w, r.0)
    decreases |w|
  {
    if |w| == 0 then ([], [])
    else if w[0].num <= cursor then
      var rest := ScanFrom(w[1..], cursor, now, sending);
      assert forall i :: 1 <= i < |w| ==> w[i] == w[1..][i - 1];
      ([w[0]] + rest.0, rest.1)
    else if sending || now > w[0].timeLastSent + TimeoutLength then
      var rest := ScanFrom(w[1..], cursor, now, true);
      assert forall i :: 1 <= i < |w| ==> w[i] == w[1..][i - 1];
      ([SetTimeLastSent(w[0], now)] + rest.0, [w[0].packet] + rest.1)
    else (w, [])
  }

  /** Once sending, the scan sends every entry above the cursor, in order,
      and stamps exactly those. */
  lemma SendingSendsAbove(w: seq<WindowPacket>, cursor: int, now: int)
    ensures var r := ScanFrom(w, cursor, now, true);
      && (forall i :: 0 <= i < |w| ==> r.0[i] == if w[i].num > cursor then SetTimeLastSent(w[i], now) else w[i])
      && (forall p :: p in r.1 <==> exists i :: 0 <= i < |w| && w[i].num > cursor && w[i].packet == p)
  {
    SendingStamps(w, cursor, now);
    SendingSends(w, cursor, now);
  }

  lemma {:induction false} SendingStamps(w: seq<WindowPacket>, cursor: int, now: int)
    ensures var r := ScanFrom(w, cursor, now, true).0;
      forall i :: 0 <= i < |w| ==> r[i] == if w[i].num > cursor then SetTimeLastSent(w[i], now) else w[i]
    decreases |w|
  {
    if |w| > 0 {
      SendingStamps(w[1..], cursor, now);
      var r := ScanFrom(w, cursor, now, true).0;
      var rest := ScanFrom(w[1..], cursor, now, true).0;
      forall i | 1 <= i < |w|
        ensures r[i] == if w[i].num > cursor then SetTimeLastSent(w[i], now) else w[i]
      {
        assert r[i] == rest[i - 1] && w[i] == w[1..][i - 1];
      }
    }
  }

  lemma SendingSends(w: seq<WindowPacket>, cursor: int, now: int)
    ensures var sent := ScanFrom(w, cursor, now, true).1;
      forall p :: p in sent <==> exists i :: 0 <= i < |w| && w[i].num > cursor && w[i].packet == p
  {
    forall p
      ensures p in ScanFrom(w, cursor, now, true).1 <==> exists i :: 0 <= i < |w| && w[i].num > cursor && w[i].packet == p
    {
      SentIff(w, cursor, now, p);
    }
  }

  lemma {:induction false} SentIff(w: seq<WindowPacket>, cursor: int, now: int, p: seq<byte>)
    ensures p in ScanFrom(w, cursor, now, true).1 <==> exists i :: 0 <= i < |w| && w[i].num > cursor && w[i].packet == p
    decreases |w|
  {
    if |w| > 0 {
      SentIff(w[1..], cursor, now, p);
      var sent := ScanFrom(w, cursor, now, true).1;
      var rest := ScanFrom(w[1..], cursor, now, true).1;
      assert sent == if w[0].num > cursor then [w[0].packet] + rest else rest;
      if p in rest {
        var j :| 0 <= j < |w[1..]| && w[1..][j].num > cursor && w[1..][j].packet == p;
        assert w[j + 1] == w[1..][j];
      }
      if exists i :: 0 <= i < |w| && w[i].num > cursor && w[i].packet == p {
        var i :| 0 <= i < |w| && w[i].num > cursor && w[i].packet == p;
        if i > 0 {
          assert w[1..][i - 1] == w[i];
        }
      }
    }
  }

  /** The scan sends nothing and changes nothing unless it fires; when it
      fires it resends every entry above the cursor. */
  lemma {:induction false} ScanCases(w: seq<WindowPacket>, cursor: int, now: int)
    ensures var r := ScanFrom(w, cursor, now, false);
      && (!Fires(w, cursor, now) ==> r == (w, []))
      && (Fires(w, cursor, now) ==> r == ScanFrom(w, cursor, now, true))
    decreases |w|
  {
    if |w| > 0 && w[0].num <= cursor {
      ScanCases(w[1..], cursor, now);
      assert w == [w[0]] + w[1..];
    }
  }

  /** So right after retiring, with every entry above the cursor, a scan
      that fires resends the whole window in order. */
  lemma FiresResendsWindow(w: seq<WindowPacket>, cursor: int, now: int)
    requires forall i :: 0 <= i < |w| ==> w[i].num > cursor
    requires Fires(w, cursor, now)
    ensures ScanFrom(w, cursor, now, false).1 == Packets(w)
  {
    ScanCases(w, cursor, now);
    AllAboveSends(w, cursor, now);
  }

  lemma {:induction false} AllAboveSends(w: seq<WindowPacket>, cursor: int, now: int)
    requires forall i :: 0 <= i < |w| ==> w[i].num > cursor
    ensures ScanFrom(w, cursor, now, true).1 == Packets(w)
    decreases |w|
  {
    if |w| > 0 {
      AllAboveSends(w[1..], cursor, now);
      assert Packets(w) == [w[0].packet] + Packets(w[1..]);
    }
  }

  /** One turn of the loop at time `now`: retire, admit, scan. */
  function Turn(st: State, ws: int, now: int): (r: (State, seq<seq<byte>>))
  {
    var s := st.s;
    var admitted := Admit(s.(window := Retire(s.window, st.ackedPacketNum)), ws);
    var scanned := ScanFrom(admitted.window, st.ackedPacketNum, now, false);
    (st.(s := admitted.(window := scanned.0)), scanned.1)
  }

  lemma TurnKeepsInv(input: seq<byte>, ws: int, st: State, now: int)
    requires Inv(input, 1, ws, st.s)
    ensures Inv(input, 1, ws, Turn(st, ws, now).0.s)
    ensures FromFile(input, 1, Turn(st, ws, now).1)
    ensures |Turn(st, ws, now).0.s.window| == 0 && ws >= 1 ==> Turn(st, ws, now).0.s.reader.eof
    ensures Turn(st, ws, now).0.ackedPacketNum == st.ackedPacketNum
  {
    var s := st.s;
    var retired := s.(window := Retire(s.window, st.ackedPacketNum));
    DropKeepsInv(input, 1, ws, s, |s.window| - |retired.window|);
    var admitted := Admit(retired, ws);
    AdmitKeepsInv(input, 1, ws, retired);
    if ws >= 1 && |admitted.window| == 0 {
      EmptyAfterAdmit(input, 1, ws, retired);
    }
    var scanned := ScanFrom(admitted.window, st.ackedPacketNum, now, false);
    SameEntriesKeepInv(input, 1, ws, admitted, scanned.0);
    CarriedAreFrames(input, 1, ws, admitted);
    ScanFromFile(input, admitted.window, st.ackedPacketNum, now);
  }

  /** The scan sends only datagrams the window carries. */
  lemma ScanFromFile(input: seq<byte>, w: seq<WindowPacket>, cursor: int, now: int)
    requires forall i :: 0 <= i < |w| ==> w[i].packet in Frames(input, UniversityCap, Counting(1))
    ensures FromFile(input, 1, ScanFrom(w, cursor, now, false).1)
  {
    var sent := ScanFrom(w, cursor, now, false).1;
    ScanCases(w, cursor, now);
    if Fires(w, cursor, now) {
      SendingSendsAbove(w, cursor, now);
    }
    forall j | 0 <= j < |sent|
      ensures sent[j] in Frames(input, UniversityCap, Counting(1))
    {
      assert sent[j] in sent;
    }
  }

  datatype Progress = Progress(st: State, sent: seq<seq<byte>>, stopped: bool)

  /** The loop driven by `events` until it ends or the events run out. */
  function Go(ws: int, p: Progress, events: seq<Event>): Progress
    decreases |events|
  {
    if p.stopped || |events| == 0 then p
    else match events[0]
      case AckArrives(a) =>
        Go(ws, p.(st := p.st.(ackedPacketNum := AckIn(p.st.ackedPacketNum, a))), events[1..])
      case Loop(now) =>
        var t := Turn(p.st, ws, now);
        Go(ws, Progress(t.0, p.sent + t.1, |t.0.s.window| == 0), events[1..])
  }

  /** `send`: numbering starts at 1 and the cursor at 0. */
  function Send(input: seq<byte>, ws: int, events: seq<Event>): Progress
  {
    Go(ws, Progress(State(Start(input, 1), 0), [], false), events)
  }

  lemma {:induction false} GoKeepsInv(input: seq<byte>, ws: int, p: Progress, events: seq<Event>)
    requires Inv(input, 1, ws, p.st.s) && FromFile(input, 1, p.sent) && p.st.ackedPacketNum >= 0
    requires p.stopped ==> p.st.s.window == [] && (ws >= 1 ==> p.st.s.reader.eof)
    ensures var q := Go(ws, p, events);
      && Inv(input, 1, ws, q.st.s) && FromFile(input, 1, q.sent)
      && q.st.ackedPacketNum >= p.st.ackedPacketNum
      && (q.stopped ==> q.st.s.window == [] && (ws >= 1 ==> q.st.s.reader.eof))
    decreases |events|
  {
    if !p.stopped && |events| > 0 {
      match events[0]
      case AckArrives(a) =>
        GoKeepsInv(input, ws, p.(st := p.st.(ackedPacketNum := AckIn(p.st.ackedPacketNum, a))), events[1..]);
      case Loop(now) =>
        var t := Turn(p.st, ws, now);
        TurnKeepsInv(input, ws, p.st, now);
        FromFileAppend(input, 1, p.sent, t.1);
        GoKeepsInv(input, ws, Progress(t.0, p.sent + t.1, |t.0.s.window| == 0), events[1..]);
    }
  }

  /** Whatever the clock and the acknowledgements do, every datagram sent is
      one of the file's datagrams, and with a positive window the loop ends
      only after every packet has been made and has left the window. */
  lemma SendSafe(input: seq<byte>, ws: int, events: seq<Event>)
    ensures var q := Send(input, ws, events);
      && FromFile(input, 1, q.sent)
      && (q.stopped && ws >= 1 ==> q.st.s.reader.eof && q.st.s.packetNum == 1 + |Chunks(input, UniversityCap)| && q.st.s.window == [])
  {
    StartInv(input, 1, ws);
    GoKeepsInv(input, ws, Progress(State(Start(input, 1), 0), [], false), events);
  }

  /** A file of 65536 packets or more is never finished: the cursor never
      passes 65535, so packet 65536 is never retired. */
  predicate Stuck(st: State)
  {
    && st.ackedPacketNum < 65536
    && (st.s.packetNum > 65536 ==> st.s.packetNum - |st.s.window| <= 65536)
  }

  lemma TurnStuck(input: seq<byte>, ws: int, st: State, now: int)
    requires |Chunks(input, UniversityCap)| >= 65536 && ws >= 1
    requires Inv(input, 1, ws, st.s) && Stuck(st)
    ensures Stuck(Turn(st, ws, now).0)
    ensures |Turn(st, ws, now).0.s.window| > 0
  {
    var s := st.s;
    var retired := s.(window := Retire(s.window, st.ackedPacketNum));
    DropKeepsInv(input, 1, ws, s, |s.window| - |retired.window|);
    if s.packetNum > 65536 {
      var k := 65536 - (s.packetNum - |s.window|);
      assert s.window[k].num == 65536;
      assert k >= |s.window| - |retired.window|;
    }
    var admitted := Admit(retired, ws);
    AdmitKeepsInv(input, 1, ws, retired);
    if |admitted.window| == 0 {
      EmptyAfterAdmit(input, 1, ws, retired);
    }
    TurnKeepsInv(input, ws, st, now);
  }

  lemma {:induction false} GoStuck(input: seq<byte>, ws: int, p: Progress, events: seq<Event>)
    requires |Chunks(input, UniversityCap)| >= 65536 && ws >= 1
    requires Inv(input, 1, ws, p.st.s) && Stuck(p.st) && !p.stopped
    ensures !Go(ws, p, events).stopped
    decreases |events|
  {
    if |events| > 0 {
      match events[0]
      case AckArrives(a) =>
        GoStuck(input, ws, p.(st := p.st.(ackedPacketNum := AckIn(p.st.ackedPacketNum, a))), events[1..]);
      case Loop(now) =>
        var t := Turn(p.st, ws, now);
        TurnStuck(input, ws, p.st, now);
        TurnKeepsInv(input, ws, p.st, now);
        GoStuck(input, ws, Progress(t.0, p.sent + t.1, false), events[1..]);
    }
  }

  lemma NeverEndsFrom65536(input: seq<byte>, ws: int, events: seq<Event>)
    requires |Chunks(input, UniversityCap)| >= 65536 && ws >= 1
    ensures !Send(input, ws, events).stopped
  {
    StartInv(input, 1, ws);
    GoStuck(input, ws, Progress(State(Start(input, 1), 0), [], false), events);
  }

  /** Sender3 with Receiver3: whatever subset of the sent datagrams the
      channel delivers, in whatever order and with whatever repetitions, the
      receiver writes a prefix of the file's packets, and the whole file if
      it finishes. */
  lemma EndToEnd(input: seq<byte>, ws: int, events: seq<Event>, ch: seq<seq<byte>>)
    requires |Chunks(input, UniversityCap)| < 65536
    requires forall j :: 0 <= j < |ch| ==> ch[j] in Send(input, ws, events).sent
    ensures var t := Receiving.Run(Receiver3.Step, Receiving.Start(Receiver3.Init), ch);
      && Receiver3.Safe(input, t)
      && (t.finished ==> t.output == input)
  {
    SendSafe(input, ws, events);
    var sent := Send(input, ws, events).sent;
    InBoth(ch, sent, Frames(input, UniversityCap, Counting(1)));
    Receiver3.Safety(input, ch);
  }

  /** What `send` comes to: true however it ends once the socket is
      open, exceptions included; an exception before that leaves the socket
      unassigned, and closing it in `finally` throws. */
  function Returns(e: Ending): (r: Return)
    ensures r.NullSocket? <==> e.BeforeSocket?
    ensures r.Returned? ==> r.ok
  {
    if e == BeforeSocket then NullSocket else Returned(true)
  }

  /** As written, a caught exception is reported as success, against the
      documented false, and one thrown before the socket exists escapes as
      a NullPointerException instead of a result. */
  lemma ErrorsReportSuccess()
    ensures Returns(UnknownHost) == Returned(true) != Reported(UnknownHost)
    ensures Returns(BeforeSocket) == NullSocket != Reported(BeforeSocket)
  {
  }
}
