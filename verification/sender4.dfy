/** Sender4, the selective-repeat sender. Each turn of the send loop drops
    the acknowledged entries at the front of the window, fills the window
    from the file, and resends every unacknowledged entry whose last send is
    more than 300 ms old. The acknowledgement thread marks the first entry
    carrying the acknowledged number. The loop ends when the window is
    empty. */
module Sender4 {
  import opened Bytes
  import opened Codec
  import opened Framing
  import opened Reading
  import opened WindowPackets
  import opened WindowSenders
  import Receiving
  import Receiver4

  const TimeoutLength: int := 300

  /** Removing acknowledged packets: the longest acknowledged prefix goes. */
  function Retire(w: seq<WindowPacket>): (r: seq<WindowPacket>)
    ensures |r| <= |w| && r == w[|w| - |r|..]
    ensures forall i :: 0 <= i < |w| - |r| ==> w[i].acked
    ensures |r| == 0 || !r[0].acked
    decreases |w|
  {
    if |w| > 0 && w[0].acked then Retire(w[1..]) else w
  }

  /** Retiring twice drops nothing more. */
  lemma RetireIdempotent(w: seq<WindowPacket>)
    ensures Retire(Retire(w)) == Retire(w)
  {
  }

  /** Sending the timed-out packets at time `now`: every due entry is sent,
      in window order, and stamped with `now`; the others are left alone. */
  function Scan(w: seq<WindowPacket>, now: int): (r: (seq<WindowPacket>, seq<seq<byte>>))
    ensures |r.0| == |w| && |r.1| <= |w|
    ensures forall i :: 0 <= i < |w| ==> r.0[i] == if Due(w[i], now, TimeoutLength) then SetTimeLastSent(w[i], now) else w[i]
    ensures forall p :: p in r.1 <==> exists i :: 0 <= i < |w| && Due(w[i], now, TimeoutLength) && w[i].packet == p
    decreases |w|
  {
    if |w| == 0 then ([], [])
    else
      var rest := Scan(w[1..], now);
      assert forall i :: 1 <= i < |w| ==> w[i] == w[1..][i - 1];
      if Due(w[0], now, TimeoutLength) then
        ([SetTimeLastSent(w[0], now)] + rest.0, [w[0].packet] + rest.1)
      else
        ([w[0]] + rest.0, rest.1)
  }

  /** A scan repeated at the same time sends nothing and changes nothing:
      every entry it sent is stamped with `now` and so is not due. */
  lemma ScanTwice(w: seq<WindowPacket>, now: int)
    ensures Scan(Scan(w, now).0, now) == (Scan(w, now).0, [])
  {
    var w1 := Scan(w, now).0;
    var r := Scan(w1, now);
    forall i | 0 <= i < |w1|
      ensures !Due(w1[i], now, TimeoutLength)
    {
      if Due(w[i], now, TimeoutLength) {
        StampedNotDue(w[i], now, now, TimeoutLength);
      }
    }
  }

  /** The acknowledgement thread: decode the number and mark the first entry
      carrying it, if any. */
  function MarkFirst(w: seq<WindowPacket>, n: int): (r: seq<WindowPacket>)
    ensures |r| == |w|
    ensures forall i :: 0 <= i < |w| ==>
      r[i] == if w[i].num == n && (forall j :: 0 <= j < i ==> w[j].num != n) then AckPacket(w[i]) else w[i]
    decreases |w|
  {
    if |w| == 0 then []
    else if w[0].num == n then [AckPacket(w[0])] + w[1..]
    else
      var rest := MarkFirst(w[1..], n);
      assert forall i :: 1 <= i < |w| ==> w[i] == w[1..][i - 1];
      [w[0]] + rest
  }

  function AckIn(w: seq<WindowPacket>, a: seq<byte>): (r: seq<WindowPacket>)
    ensures SameEntries(w, r)
  {
    MarkFirst(w, DecodeAck(a))
  }

  /** In a window with consecutive numbers, the acknowledgement of packet
      `n` below 65536 sets exactly the flag of the entry numbered `n`. */
  lemma AckMarksOnly(s: Sender, n: int)
    requires Numbered(s) && 0 <= n < 65536
    ensures var r := AckIn(s.window, EncodeAck(n));
      forall i :: 0 <= i < |s.window| ==> r[i].acked == (s.window[i].acked || s.window[i].num == n)
  {
    AckRoundTrip(n);
  }

  /** An entry numbered 65536 or more is never marked: the decoded number
      has sixteen bits. */
  lemma HighNeverAcked(w: seq<WindowPacket>, a: seq<byte>, i: int)
    requires 0 <= i < |w| && w[i].num >= 65536
    ensures AckIn(w, a)[i].acked == w[i].acked
  {
  }

  /** The same acknowledgement arriving twice has the effect of one. */
  lemma AckTwice(w: seq<WindowPacket>, a: seq<byte>)
    ensures AckIn(AckIn(w, a), a) == AckIn(w, a)
  {
    var n := DecodeAck(a);
    var w1 := AckIn(w, a);
    var w2 := AckIn(w1, a);
    forall i | 0 <= i < |w|
      ensures w2[i] == w1[i]
    {
      assert w1[i].num == w[i].num;
      assert (forall j :: 0 <= j < i ==> w1[j].num != n) == (forall j :: 0 <= j < i ==> w[j].num != n);
    }
  }

  /** One turn of the loop at time `now`: retire, admit, scan. Returns the
      sender after it and the datagrams sent. */
  function Turn(s: Sender, ws: int, now: int): (r: (Sender, seq<seq<byte>>))
  {
    var admitted := Admit(s.(window := Retire(s.window)), ws);
    var scanned := Scan(admitted.window, now);
    (admitted.(window := scanned.0), scanned.1)
  }

  lemma TurnKeepsInv(input: seq<byte>, ws: int, s: Sender, now: int)
    requires Inv(input, 0, ws, s)
    ensures Inv(input, 0, ws, Turn(s, ws, now).0)
    ensures FromFile(input, 0, Turn(s, ws, now).1)
  {
    var retired := s.(window := Retire(s.window));
    DropKeepsInv(input, 0, ws, s, |s.window| - |Retire(s.window)|);
    var admitted := Admit(retired, ws);
    AdmitKeepsInv(input, 0, ws, retired);
    var scanned := Scan(admitted.window, now);
    SameEntriesKeepInv(input, 0, ws, admitted, scanned.0);
    CarriedAreFrames(input, 0, ws, admitted);
    ScanFromFile(input, admitted.window, now);
  }

  /** The scan sends only datagrams the window carries. */
  lemma ScanFromFile(input: seq<byte>, w: seq<WindowPacket>, now: int)
    requires forall i :: 0 <= i < |w| ==> w[i].packet in Frames(input, UniversityCap, Counting(0))
    ensures FromFile(input, 0, Scan(w, now).1)
  {
    var sent := Scan(w, now).1;
    forall j | 0 <= j < |sent|
      ensures sent[j] in Frames(input, UniversityCap, Counting(0))
    {
      assert sent[j] in sent;
    }
  }

  /** Where a run has got to: the sender, every datagram sent so far, and
      whether the loop has ended. */
  datatype Progress = Progress(s: Sender, sent: seq<seq<byte>>, stopped: bool)

  /** The loop driven by `events` until it ends or the events run out. */
  function Go(ws: int, p: Progress, events: seq<Event>): Progress
    decreases |events|
  {
    if p.stopped || |events| == 0 then p
    else match events[0]
      case AckArrives(a) =>
        Go(ws, p.(s := p.s.(window := AckIn(p.s.window, a))), events[1..])
      case Loop(now) =>
        var t := Turn(p.s, ws, now);
        Go(ws, Progress(t.0, p.sent + t.1, |t.0.window| == 0), events[1..])
  }

  /** `send`: numbering starts at 0. */
  function Send(input: seq<byte>, ws: int, events: seq<Event>): Progress
  {
    Go(ws, Progress(Start(input, 0), [], false), events)
  }

  lemma {:induction false} GoKeepsInv(input: seq<byte>, ws: int, p: Progress, events: seq<Event>)
    requires Inv(input, 0, ws, p.s) && FromFile(input, 0, p.sent)
    requires p.stopped ==> ws >= 1 ==> p.s.reader.eof
    ensures var q := Go(ws, p, events);
      && Inv(input, 0, ws, q.s) && FromFile(input, 0, q.sent)
      && (q.stopped ==> ws >= 1 ==> q.s.reader.eof)
    decreases |events|
  {
    if !p.stopped && |events| > 0 {
      match events[0]
      case AckArrives(a) =>
        SameEntriesKeepInv(input, 0, ws, p.s, AckIn(p.s.window, a));
        GoKeepsInv(input, ws, p.(s := p.s.(window := AckIn(p.s.window, a))), events[1..]);
      case Loop(now) =>
        var t := Turn(p.s, ws, now);
        TurnEndsAtEof(input, ws, p.s, now);
        FromFileAppend(input, 0, p.sent, t.1);
        GoKeepsInv(input, ws, Progress(t.0, p.sent + t.1, |t.0.window| == 0), events[1..]);
    }
  }

  /** A turn that leaves the window empty, with a positive window size, has
      read the file to the end. */
  lemma TurnEndsAtEof(input: seq<byte>, ws: int, s: Sender, now: int)
    requires Inv(input, 0, ws, s)
    ensures Inv(input, 0, ws, Turn(s, ws, now).0)
    ensures FromFile(input, 0, Turn(s, ws, now).1)
    ensures |Turn(s, ws, now).0.window| == 0 && ws >= 1 ==> Turn(s, ws, now).0.reader.eof
  {
    TurnKeepsInv(input, ws, s, now);
    var retired := s.(window := Retire(s.window));
    DropKeepsInv(input, 0, ws, s, |s.window| - |Retire(s.window)|);
    if ws >= 1 && |Admit(retired, ws).window| == 0 {
      EmptyAfterAdmit(input, 0, ws, retired);
    }
  }

  /** Whatever the clock and the acknowledgements do, every datagram sent is
      one of the file's datagrams, and with a positive window the loop ends
      only after the packet marked end-of-file has been made and every
      packet has left the window. */
  lemma SendSafe(input: seq<byte>, ws: int, events: seq<Event>)
    ensures var q := Send(input, ws, events);
      && FromFile(input, 0, q.sent)
      && (q.stopped && ws >= 1 ==> q.s.reader.eof && q.s.packetNum == |Chunks(input, UniversityCap)| && q.s.window == [])
  {
    StartInv(input, 0, ws);
    GoKeepsInv(input, ws, Progress(Start(input, 0), [], false), events);
    var q := Send(input, ws, events);
    if q.stopped && ws >= 1 {
      GoStopsEmpty(ws, Progress(Start(input, 0), [], false), events);
    }
  }

  lemma {:induction false} GoStopsEmpty(ws: int, p: Progress, events: seq<Event>)
    requires p.stopped ==> p.s.window == []
    ensures Go(ws, p, events).stopped ==> Go(ws, p, events).s.window == []
    decreases |events|
  {
    if !p.stopped && |events| > 0 {
      match events[0]
      case AckArrives(a) =>
        GoStopsEmpty(ws, p.(s := p.s.(window := AckIn(p.s.window, a))), events[1..]);
      case Loop(now) =>
        var t := Turn(p.s, ws, now);
        GoStopsEmpty(ws, Progress(t.0, p.sent + t.1, |t.0.window| == 0), events[1..]);
    }
  }

  /** With a window size of zero or less the first turn admits nothing,
      sends nothing and ends the loop: the transfer reports success having
      sent no datagram. */
  lemma NoWindowEndsAtOnce(input: seq<byte>, ws: int, now: int, events: seq<Event>)
    requires ws <= 0
    ensures Send(input, ws, [Loop(now)] + events) == Progress(Start(input, 0), [], true)
  {
    var s := Start(input, 0);
    var e := [Loop(now)] + events;
    assert e[0] == Loop(now) && e[1..] == events;
    NoWindow(s, ws);
    assert Retire(s.window) == [];
    assert Scan([], now) == ([], []);
    assert Turn(s, ws, now) == (s, []);
    var p := Progress(s, [], true);
    assert Go(ws, Progress(s, [], false), e) == Go(ws, p, events);
  }

  /** A file of more than 65536 packets is never finished: packet 65536 can
      never be acknowledged, so it is never retired. Once admitted it stays
      at or behind the front of the window, unacknowledged. */
  predicate Stuck(s: Sender)
  {
    s.packetNum > 65536 ==>
      && s.packetNum - |s.window| <= 65536
      && !s.window[65536 - (s.packetNum - |s.window|)].acked
  }

  lemma StuckRetire(s: Sender)
    requires Stuck(s)
    ensures Stuck(s.(window := Retire(s.window)))
  {
    if s.packetNum > 65536 {
      RetireKeeps(s.window, 65536 - (s.packetNum - |s.window|));
    }
  }

  /** An unacknowledged entry survives retiring, shifted by the number of
      entries dropped. */
  lemma RetireKeeps(w: seq<WindowPacket>, k: nat)
    requires k < |w| && !w[k].acked
    ensures var r := Retire(w);
      |w| - |r| <= k && r[k - (|w| - |r|)] == w[k]
  {
  }

  lemma StuckAdmit(input: seq<byte>, ws: int, s: Sender)
    requires Inv(input, 0, ws, s) && Stuck(s)
    ensures Stuck(Admit(s, ws))
    decreases if s.reader.eof then 0 else |s.reader.rest| + 1
  {
    if |s.window| < ws && !s.reader.eof {
      var s' := AdmitOne(s);
      AdmitOneKeepsInv(input, 0, ws, s);
      if s'.packetNum > 65536 {
        var k := 65536 - (s.packetNum - |s.window|);
        assert s'.packetNum - |s'.window| == s.packetNum - |s.window|;
        if s.packetNum > 65536 {
          assert s'.window[k] == s.window[k];
        } else {
          assert k == |s.window|;
          assert !s'.window[k].acked;
        }
      }
      StuckAdmit(input, ws, s');
    }
  }

  lemma StuckAck(input: seq<byte>, ws: int, s: Sender, a: seq<byte>)
    requires Inv(input, 0, ws, s) && Stuck(s)
    ensures Stuck(s.(window := AckIn(s.window, a)))
  {
    if s.packetNum > 65536 {
      var k := 65536 - (s.packetNum - |s.window|);
      assert s.window[k].num == 65536;
      HighNeverAcked(s.window, a, k);
    }
  }

  lemma {:induction false} GoStuck(input: seq<byte>, ws: int, p: Progress, events: seq<Event>)
    requires |Chunks(input, UniversityCap)| > 65536 && ws >= 1
    requires Inv(input, 0, ws, p.s) && Stuck(p.s) && !p.stopped
    ensures !Go(ws, p, events).stopped
    decreases |events|
  {
    if |events| > 0 {
      match events[0]
      case AckArrives(a) =>
        SameEntriesKeepInv(input, 0, ws, p.s, AckIn(p.s.window, a));
        StuckAck(input, ws, p.s, a);
        GoStuck(input, ws, p.(s := p.s.(window := AckIn(p.s.window, a))), events[1..]);
      case Loop(now) =>
        var t := Turn(p.s, ws, now);
        TurnStuck(input, ws, p.s, now);
        GoStuck(input, ws, Progress(t.0, p.sent + t.1, false), events[1..]);
    }
  }

  lemma TurnStuck(input: seq<byte>, ws: int, s: Sender, now: int)
    requires |Chunks(input, UniversityCap)| > 65536 && ws >= 1
    requires Inv(input, 0, ws, s) && Stuck(s)
    ensures Inv(input, 0, ws, Turn(s, ws, now).0) && Stuck(Turn(s, ws, now).0)
    ensures |Turn(s, ws, now).0.window| > 0
  {
    var retired := s.(window := Retire(s.window));
    DropKeepsInv(input, 0, ws, s, |s.window| - |Retire(s.window)|);
    StuckRetire(s);
    var admitted := Admit(retired, ws);
    AdmitKeepsInv(input, 0, ws, retired);
    StuckAdmit(input, ws, retired);
    if |admitted.window| == 0 {
      EmptyAfterAdmit(input, 0, ws, retired);
    }
    TurnKeepsInv(input, ws, s, now);
    StuckScan(admitted, now);
  }

  /** The scan only restamps entries, so the entry for 65536 stays unacknowledged. */
  lemma StuckScan(s: Sender, now: int)
    requires Stuck(s)
    ensures Stuck(s.(window := Scan(s.window, now).0))
  {
    var w := Scan(s.window, now).0;
    if s.packetNum > 65536 {
      var k := 65536 - (s.packetNum - |s.window|);
      assert w[k].acked == s.window[k].acked;
    }
  }

  lemma NeverEndsPast65536(input: seq<byte>, ws: int, events: seq<Event>)
    requires |Chunks(input, UniversityCap)| > 65536 && ws >= 1
    ensures !Send(input, ws, events).stopped
  {
    StartInv(input, 0, ws);
    GoStuck(input, ws, Progress(Start(input, 0), [], false), events);
  }

  /** Sender4 with the corrected Receiver4: whatever subset of the sent
      datagrams the channel delivers, in whatever order and with whatever
      repetitions, the receiver writes a prefix of the file's packets, and
      the whole file if it finishes. */
  lemma EndToEnd(input: seq<byte>, ws: int, rws: int, events: seq<Event>, ch: seq<seq<byte>>)
    requires |Chunks(input, UniversityCap)| <= 65536
    requires forall j :: 0 <= j < |ch| ==> ch[j] in Send(input, ws, events).sent
    ensures var t := Receiving.Run(Receiver4.Corrected(rws), Receiving.Start(Receiver4.Init), ch);
      && !t.crashed
      && -1 <= t.state.prev < |Chunks(input, UniversityCap)|
      && t.output == Data(Chunks(input, UniversityCap)[..t.state.prev + 1])
      && (t.finished ==> t.output == input)
  {
    SendSafe(input, ws, events);
    var sent := Send(input, ws, events).sent;
    InBoth(ch, sent, Frames(input, UniversityCap, Counting(0)));
    Receiver4.Safety(input, rws, ch);
  }

  /** What `send` comes to once the socket is open: false after a socket
      or unknown-host exception, true otherwise (an IO exception is reported
      and then the method carries on to return true). An exception before
      the socket is assigned makes the `finally` block's `close` throw. */
  function Returns(e: Ending): (r: Return)
    ensures r.NullSocket? <==> e.BeforeSocket?
    ensures r.Returned? ==> (r.ok <==> !(e.SocketError? || e.UnknownHost?))
  {
    match e
    case SocketError => Returned(false)
    case UnknownHost => Returned(false)
    case IoError => Returned(true)
    case Finished => Returned(true)
    case BeforeSocket => NullSocket
  }

  /** As written, an IO exception during the transfer is reported as
      success, against the documented false. */
  lemma IoErrorReportsSuccess()
    ensures Returns(IoError) == Returned(true) != Reported(IoError)
    ensures Returns(BeforeSocket) == NullSocket != Reported(BeforeSocket)
  {
  }
}
