/** What Sender3 and Sender4 share: the window of entries, the reader, the
    next packet number, and the admission loop that fills the window from the
    file. Each sender's retire, scan and acknowledgement steps only drop a
    prefix of the window or change flags and timestamps, so the invariant
    below survives every step, in whatever order the acknowledgement thread
    interleaves with the send loop. */
module WindowSenders {
  import opened Bytes
  import opened Framing
  import opened Reading
  import opened WindowPackets

  datatype Sender = Sender(window: seq<WindowPacket>, reader: Reader, packetNum: int)

  function Start(input: seq<byte>, first: int): Sender
  {
    Sender([], Open(input), first)
  }

  /** One pass of the admission loop: read the next packet, append an
      unacknowledged entry for it with the current number, and advance the
      number. */
  function AdmitOne(s: Sender): Sender
    requires !s.reader.eof
  {
    var (c, rd) := Read(s.reader, UniversityCap);
    Sender(s.window + [New(Frame(s.packetNum, c), false, s.packetNum)], rd, s.packetNum + 1)
  }

  /** The admission loop: `while (size < windowSize && !EOF)`. The window
      keeps its entries at the front, only grows, never beyond `ws`, and the
      loop stops with the window full or the file read to the end. */
  function Admit(s: Sender, ws: int): (r: Sender)
    ensures |r.window| >= |s.window| && r.window[..|s.window|] == s.window
    ensures |r.window| <= (if |s.window| > ws then |s.window| else ws)
    ensures |r.window| >= ws || r.reader.eof
    ensures r.packetNum - |r.window| == s.packetNum - |s.window|
    ensures s.reader.eof ==> r == s
    decreases if s.reader.eof then 0 else |s.reader.rest| + 1
  {
    if |s.window| < ws && !s.reader.eof then
      var s' := AdmitOne(s);
      var r := Admit(s', ws);
      assert r.window[..|s.window|] == r.window[..|s'.window|][..|s.window|];
      r
    else s
  }

  /** The window holds consecutive numbers ending just below `packetNum`. */
  predicate Numbered(s: Sender)
  {
    forall i :: 0 <= i < |s.window| ==> s.window[i].num == s.packetNum - |s.window| + i
  }

  /** Every entry carries the datagram for its number, from the packets
      `cs` numbered from `first`. */
  predicate Carries(cs: seq<Chunk>, first: int, w: seq<WindowPacket>)
  {
    forall i :: 0 <= i < |w| ==> 0 <= w[i].num - first < |cs| && w[i].packet == Frame(w[i].num, cs[w[i].num - first])
  }

  /** The window invariant, for packets numbered from `first`: the reader
      has made exactly the packets numbered below `packetNum`; the window
      holds the last of them with consecutive numbers, each entry carrying
      the datagram for its number; and it holds at most `ws` entries. */
  predicate Inv(input: seq<byte>, first: int, ws: int, s: Sender)
  {
    && s.packetNum >= first
    && ReaderAt(input, UniversityCap, s.reader, s.packetNum - first)
    && |s.window| <= s.packetNum - first
    && |s.window| <= (if ws > 0 then ws else 0)
    && Numbered(s)
    && Carries(Chunks(input, UniversityCap), first, s.window)
  }

  lemma StartInv(input: seq<byte>, first: int, ws: int)
    ensures Inv(input, first, ws, Start(input, first))
  {
    OpenAt(input, UniversityCap);
  }

  lemma AdmitOneNumbered(s: Sender)
    requires Numbered(s) && !s.reader.eof
    ensures Numbered(AdmitOne(s))
  {
    var r := AdmitOne(s);
    forall i | 0 <= i < |r.window|
      ensures r.window[i].num == r.packetNum - |r.window| + i
    {
      if i < |s.window| {
        assert r.window[i] == s.window[i];
      }
    }
  }

  lemma AdmitOneCarries(cs: seq<Chunk>, first: int, s: Sender, c: Chunk)
    requires Carries(cs, first, s.window) && !s.reader.eof
    requires 0 <= s.packetNum - first < |cs| && c == cs[s.packetNum - first] && c == Read(s.reader, UniversityCap).0
    ensures Carries(cs, first, AdmitOne(s).window)
  {
    var w := AdmitOne(s).window;
    forall i | 0 <= i < |w|
      ensures 0 <= w[i].num - first < |cs| && w[i].packet == Frame(w[i].num, cs[w[i].num - first])
    {
      if i < |s.window| {
        assert w[i] == s.window[i];
      }
    }
  }

  lemma AdmitOneKeepsInv(input: seq<byte>, first: int, ws: int, s: Sender)
    requires Inv(input, first, ws, s) && !s.reader.eof && |s.window| < ws
    ensures Inv(input, first, ws, AdmitOne(s))
  {
    AdmitOneReader(input, first, s);
    AdmitOneNumbered(s);
    AdmitOneCarries(Chunks(input, UniversityCap), first, s, Read(s.reader, UniversityCap).0);
  }

  lemma AdmitOneReader(input: seq<byte>, first: int, s: Sender)
    requires s.packetNum >= first && !s.reader.eof
    requires ReaderAt(input, UniversityCap, s.reader, s.packetNum - first)
    ensures 0 <= s.packetNum - first < |Chunks(input, UniversityCap)|
    ensures Read(s.reader, UniversityCap).0 == Chunks(input, UniversityCap)[s.packetNum - first]
    ensures ReaderAt(input, UniversityCap, AdmitOne(s).reader, AdmitOne(s).packetNum - first)
  {
    var k := s.packetNum - first;
    ReadAt(input, UniversityCap, s.reader, k);
    assert AdmitOne(s).reader == Read(s.reader, UniversityCap).1;
  }

  lemma {:induction false} AdmitKeepsInv(input: seq<byte>, first: int, ws: int, s: Sender)
    requires Inv(input, first, ws, s)
    ensures Inv(input, first, ws, Admit(s, ws))
    decreases if s.reader.eof then 0 else |s.reader.rest| + 1
  {
    if |s.window| < ws && !s.reader.eof {
      AdmitOneKeepsInv(input, first, ws, s);
      AdmitKeepsInv(input, first, ws, AdmitOne(s));
    }
  }

  /** Dropping a prefix of the window keeps the invariant. */
  lemma DropKeepsInv(input: seq<byte>, first: int, ws: int, s: Sender, k: nat)
    requires Inv(input, first, ws, s) && k <= |s.window|
    ensures Inv(input, first, ws, s.(window := s.window[k..]))
  {
    var w := s.window[k..];
    forall i | 0 <= i < |w|
      ensures w[i].num == s.packetNum - |w| + i
    {
      assert w[i] == s.window[k + i];
    }
    CarriesDrop(Chunks(input, UniversityCap), first, s.window, k);
  }

  lemma CarriesDrop(cs: seq<Chunk>, first: int, w: seq<WindowPacket>, k: nat)
    requires Carries(cs, first, w) && k <= |w|
    ensures Carries(cs, first, w[k..])
  {
    forall i | 0 <= i < |w| - k
      ensures 0 <= w[k..][i].num - first < |cs| && w[k..][i].packet == Frame(w[k..][i].num, cs[w[k..][i].num - first])
    {
      assert w[k..][i] == w[k + i];
    }
  }

  /** Two windows with the same numbers and datagrams in the same places. */
  predicate SameEntries(w: seq<WindowPacket>, w': seq<WindowPacket>)
  {
    |w'| == |w| && forall i :: 0 <= i < |w| ==> w'[i].num == w[i].num && w'[i].packet == w[i].packet
  }

  /** Changing only flags and timestamps keeps the invariant. */
  lemma SameEntriesKeepInv(input: seq<byte>, first: int, ws: int, s: Sender, w': seq<WindowPacket>)
    requires Inv(input, first, ws, s) && SameEntries(s.window, w')
    ensures Inv(input, first, ws, s.(window := w'))
  {
  }

  /** With a positive window, an empty window after admission means the
      packet marked end-of-file has been made: every packet of the file has
      been through the window and has left it. */
  lemma EmptyAfterAdmit(input: seq<byte>, first: int, ws: int, s: Sender)
    requires Inv(input, first, ws, s) && ws >= 1
    requires Admit(s, ws).window == []
    ensures Admit(s, ws).reader.eof
    ensures Admit(s, ws).packetNum - first == |Chunks(input, UniversityCap)|
  {
    AdmitKeepsInv(input, first, ws, s);
  }

  /** With a window size of zero or less nothing is ever admitted. */
  lemma NoWindow(s: Sender, ws: int)
    requires ws <= 0
    ensures Admit(s, ws) == s
  {
  }

  /** Every datagram in the window is one of the file's datagrams. */
  lemma CarriedAreFrames(input: seq<byte>, first: int, ws: int, s: Sender)
    requires Inv(input, first, ws, s)
    ensures forall i :: 0 <= i < |s.window| ==> s.window[i].packet in Frames(input, UniversityCap, Counting(first))
  {
    CarriedIn(Chunks(input, UniversityCap), first, s.window);
  }

  lemma CarriedIn(cs: seq<Chunk>, first: int, w: seq<WindowPacket>)
    requires Carries(cs, first, w)
    ensures forall i :: 0 <= i < |w| ==> w[i].packet in FramesFrom(cs, Counting(first), 0)
  {
    var fs := FramesFrom(cs, Counting(first), 0);
    forall i | 0 <= i < |w|
      ensures w[i].packet in fs
    {
      var j := w[i].num - first;
      assert fs[j] == Frame(first + j, cs[j]);
    }
  }

  /** Every datagram of `sent` is one of the file's datagrams. */
  predicate FromFile(input: seq<byte>, first: int, sent: seq<seq<byte>>)
  {
    forall j :: 0 <= j < |sent| ==> sent[j] in Frames(input, UniversityCap, Counting(first))
  }

  lemma FromFileAppend(input: seq<byte>, first: int, a: seq<seq<byte>>, b: seq<seq<byte>>)
    requires FromFile(input, first, a) && FromFile(input, first, b)
    ensures FromFile(input, first, a + b)
  {
    forall j | 0 <= j < |a + b|
      ensures (a + b)[j] in Frames(input, UniversityCap, Counting(first))
    {
      if j < |a| {
        assert (a + b)[j] == a[j];
      } else {
        assert (a + b)[j] == b[j - |a|];
      }
    }
  }

  /** What can happen between two turns of the send loop: the loop takes a
      turn, reading the clock once, or an acknowledgement datagram arrives at
      the acknowledgement thread. */
  datatype Event = Loop(now: int) | AckArrives(a: seq<byte>)

  /** How `send` ends: normally, with a socket, unknown-host or other IO
      exception caught once the socket is open, or with an exception from
      `available()` or `new DatagramSocket()` before the socket is assigned. */
  datatype Ending = Finished | SocketError | UnknownHost | IoError | BeforeSocket

  /** What a call of `send` comes to: the value it returns, or the
      NullPointerException its `finally` block throws when it closes a socket
      that was never assigned. */
  datatype Return = Returned(ok: bool) | NullSocket

  /** The result both window senders document for `send`: true if the
      sending succeeded and false if an error occurred, with no exception of
      its own. */
  function Reported(e: Ending): (r: Return)
    ensures r.Returned?
    ensures r.ok <==> e.Finished?
  {
    Returned(e == Finished)
  }
}
