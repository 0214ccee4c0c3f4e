/** Sender1 (University) and Sender1a (Coursework): the unacknowledged
    senders. Each reads the file packet by packet, numbers the packets from
    0, sends every packet exactly once and reads no acknowledgement. They
    differ in the cap (1021 and 1024 payload bytes) and in where the counter
    is advanced. */
module Sender1 {
  import opened Bytes
  import opened Codec
  import opened Framing
  import opened Reading

  /** Sender1's `send` loop: the number starts at 0 and is advanced after
      each send; the loop ends after the packet marked end-of-file. Returns
      the datagrams in the order they are sent. */
  method Send(input: seq<byte>) returns (sent: seq<seq<byte>>)
    ensures sent == Frames(input, UniversityCap, Counting(0))
  {
    var fs := Frames(input, UniversityCap, Counting(0));
    var r := Open(input);
    OpenAt(input, UniversityCap);
    var packetNum := 0;
    var finishedTransfer := false;
    sent := [];
    while !finishedTransfer
      invariant finishedTransfer == r.eof
      invariant ReaderAt(input, UniversityCap, r, packetNum)
      invariant packetNum == |sent| <= |fs|
      invariant sent == fs[..packetNum]
      decreases if r.eof then 0 else |r.rest| + 1
    {
      ReadAt(input, UniversityCap, r, packetNum);
      var (c, r') := Read(r, UniversityCap);
      finishedTransfer := c.eof;
      var sendData := EncodeHeader(packetNum, finishedTransfer) + c.payload;
      assert sendData == fs[packetNum];
      TakeSnoc(fs, packetNum + 1);
      sent := sent + [sendData];
      packetNum := packetNum + 1;
      r := r';
    }
    assert fs[..|fs|] == fs;
  }

  /** The 16-bit header keeps the low sixteen bits of Sender1's int
      counter: packet 65536 goes out numbered 0. */
  lemma NumberWraps(eof: bool)
    ensures EncodeHeader(65536, eof)[..2] == EncodeHeader(0, eof)[..2] == [0, 0]
  {
  }

  /** What every sent packet looks like: the first `|fs| - 1` are full and
      not marked, only the last is marked end-of-file, each is its payload
      behind a 3-byte header, and the payloads put together are the file. */
  lemma SentShape(input: seq<byte>)
    ensures var cs := Chunks(input, UniversityCap);
      var fs := Frames(input, UniversityCap, Counting(0));
      && |fs| == |cs| >= 1
      && (forall i :: 0 <= i < |fs| ==> fs[i] == EncodeHeader(i, cs[i].eof) + cs[i].payload)
      && (forall i :: 0 <= i < |fs| ==> (fs[i][2] == 1 <==> i == |fs| - 1))
      && (forall i :: 0 <= i < |fs| - 1 ==> |fs[i]| == HeaderSize + UniversityCap)
      && Data(cs) == input
  {
    ChunksShape(input, UniversityCap);
    ChunksReassemble(input, UniversityCap);
  }
}

module Sender1a {
  import opened Bytes
  import opened Codec
  import opened Framing
  import opened Reading

  /** Sender1a's do-while loop: the counter starts at -1 and is advanced at
      the top of each iteration, so the first packet is numbered 0; the loop
      ends after the packet marked end-of-file. */
  method Send(input: seq<byte>) returns (sent: seq<seq<byte>>)
    ensures sent == Frames(input, CourseworkCap, Counting(0))
  {
    var fs := Frames(input, CourseworkCap, Counting(0));
    var r := Open(input);
    OpenAt(input, CourseworkCap);
    var packetNo := -1;
    var stillSending := true;
    sent := [];
    while stillSending
      invariant stillSending == !r.eof
      invariant ReaderAt(input, CourseworkCap, r, packetNo + 1)
      invariant packetNo + 1 == |sent| <= |fs|
      invariant sent == fs[..packetNo + 1]
      decreases if r.eof then 0 else |r.rest| + 1
    {
      packetNo := packetNo + 1;
      ReadAt(input, CourseworkCap, r, packetNo);
      var (c, r') := Read(r, CourseworkCap);
      stillSending := !c.eof;
      var packetArray := EncodeHeader(packetNo, c.eof) + c.payload;
      assert packetArray == fs[packetNo];
      TakeSnoc(fs, packetNo + 1);
      sent := sent + [packetArray];
      r := r';
    }
    assert fs[..|fs|] == fs;
  }
}
