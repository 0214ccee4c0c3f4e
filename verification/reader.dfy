/** The senders' file reader: the bytes not yet read (`available()` is their
    count, and every read returns what it asks for) and whether the packet
    marked end-of-file has been made. */
module Reading {
  import opened Bytes
  import opened Framing

  datatype Reader = Reader(rest: seq<byte>, eof: bool)

  function Open(input: seq<byte>): Reader
  {
    Reader(input, false)
  }

  /** One read of a send loop: the next packet and the reader after it. */
  function Read(r: Reader, cap: nat): (res: (Chunk, Reader))
    ensures res.0.payload + res.1.rest == r.rest
    ensures res.1.eof <==> res.0.eof
    ensures res.0.eof <==> |r.rest| <= cap
    ensures !res.0.eof ==> |res.0.payload| == cap
  {
    var (c, rest) := NextChunk(r.rest, cap);
    (c, Reader(rest, c.eof))
  }

  /** The reader has made packets `0..k-1` of `input`: if it has not reached
      the end, what is left makes exactly the remaining packets. */
  predicate ReaderAt(input: seq<byte>, cap: nat, r: Reader, k: nat)
    requires cap > 0
  {
    var cs := Chunks(input, cap);
    if r.eof then k == |cs| else k < |cs| && Chunks(r.rest, cap) == cs[k..]
  }

  lemma OpenAt(input: seq<byte>, cap: nat)
    requires cap > 0
    ensures ReaderAt(input, cap, Open(input), 0)
  {
    ChunksShape(input, cap);
  }

  /** Reading at packet `k` gives packet `k` of the input. */
  lemma ReadAt(input: seq<byte>, cap: nat, r: Reader, k: nat)
    requires cap > 0 && ReaderAt(input, cap, r, k) && !r.eof
    ensures var (c, r') := Read(r, cap);
      k < |Chunks(input, cap)| && c == Chunks(input, cap)[k] && ReaderAt(input, cap, r', k + 1)
  {
    var cs := Chunks(input, cap);
    var (c, r') := Read(r, cap);
    var (c0, rest) := NextChunk(r.rest, cap);
    assert c == c0 && r'.rest == rest;
    assert cs[k..][0] == cs[k];
    if c.eof {
      assert Chunks(r.rest, cap) == [c];
      assert |cs[k..]| == 1;
    } else {
      assert Chunks(r.rest, cap) == [c] + Chunks(rest, cap);
      assert cs[k + 1..] == cs[k..][1..];
    }
  }
}
