/** What a receive call leaves behind. `DatagramSocket.receive` copies the
    datagram into the caller's buffer, truncated to the buffer's length, and
    leaves the rest of the buffer as it was; the receivers then read the header
    out of the buffer and write `getLength() - 3` bytes from offset 3. */
module Datagram {
  import opened Bytes
  import opened Options
  import Codec

  /** The buffer after a receive, and the received length. */
  datatype Arrival = Arrival(view: seq<byte>, len: nat)
  {
    predicate Valid()
    {
      Codec.HeaderSize <= |view| && len <= |view|
    }
  }

  function Overlay(buf: seq<byte>, d: seq<byte>): (r: seq<byte>)
    ensures |r| == |buf|
    ensures forall i :: 0 <= i < |buf| ==> r[i] == (if i < |d| then d[i] else buf[i])
  {
    if |d| >= |buf| then d[..|buf|] else d + buf[|d|..]
  }

  function Receive(buf: seq<byte>, d: seq<byte>): (a: Arrival)
    requires Codec.HeaderSize <= |buf|
    ensures a.Valid() && |a.view| == |buf|
    ensures a.len == (if |d| < |buf| then |d| else |buf|)
  {
    Arrival(Overlay(buf, d), if |d| < |buf| then |d| else |buf|)
  }

  /** `write(view, 3, len - 3)`: a received length below the header size makes
      the length argument negative, and the stream throws instead of writing. */
  function Payload(a: Arrival): (p: Option<seq<byte>>)
    requires a.Valid()
    ensures p.Some? <==> a.len >= Codec.HeaderSize
    ensures p.Some? ==> |p.value| == a.len - Codec.HeaderSize
  {
    if a.len < Codec.HeaderSize then None else Some(a.view[Codec.HeaderSize..a.len])
  }

  /** A datagram that fits in the buffer and holds at least a header is seen
      exactly: its three header bytes are at the front of the buffer and the
      bytes written are the datagram's remainder, whatever the buffer held. */
  lemma ReceiveWhole(buf: seq<byte>, d: seq<byte>)
    requires Codec.HeaderSize <= |d| <= |buf|
    ensures var a := Receive(buf, d);
      && a.view[0] == d[0] && a.view[1] == d[1] && a.view[2] == d[2]
      && a.len == |d|
      && Payload(a) == Some(d[Codec.HeaderSize..])
  {
    var a := Receive(buf, d);
    assert a.view[..|d|] == d;
    assert a.view[Codec.HeaderSize..a.len] == d[Codec.HeaderSize..];
  }

  /** Whatever the buffer held, a datagram with a full header yields the bytes
      of the datagram from offset 3 up to the buffer's length. */
  lemma ReceivePayload(buf: seq<byte>, d: seq<byte>)
    requires Codec.HeaderSize <= |buf|
    requires Codec.HeaderSize <= |d|
    ensures var a := Receive(buf, d);
      Payload(a) == Some(d[Codec.HeaderSize..if |d| < |buf| then |d| else |buf|])
  {
    var a := Receive(buf, d);
    var n := if |d| < |buf| then |d| else |buf|;
    assert a.view[Codec.HeaderSize..n] == d[Codec.HeaderSize..n];
  }
}
