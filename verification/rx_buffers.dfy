/** The receive buffers of the two code bases. The University receivers
    allocate a fresh zeroed 1024-byte array for every datagram, so header
    bytes a short datagram lacks read as 0. The Coursework receivers allocate
    one 1027-byte array and reuse it, so bytes a short datagram lacks are
    left over from earlier datagrams. */
module UniversityRx {
  import opened Bytes
  import opened Options
  import opened Codec
  import opened Datagram
  import opened Framing

  const PacketSize: nat := 1024

  function Arrive(d: seq<byte>): (a: Arrival)
    ensures a.Valid() && |a.view| == PacketSize
    ensures forall i :: 0 <= i < PacketSize ==> a.view[i] == At(d, i)
    ensures a.len == if |d| < PacketSize then |d| else PacketSize
  {
    Receive(Zeros(PacketSize), d)
  }

  /** The packet number as the receivers decode it. */
  function Number(d: seq<byte>): (n: int)
    ensures n == UnsignedNum(At(d, 0), At(d, 1))
  {
    var a := Arrive(d);
    UnsignedNum(a.view[0], a.view[1])
  }

  function Flag(d: seq<byte>): (b: byte)
    ensures b == At(d, 2)
  {
    Arrive(d).view[2]
  }

  /** The bytes a University receiver writes for a datagram, or None when
      the datagram is shorter than the header and the write throws. */
  lemma ArrivePayload(d: seq<byte>)
    ensures |d| < HeaderSize ==> Payload(Arrive(d)) == None
    ensures HeaderSize <= |d| ==>
      Payload(Arrive(d)) == Some(d[HeaderSize..if |d| < PacketSize then |d| else PacketSize])
  {
    if HeaderSize <= |d| {
      ReceivePayload(Zeros(PacketSize), d);
    }
  }

  /** A University datagram is read back exactly: its number, its flag and
      its payload. */
  lemma SeeFrame(n: int, c: Chunk)
    requires |c.payload| <= UniversityCap
    ensures var d := Frame(n, c);
      && HeaderSize <= |d| <= PacketSize
      && Number(d) == n % 65536
      && (0 <= n < 65536 ==> Number(d) == n)
      && (EofPositive(Flag(d)) <==> c.eof)
      && Payload(Arrive(d)) == Some(c.payload)
  {
    var d := Frame(n, c);
    HeaderRoundTrip(n, c.eof);
    ReceiveWhole(Zeros(PacketSize), d);
  }
}

module CourseworkRx {
  import opened Bytes
  import opened Options
  import opened Codec
  import opened Datagram
  import opened Framing

  const BufferSize: nat := 1027

  type RxBuffer = b: seq<byte> | |b| == BufferSize witness Zeros(BufferSize)

  const Fresh: RxBuffer := Zeros(BufferSize)

  function Arrive(buf: RxBuffer, d: seq<byte>): (a: Arrival)
    ensures a.Valid() && |a.view| == BufferSize
    ensures forall i :: 0 <= i < BufferSize ==> a.view[i] == (if i < |d| then d[i] else buf[i])
    ensures a.len == if |d| < BufferSize then |d| else BufferSize
  {
    Receive(buf, d)
  }

  /** The bytes a Coursework receiver writes for a datagram, or None when the
      datagram is shorter than the header; the header bytes of such a
      datagram are the datagram's own. */
  lemma ArrivePayload(buf: RxBuffer, d: seq<byte>)
    ensures |d| < HeaderSize ==> Payload(Arrive(buf, d)) == None
    ensures HeaderSize <= |d| ==>
      && Payload(Arrive(buf, d)) == Some(d[HeaderSize..if |d| < BufferSize then |d| else BufferSize])
      && Arrive(buf, d).view[2] == d[2]
  {
    if HeaderSize <= |d| {
      ReceivePayload(buf, d);
    }
  }

  /** A Coursework datagram is read back exactly, whatever the buffer held
      before: its three header bytes and its payload. */
  lemma SeeFrame(buf: RxBuffer, n: int, c: Chunk)
    requires |c.payload| <= CourseworkCap
    ensures var d := Frame(n, c);
      var a := Arrive(buf, d);
      && HeaderSize <= |d| <= BufferSize
      && a.view[0] == (n / 256) % 256 && a.view[1] == n % 256
      && (EofIsOne(a.view[2]) <==> c.eof)
      && Payload(a) == Some(c.payload)
  {
    ReceiveWhole(buf, Frame(n, c));
  }
}
