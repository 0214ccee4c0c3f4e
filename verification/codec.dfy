/** The wire formats shared by every sender and receiver: the 3-byte data
    header (big-endian 16-bit packet number, then the end-of-file byte), the
    2-byte little-endian window acknowledgement and the 1-byte stop-and-wait
    acknowledgement, together with each variant's way of reading them back. */
module Codec {
  import opened Bytes

  const HeaderSize: nat := 3

  /** The senders' header: `(byte)(n >> 8)`, `(byte) n`, then 1 for the last
      packet and 0 otherwise. Dafny's `/` and `%` by a positive constant are
      floor division and the two's-complement low bits, which is exactly what
      the arithmetic shift and the narrowing cast compute in Java. */
  function EncodeHeader(n: int, eof: bool): (h: seq<byte>)
    ensures |h| == HeaderSize
    ensures h[0] == (n / 256) % 256 && h[1] == n % 256
    ensures h[2] == (if eof then 1 else 0)
  {
    [LowByte(n / 256), LowByte(n), if eof then 1 else 0]
  }

  /** University receivers: `(0xFF00 & (b0 << 8)) | (0xFF & b1)`, an unsigned
      big-endian number. */
  function UnsignedNum(b0: byte, b1: byte): (n: int)
    ensures 0 <= n < 65536
  {
    b0 * 256 + b1
  }

  /** Receiver2a: `ByteBuffer.wrap({b0, b1}).getShort()`, a signed big-endian
      16-bit number. */
  function SignedShortNum(b0: byte, b1: byte): (n: int)
    ensures -32768 <= n < 32768
    ensures n % 65536 == UnsignedNum(b0, b1)
  {
    var u := b0 * 256 + b1;
    if u < 32768 then u else u - 65536
  }

  /** University receivers test the end-of-file byte with `data[2] > 0` on a
      signed byte: only 1..127 count. */
  predicate EofPositive(b: byte)
  {
    Signed(b) > 0
  }

  /** Coursework receivers test `packetArray[2] == 1`. */
  predicate EofIsOne(b: byte)
  {
    b == 1
  }

  /** The 2-byte window acknowledgement, low byte first:
      `ack[0] = (byte) n; ack[1] = (byte)(n >> 8)`. */
  function EncodeAck(n: int): (a: seq<byte>)
    ensures |a| == 2
  {
    [LowByte(n), LowByte(n / 256)]
  }

  /** University senders: `((a[1] << 8) & 0xFF00) | (a[0] & 0xFF)` read from a
      fresh 2-byte buffer (a short datagram leaves zeros). */
  function DecodeAck(a: seq<byte>): (n: int)
    ensures 0 <= n < 65536
  {
    At(a, 1) * 256 + At(a, 0)
  }

  /** Sender2a: `ByteBuffer.wrap(a).order(LITTLE_ENDIAN).getShort()`. */
  function DecodeSignedAck(a: seq<byte>): (n: int)
    ensures -32768 <= n < 32768
  {
    SignedShortNum(At(a, 1), At(a, 0))
  }

  /** The 1-byte stop-and-wait acknowledgement `(byte) n`. */
  function EncodeAck1(n: int): (a: seq<byte>)
    ensures |a| == 1
  {
    [LowByte(n)]
  }

  /** Splitting n into (n / 256) % 256 and n % 256 and putting the halves back
      together gives the low sixteen bits of n. */
  lemma SixteenBits(n: int)
    ensures ((n / 256) % 256) * 256 + n % 256 == n % 65536
  {
    var q := n / 256;
    var r := n % 256;
    assert n == 256 * q + r;
    var hi := q / 256;
    var lo := q % 256;
    assert q == 256 * hi + lo;
    assert n == 65536 * hi + (256 * lo + r);
    assert 0 <= 256 * lo + r < 65536;
    DivModUnique(n, hi, 256 * lo + r);
  }

  lemma DivModUnique(n: int, q: int, r: int)
    requires 0 <= r < 65536 && n == q * 65536 + r
    ensures n / 65536 == q && n % 65536 == r
  {
    var q' := n / 65536;
    var r' := n % 65536;
    assert n == q' * 65536 + r';
    assert (q' - q) * 65536 == r - r';
  }

  /** The University header round trip: the receivers read back the low
      sixteen bits of the number the sender wrote, so numbers 0..65535 survive
      and 65536 reads as 0; both end-of-file tests recover the flag. */
  lemma HeaderRoundTrip(n: int, eof: bool)
    ensures var h := EncodeHeader(n, eof);
      && UnsignedNum(h[0], h[1]) == n % 65536
      && (0 <= n < 65536 ==> UnsignedNum(h[0], h[1]) == n)
      && (EofPositive(h[2]) <==> eof)
      && (EofIsOne(h[2]) <==> eof)
  {
    SixteenBits(n);
  }

  /** The Coursework header round trip: Receiver2a's signed read gives back
      numbers below 32768 and turns 32768..65535 into negative numbers. */
  lemma SignedHeaderRoundTrip(n: int, eof: bool)
    requires 0 <= n < 65536
    ensures var h := EncodeHeader(n, eof);
      && (n < 32768 ==> SignedShortNum(h[0], h[1]) == n)
      && (n >= 32768 ==> SignedShortNum(h[0], h[1]) == n - 65536)
  {
    SixteenBits(n);
  }

  /** The University acknowledgement round trip: the sender reads back the
      low sixteen bits of the number the receiver acknowledged. */
  lemma AckRoundTrip(n: int)
    ensures DecodeAck(EncodeAck(n)) == n % 65536
    ensures 0 <= n < 65536 ==> DecodeAck(EncodeAck(n)) == n
  {
    SixteenBits(n);
  }

  /** The Coursework acknowledgement round trip: every 16-bit signed value,
      including Receiver2a's initial -1 (sent as 0xFF 0xFF), is read back by
      Sender2a unchanged. */
  lemma SignedAckRoundTrip(n: int)
    requires -32768 <= n < 32768
    ensures DecodeSignedAck(EncodeAck(n)) == n
  {
    SixteenBits(n);
    if n < 0 {
      assert n % 65536 == n + 65536;
    }
  }

  /** Receiver2a's first acknowledgement, before any packet was accepted. */
  lemma MinusOneAck()
    ensures EncodeAck(-1) == [255, 255]
  {
  }
}
