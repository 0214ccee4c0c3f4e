/** BufferedPacket: an out-of-order packet held by Receiver4 until the packets
    before it arrive. Its fields are fixed at construction; `equals` and
    `hashCode` look at the packet number only. */
module BufferedPackets {
  import opened Bytes

  datatype BufferedPacket = BufferedPacket(num: int, data: seq<byte>, eof: bool)

  /** What `equals` may be handed: null, a BufferedPacket, or an object of
      another class. Two references to one object carry one packet, so the
      reference test `this == object` is read as equality of values. */
  datatype Obj = Null | Buffered(packet: BufferedPacket) | OtherClass

  /** Equal exactly when the other object is a BufferedPacket with the same
      number; the data and the end-of-file flag play no part. */
  function Equals(p: BufferedPacket, o: Obj): (r: bool)
    ensures r <==> o.Buffered? && o.packet.num == p.num
  {
    if o == Buffered(p) then true
    else if o.Null? then false
    else if o.OtherClass? then false
    else p.num == o.packet.num
  }

  /** Java's 32-bit `int` range and wrap-around. */
  predicate IsInt32(x: int)
  {
    -0x8000_0000 <= x < 0x8000_0000
  }

  function Wrap32(x: int): (r: int)
    ensures IsInt32(r)
    ensures (r - x) % 0x1_0000_0000 == 0
    ensures IsInt32(x) ==> r == x
  {
    (x + 0x8000_0000) % 0x1_0000_0000 - 0x8000_0000
  }

  /** `31 * 1 + packetNum` in `int` arithmetic. */
  function HashCode(p: BufferedPacket): (h: int)
    requires IsInt32(p.num)
    ensures IsInt32(h)
    ensures p.num < 0x8000_0000 - 31 ==> h == p.num + 31
    ensures p.num >= 0x8000_0000 - 31 ==> h == p.num + 31 - 0x1_0000_0000
  {
    Wrap32(31 * 1 + p.num)
  }

  /** `equals` is an equivalence relation that never holds for null or for
      an object of another class. */
  lemma EqualsIsEquivalence(p: BufferedPacket, q: BufferedPacket, s: BufferedPacket)
    ensures Equals(p, Buffered(p))
    ensures Equals(p, Buffered(q)) <==> Equals(q, Buffered(p))
    ensures Equals(p, Buffered(q)) && Equals(q, Buffered(s)) ==> Equals(p, Buffered(s))
    ensures !Equals(p, Null) && !Equals(p, OtherClass)
  {
  }

  /** Equal packets have equal hash codes. */
  lemma HashAgreesWithEquals(p: BufferedPacket, q: BufferedPacket)
    requires IsInt32(p.num) && IsInt32(q.num)
    requires Equals(p, Buffered(q))
    ensures HashCode(p) == HashCode(q)
  {
  }
}
