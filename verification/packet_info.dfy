/** Sender2a's window entry: the datagram, an acknowledgement flag, the packet
    number and the time of transmission. The source keeps the time as a
    `double`; every value it stores is a whole number of milliseconds, so the
    model keeps an `int`. */
module PacketInfos {
  import opened Bytes

  datatype PacketInfo = PacketInfo(packet: seq<byte>, ack: bool, packetNo: int, timeOfTransmission: int)

  /** The constructor takes a time of transmission but stores 0: the flag
      starts false and the entry looks as if it was sent at the epoch. */
  function New(packet: seq<byte>, packetNo: int, timeOfTransmission: int): (p: PacketInfo)
    ensures p.packet == packet && p.packetNo == packetNo
    ensures !p.ack
    ensures p.timeOfTransmission == 0
  {
    PacketInfo(packet, false, packetNo, 0)
  }

  /** `setAck`: the flag reads back as set; nothing else changes. */
  function SetAck(p: PacketInfo, ack: bool): (r: PacketInfo)
    ensures r.ack == ack
    ensures r.packet == p.packet && r.packetNo == p.packetNo && r.timeOfTransmission == p.timeOfTransmission
  {
    p.(ack := ack)
  }

  /** `setTimeOfTransmission`: the time reads back as set; nothing else
      changes. */
  function SetTimeOfTransmission(p: PacketInfo, t: int): (r: PacketInfo)
    ensures r.timeOfTransmission == t
    ensures r.packet == p.packet && r.packetNo == p.packetNo && r.ack == p.ack
  {
    p.(timeOfTransmission := t)
  }

  /** Two entries built at different times are indistinguishable: the time
      argument has no effect. */
  lemma NewIgnoresTime(packet: seq<byte>, packetNo: int, t1: int, t2: int)
    ensures New(packet, packetNo, t1) == New(packet, packetNo, t2)
  {
  }

  /** Sender2a's resend test, with `timeout` milliseconds. */
  predicate Due(p: PacketInfo, ackPacket: int, now: int, timeout: int)
  {
    p.packetNo > ackPacket && p.timeOfTransmission + timeout < now
  }

  /** So a fresh entry not yet covered by the cursor is due at once whenever
      the clock has passed the timeout, whatever time it was created at. */
  lemma NewIsDue(packet: seq<byte>, packetNo: int, created: int, ackPacket: int, now: int, timeout: int)
    requires packetNo > ackPacket && timeout < now
    ensures Due(New(packet, packetNo, created), ackPacket, now, timeout)
  {
  }

  function Packets(w: seq<PacketInfo>): (ps: seq<seq<byte>>)
    ensures |ps| == |w|
    ensures forall i :: 0 <= i < |w| ==> ps[i] == w[i].packet
  {
    seq(|w|, i requires 0 <= i < |w| => w[i].packet)
  }
}
