/** Sender3's and Sender4's window entry: the datagram, whether it has been
    acknowledged, its packet number and the time it was last sent (in
    milliseconds since the epoch). The number and the datagram are fixed at
    construction; the only mutators set the flag and the timestamp. */
module WindowPackets {
  import opened Bytes

  datatype WindowPacket = WindowPacket(packet: seq<byte>, acked: bool, num: int, timeLastSent: int)

  /** The constructor: the flag as given, and a last-sent time of 0 so that
      the entry is due for sending straight away. */
  function New(packet: seq<byte>, acked: bool, num: int): (w: WindowPacket)
    ensures w.packet == packet && w.acked == acked && w.num == num
    ensures w.timeLastSent == 0
  {
    WindowPacket(packet, acked, num, 0)
  }

  /** `ackPacket`: sets the flag and nothing else. */
  function AckPacket(w: WindowPacket): (r: WindowPacket)
    ensures r.acked
    ensures r.packet == w.packet && r.num == w.num && r.timeLastSent == w.timeLastSent
  {
    w.(acked := true)
  }

  /** `setTimeLastSent`: replaces the timestamp and nothing else. */
  function SetTimeLastSent(w: WindowPacket, t: int): (r: WindowPacket)
    ensures r.timeLastSent == t
    ensures r.packet == w.packet && r.num == w.num && r.acked == w.acked
  {
    w.(timeLastSent := t)
  }

  lemma AckIdempotent(w: WindowPacket)
    ensures AckPacket(AckPacket(w)) == AckPacket(w)
  {
  }

  /** The operations the senders apply to an entry after constructing it. */
  datatype Op = Ack | Stamp(t: int)

  function Apply(w: WindowPacket, ops: seq<Op>): WindowPacket
    decreases |ops|
  {
    if |ops| == 0 then w
    else
      var w' := match ops[0] case Ack => AckPacket(w) case Stamp(t) => SetTimeLastSent(w, t);
      Apply(w', ops[1..])
  }

  /** Whatever is done to an entry, its number and datagram never change, and
      once acknowledged it stays acknowledged. */
  lemma {:induction false} ApplyKeeps(w: WindowPacket, ops: seq<Op>)
    ensures Apply(w, ops).packet == w.packet && Apply(w, ops).num == w.num
    ensures w.acked ==> Apply(w, ops).acked
    ensures (exists i :: 0 <= i < |ops| && ops[i] == Ack) ==> Apply(w, ops).acked
    decreases |ops|
  {
    if |ops| > 0 {
      var w' := match ops[0] case Ack => AckPacket(w) case Stamp(t) => SetTimeLastSent(w, t);
      ApplyKeeps(w', ops[1..]);
      if exists i :: 0 <= i < |ops| && ops[i] == Ack {
        var i :| 0 <= i < |ops| && ops[i] == Ack;
        if i > 0 {
          assert ops[1..][i - 1] == Ack;
        }
      }
    }
  }

  /** The retransmission test of Sender4, with `timeout` milliseconds. */
  predicate Due(w: WindowPacket, now: int, timeout: int)
  {
    !w.acked && now > w.timeLastSent + timeout
  }

  /** A fresh unacknowledged entry is due as soon as the clock has passed the
      timeout, which any real epoch time has. */
  lemma NewIsDue(packet: seq<byte>, num: int, now: int, timeout: int)
    requires now > timeout
    ensures Due(New(packet, false, num), now, timeout)
  {
  }

  /** Sending an entry at time `now` makes it not due at `now`, nor at any
      time up to `now + timeout`. */
  lemma StampedNotDue(w: WindowPacket, now: int, later: int, timeout: int)
    requires later <= now + timeout
    ensures !Due(SetTimeLastSent(w, now), later, timeout)
  {
  }

  /** The datagrams of a sequence of entries, in order. */
  function Packets(w: seq<WindowPacket>): (ps: seq<seq<byte>>)
    ensures |ps| == |w|
    ensures forall i :: 0 <= i < |w| ==> ps[i] == w[i].packet
  {
    seq(|w|, i requires 0 <= i < |w| => w[i].packet)
  }
}
