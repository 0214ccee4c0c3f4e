/** The stop-and-wait senders, Sender2 (University) and Sender1b
    (Coursework). Packet `k` carries number `k % 2`; it is sent, then the
    sender waits for a one-byte acknowledgement, and sends it again until a
    reply equal to its number arrives. Only then is the next packet read.

    The socket is replaced by the sequence of outcomes of the waits, in
    order: a timeout, or a received datagram. Every send is followed by one
    wait, so a run over `n` outcomes makes `n` sends; when the outcomes run
    out the transfer is still in progress. */
module StopAndWait {
  import opened Bytes
  import opened Codec
  import opened Framing
  import opened Receiving

  datatype Reply = Timeout | Received(data: seq<byte>)

  /** The reply test of both senders: the first byte of a fresh one-byte
      buffer, as a signed Java byte, equals the current number. */
  predicate Matches(n: int, r: Reply)
  {
    r.Received? && Signed(At(r.data, 0)) == n
  }

  /** The receivers' acknowledgement of packet `k` matches packet `k` and
      not the packet after it, so a late acknowledgement of the previous
      packet never releases the current one. */
  lemma AckMatching(k: nat)
    ensures Matches(k % 2, Received(EncodeAck1(k % 2)))
    ensures !Matches((k + 1) % 2, Received(EncodeAck1(k % 2)))
  {
  }

  /** The sends of one packet: until a reply matches, or the replies run out.
      Returns the number of sends and whether a match ended them. */
  function Attempts(n: int, replies: seq<Reply>): (r: (nat, bool))
    ensures r.0 <= |replies|
    ensures r.1 ==> r.0 >= 1 && Matches(n, replies[r.0 - 1])
    ensures !r.1 ==> r.0 == |replies|
    ensures forall j :: 0 <= j < |replies| && j < r.0 - (if r.1 then 1 else 0) ==> !Matches(n, replies[j])
    decreases |replies|
  {
    if |replies| == 0 then (0, false)
    else if Matches(n, replies[0]) then (1, true)
    else
      var r := Attempts(n, replies[1..]);
      assert forall j :: 1 <= j < |replies| ==> replies[j] == replies[1..][j - 1];
      (r.0 + 1, r.1)
  }

  /** What a run has done: the datagrams sent, how many times each packet
      was sent, whether the last packet was acknowledged, and Sender2's
      retransmission counter. */
  datatype Outcome = Outcome(sent: seq<seq<byte>>, counts: seq<nat>, complete: bool, retransmissions: int)

  /** What a run over packets `k..` of `fs` with `n` replies has done:
      every packet started is sent at least once, every packet before the
      current one was acknowledged, no more sends than replies, and the
      counter (decreased once per packet, increased once per send) ends at
      the number of sends minus the number of packets. */
  predicate Recorded(fs: seq<seq<byte>>, k: nat, n: nat, o: Outcome)
    requires k <= |fs|
  {
    && |o.counts| <= |fs| - k
    && o.sent == Repeat(fs[k..k + |o.counts|], o.counts)
    && |o.sent| <= n
    && (o.complete ==> |o.counts| == |fs| - k)
    && (forall j :: 0 <= j < |o.counts| && (o.complete || j < |o.counts| - 1) ==> o.counts[j] >= 1)
    && o.retransmissions == |o.sent| - |o.counts|
  }

  /** The total of a sequence of send counts. */
  function Sum(counts: seq<nat>): nat
  {
    if |counts| == 0 then 0 else counts[0] + Sum(counts[1..])
  }

  /** How the sends of a run starting at packet `k` line up with the
      replies: packet `k + j` owns the `counts[j]` replies that follow the
      ones its predecessors used, one per send. None of them matches its
      number except possibly the last, and the last matches exactly when the
      packet was acknowledged, which is every packet but an unfinished last
      one. An unfinished run is still on some packet and has used every
      reply. */
  predicate Paced(k: nat, counts: seq<nat>, complete: bool, replies: seq<Reply>)
  {
    && Sum(counts) <= |replies|
    && (!complete ==> |counts| >= 1 && Sum(counts) == |replies|)
    && forall j :: 0 <= j < |counts| ==> Segment(k, counts, complete, replies, j)
  }

  /** The replies owned by packet `k + j`, from `Sum(counts[..j])` on. */
  predicate Segment(k: nat, counts: seq<nat>, complete: bool, replies: seq<Reply>, j: nat)
    requires j < |counts|
  {
    var p := Sum(counts[..j]);
    && p + counts[j] <= |replies|
    && (forall i :: p <= i < p + counts[j] - 1 ==> !Matches((k + j) % 2, replies[i]))
    && ((counts[j] >= 1 && Matches((k + j) % 2, replies[p + counts[j] - 1])) <==> (complete || j < |counts| - 1))
  }

  /** Packets `k..` with datagrams `fs`, sent against `replies`: each packet
      is sent, and sent again after every wait that brings no matching
      reply. */
  function Transfer(fs: seq<seq<byte>>, k: nat, replies: seq<Reply>): (o: Outcome)
    requires k <= |fs|
    ensures Recorded(fs, k, |replies|, o)
    ensures Paced(k, o.counts, o.complete, replies)
    decreases |fs| - k
  {
    if k == |fs| then Outcome([], [], true, 0)
    else
      var (c, ok) := Attempts(k % 2, replies);
      if !ok then
        var r := Outcome(Copies(fs[k], c), [c], false, -1 + c);
        TransferLast(fs, k, c, |replies|, r);
        PacedLast(k, c, replies);
        r
      else
        var o := Transfer(fs, k + 1, replies[c..]);
        var r := Outcome(Copies(fs[k], c) + o.sent, [c] + o.counts, o.complete, -1 + c + o.retransmissions);
        TransferCons(fs, k, c, |replies|, o, r);
        PacedCons(k, c, o.counts, o.complete, replies);
        r
  }

  /** Packet `k` sent `c` times when the replies run out. */
  lemma TransferLast(fs: seq<seq<byte>>, k: nat, c: nat, n: nat, r: Outcome)
    requires k < |fs| && c <= n
    requires r == Outcome(Copies(fs[k], c), [c], false, -1 + c)
    ensures Recorded(fs, k, n, r)
  {
    RepeatOne(fs, k, c);
  }

  /** Packet `k` sent once per reply, none of them matching. */
  lemma PacedLast(k: nat, c: nat, replies: seq<Reply>)
    requires c == |replies|
    requires forall i :: 0 <= i < c ==> !Matches(k % 2, replies[i])
    ensures Paced(k, [c], false, replies)
  {
    assert [c][1..] == [];
    assert [c][..0] == [];
  }

  lemma SumPrefixCons(c: nat, counts: seq<nat>, j: nat)
    requires 1 <= j <= |counts| + 1
    ensures Sum(([c] + counts)[..j]) == c + Sum(counts[..j - 1])
  {
    assert ([c] + counts)[..j][1..] == counts[..j - 1];
  }

  /** Packet `k` acknowledged by reply `c - 1` after `c - 1` replies that do
      not match, followed by a run over the remaining replies. */
  lemma PacedCons(k: nat, c: nat, counts: seq<nat>, complete: bool, replies: seq<Reply>)
    requires 1 <= c <= |replies|
    requires forall i :: 0 <= i < c - 1 ==> !Matches(k % 2, replies[i])
    requires Matches(k % 2, replies[c - 1])
    requires Paced(k + 1, counts, complete, replies[c..])
    ensures Paced(k, [c] + counts, complete, replies)
  {
    var cs := [c] + counts;
    assert cs[1..] == counts;
    assert Sum(cs) == c + Sum(counts);
    forall j | 0 <= j < |cs|
      ensures Segment(k, cs, complete, replies, j)
    {
      if j == 0 {
        assert cs[..0] == [];
      } else {
        SegmentShift(k, c, counts, complete, replies, j);
      }
    }
  }

  /** Packet `k + 1 + (j - 1)` owns the same replies, shifted by `c`, in
      the run that starts one packet earlier. */
  lemma SegmentShift(k: nat, c: nat, counts: seq<nat>, complete: bool, replies: seq<Reply>, j: nat)
    requires c <= |replies| && 1 <= j <= |counts|
    requires Segment(k + 1, counts, complete, replies[c..], j - 1)
    ensures Segment(k, [c] + counts, complete, replies, j)
  {
    var cs := [c] + counts;
    SumPrefixCons(c, counts, j);
    assert cs[j] == counts[j - 1];
    assert (k + 1 + (j - 1)) % 2 == (k + j) % 2;
    var q := Sum(counts[..j - 1]);
    forall i | c + q <= i < c + q + cs[j]
      ensures replies[i] == replies[c..][i - c]
    {
    }
  }

  /** Packet `k` sent `c` times and acknowledged, followed by the run `o`
      over packets `k + 1..` and the remaining replies. */
  lemma TransferCons(fs: seq<seq<byte>>, k: nat, c: nat, n: nat, o: Outcome, r: Outcome)
    requires k < |fs| && 1 <= c <= n
    requires Recorded(fs, k + 1, n - c, o)
    requires r == Outcome(Copies(fs[k], c) + o.sent, [c] + o.counts, o.complete, -1 + c + o.retransmissions)
    ensures Recorded(fs, k, n, r)
  {
    RepeatCons(fs, k, c, o.counts);
    forall j | 0 <= j < |r.counts| && (r.complete || j < |r.counts| - 1)
      ensures r.counts[j] >= 1
    {
      if j > 0 {
        assert r.counts[j] == o.counts[j - 1];
      }
    }
  }
}

module Sender2 {
  import opened Bytes
  import opened Codec
  import opened Framing
  import opened Receiving
  import opened StopAndWait
  import Receiver2

  /** `send`: the University stop-and-wait transfer of `input`. */
  function Send(input: seq<byte>, replies: seq<Reply>): (o: Outcome)
    ensures var fs := Frames(input, UniversityCap, Alternating);
      && |o.counts| <= |fs|
      && o.sent == Repeat(fs[..|o.counts|], o.counts)
      && (o.complete ==> |o.counts| == |fs|)
      && o.retransmissions == |o.sent| - |o.counts|
    ensures Paced(0, o.counts, o.complete, replies)
  {
    var fs := Frames(input, UniversityCap, Alternating);
    assert fs[0..] == fs;
    Transfer(fs, 0, replies)
  }

  /** The header: byte 0 is 0 and byte 1 the alternating number. */
  lemma Header(k: nat, eof: bool)
    ensures EncodeHeader(k % 2, eof) == [0, k % 2, if eof then 1 else 0]
  {
  }

  /** A one-packet file whose first send times out: the packet goes out
      twice, the acknowledgement of packet 0 completes the transfer, and the
      counter reports one retransmission. */
  lemma OneTimeout(input: seq<byte>)
    requires |input| <= UniversityCap
    ensures var o := Send(input, [Timeout, Received([0])]);
      var fs := Frames(input, UniversityCap, Alternating);
      o.complete && o.sent == [fs[0], fs[0]] && o.retransmissions == 1
  {
    var fs := Frames(input, UniversityCap, Alternating);
    var replies := [Timeout, Received([0])];
    ChunksCount(input, UniversityCap);
    assert |fs| == 1;
    assert Attempts(0, replies[1..]) == (1, true);
    assert Attempts(0, replies) == (2, true);
    assert Transfer(fs, 1, replies[2..]) == Outcome([], [], true, 0);
    var o := Transfer(fs, 0, replies);
    assert o == Outcome(Copies(fs[0], 2) + [], [2] + [], true, -1 + 2 + 0);
    assert fs[0..] == fs;
    assert Copies(fs[0], 2) == [fs[0], fs[0]];
  }

  /** A transfer that completes, over a channel that loses nothing, leaves
      Receiver2 with the file written exactly. */
  lemma EndToEnd(input: seq<byte>, replies: seq<Reply>)
    requires Send(input, replies).complete
    ensures var t := Run(Receiver2.Step, Start(Receiver2.Init), Send(input, replies).sent);
      t.finished && t.output == input
  {
    var fs := Frames(input, UniversityCap, Alternating);
    var o := Send(input, replies);
    assert fs[..|o.counts|] == fs;
    Receiver2.Lossless(input, o.counts);
  }
}

module Sender1b {
  import opened Bytes
  import opened Codec
  import opened Framing
  import opened Receiving
  import opened StopAndWait
  import Receiver1b

  /** The Coursework stop-and-wait transfer of `input`: the same loop with
      1024-byte payloads and no counter. */
  function Send(input: seq<byte>, replies: seq<Reply>): (o: Outcome)
    ensures var fs := Frames(input, CourseworkCap, Alternating);
      && |o.counts| <= |fs|
      && o.sent == Repeat(fs[..|o.counts|], o.counts)
      && (o.complete ==> |o.counts| == |fs|)
    ensures Paced(0, o.counts, o.complete, replies)
  {
    var fs := Frames(input, CourseworkCap, Alternating);
    assert fs[0..] == fs;
    Transfer(fs, 0, replies)
  }

  /** The give-up test after each wait, `finalPacket > 10`, reads a counter
      that is never changed from 0, so only a matching reply ends the wait:
      while no reply matches the first packet's number, every wait is
      followed by another send of the first packet and the transfer never
      completes. */
  lemma NeverGivesUp(input: seq<byte>, replies: seq<Reply>)
    requires forall i :: 0 <= i < |replies| ==> !Matches(0, replies[i])
    ensures var o := Send(input, replies);
      var fs := Frames(input, CourseworkCap, Alternating);
      && !o.complete
      && o.counts == [|replies|]
      && o.sent == Copies(fs[0], |replies|)
  {
    var o := Send(input, replies);
    var fs := Frames(input, CourseworkCap, Alternating);
    ChunksCount(input, CourseworkCap);
    assert |o.counts| >= 1;
    assert Segment(0, o.counts, o.complete, replies, 0);
    assert o.counts[..0] == [];
    assert !o.complete && |o.counts| == 1;
    assert o.counts == [o.counts[0]];
    assert o.counts[1..] == [];
    assert fs[..1] == fs[0..0 + 1];
    RepeatOne(fs, 0, o.counts[0]);
  }

  /** A transfer that completes, over a channel that loses nothing, leaves
      Receiver1b with the file written exactly. */
  lemma EndToEnd(input: seq<byte>, replies: seq<Reply>)
    requires Send(input, replies).complete
    ensures var t := Run(Receiver1b.Step, Start(Receiver1b.Init), Send(input, replies).sent);
      t.finished && t.output == input
  {
    var fs := Frames(input, CourseworkCap, Alternating);
    var o := Send(input, replies);
    assert fs[..|o.counts|] == fs;
    Receiver1b.Lossless(input, o.counts);
  }
}
