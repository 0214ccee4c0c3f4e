/** Receiver4's reorder buffer: a `PriorityQueue<BufferedPacket>` whose
    comparator orders packets by number. The heap is modelled by the order it
    presents: a sequence sorted by number, whose head is what `peek` returns
    and `remove` takes away. */
module ReorderQueue {
  import opened BufferedPackets
  import opened Options

  /** The comparator: 0 for equal packets, -1 when the first has the smaller
      number, 1 otherwise. */
  function Compare(p: BufferedPacket, q: BufferedPacket): (c: int)
    ensures c == 0 <==> p.num == q.num
    ensures c < 0 <==> p.num < q.num
    ensures c > 0 <==> p.num > q.num
  {
    if Equals(p, Buffered(q)) then 0
    else if p.num < q.num then -1
    else 1
  }

  /** The comparator is consistent with `equals` and antisymmetric. */
  lemma CompareConsistent(p: BufferedPacket, q: BufferedPacket)
    ensures Compare(p, q) == 0 <==> Equals(p, Buffered(q))
    ensures Compare(p, q) == -Compare(q, p)
  {
  }

  /** Strictly increasing numbers: what the queue holds when every packet
      entered it through the `contains` test. */
  predicate Ascending(q: seq<BufferedPacket>)
  {
    forall i, j :: 0 <= i < j < |q| ==> q[i].num < q[j].num
  }

  /** `contains`: some element the packet `equals`. */
  function Contains(q: seq<BufferedPacket>, p: BufferedPacket): (r: bool)
    ensures r <==> exists i :: 0 <= i < |q| && q[i].num == p.num
    decreases |q|
  {
    if |q| == 0 then false
    else Equals(p, Buffered(q[0])) || Contains(q[1..], p)
  }

  /** `add`: the packet goes in after every packet that does not compare
      greater. */
  function Add(q: seq<BufferedPacket>, p: BufferedPacket): (r: seq<BufferedPacket>)
    ensures multiset(r) == multiset(q) + multiset{p}
    ensures |r| == |q| + 1
    ensures Ascending(q) && !Contains(q, p) ==> Ascending(r)
    decreases |q|
  {
    if |q| == 0 || Compare(p, q[0]) < 0 then [p] + q
    else
      var tail := Add(q[1..], p);
      AddBehindHead(q, p, tail);
      [q[0]] + tail
  }

  /** A packet that does not compare below the head goes in behind it. */
  lemma AddBehindHead(q: seq<BufferedPacket>, p: BufferedPacket, tail: seq<BufferedPacket>)
    requires |q| > 0 && Compare(p, q[0]) >= 0
    requires multiset(tail) == multiset(q[1..]) + multiset{p}
    requires Ascending(q[1..]) && !Contains(q[1..], p) ==> Ascending(tail)
    ensures multiset([q[0]] + tail) == multiset(q) + multiset{p}
    ensures Ascending(q) && !Contains(q, p) ==> Ascending([q[0]] + tail)
  {
    assert q == [q[0]] + q[1..];
    if Ascending(q) && !Contains(q, p) {
      assert Ascending(q[1..]);
      forall i | 0 <= i < |tail|
        ensures q[0].num < tail[i].num
      {
        AboveHead(q, p, tail[i]);
      }
    }
  }

  /** In an ascending queue without the packet's number, the packet and every
      packet behind the head lie above the head. */
  lemma AboveHead(q: seq<BufferedPacket>, p: BufferedPacket, x: BufferedPacket)
    requires |q| > 0 && Compare(p, q[0]) >= 0 && Ascending(q) && !Contains(q, p)
    requires x in multiset(q[1..]) + multiset{p}
    ensures q[0].num < x.num
  {
    if x != p {
      assert x in q[1..];
      var j :| 0 <= j < |q[1..]| && q[1..][j] == x;
      assert q[j + 1] == x;
    }
  }

  /** `peek`: the packet with the smallest number, if any. */
  function Peek(q: seq<BufferedPacket>): (r: Option<BufferedPacket>)
    ensures r.None? <==> |q| == 0
    ensures r.Some? ==> r.value in q
    ensures Ascending(q) && r.Some? ==> forall i :: 0 <= i < |q| ==> r.value.num <= q[i].num
  {
    if |q| == 0 then None else Some(q[0])
  }

  /** Every packet of an ascending queue whose numbers lie in `(lo, hi]`: the
      queue holds at most `hi - lo` of them. */
  lemma {:induction false} AscendingBound(q: seq<BufferedPacket>, lo: int, hi: int)
    requires Ascending(q)
    requires forall i :: 0 <= i < |q| ==> lo < q[i].num <= hi
    ensures |q| <= if hi > lo then hi - lo else 0
    decreases |q|
  {
    if |q| > 0 {
      AscendingBound(q[1..], q[0].num, hi);
    }
  }
}
