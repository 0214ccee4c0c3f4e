/** Bytes as the Java sources see them: unsigned values 0..255 on the wire, with
    Java's signed `byte` view available where the code compares or widens a byte. */
module Bytes {

  type byte = x: int | 0 <= x < 256

  /** The byte at index `i` of a buffer whose unused tail is zero, as a freshly
      allocated Java array is. */
  function At(d: seq<byte>, i: nat): byte
  {
    if i < |d| then d[i] else 0
  }

  function Zeros(n: nat): (z: seq<byte>)
    ensures |z| == n
    ensures forall i :: 0 <= i < n ==> z[i] == 0
  {
    seq(n, _ => 0)
  }

  /** Java's value of a `byte` after sign extension to `int`. */
  function Signed(b: byte): (v: int)
    ensures -128 <= v < 128
    ensures v % 256 == b
  {
    if b < 128 then b else b - 256
  }

  /** Java's `(byte) x`: the low eight bits of `x`, as an unsigned value. */
  function LowByte(x: int): byte
  {
    x % 256
  }

  /** A prefix one element longer is the shorter prefix and that element. */
  lemma TakeSnoc<T>(s: seq<T>, k: nat)
    requires 0 < k <= |s|
    ensures s[..k] == s[..k - 1] + [s[k - 1]]
  {
  }

  /** Drawn from a sequence whose elements are all in `all`, every element
      of `ch` is in `all`. */
  lemma InBoth<T>(ch: seq<T>, sent: seq<T>, all: seq<T>)
    requires forall j :: 0 <= j < |ch| ==> ch[j] in sent
    requires forall k :: 0 <= k < |sent| ==> sent[k] in all
    ensures forall j :: 0 <= j < |ch| ==> ch[j] in all
  {
    forall j | 0 <= j < |ch|
      ensures ch[j] in all
    {
      var k :| 0 <= k < |sent| && sent[k] == ch[j];
    }
  }

  /** Every element of a prefix is an element of the whole. */
  lemma TakeIn<T>(s: seq<T>, k: nat)
    requires k <= |s|
    ensures forall j :: 0 <= j < k ==> s[..k][j] in s
  {
  }
}
