/** How unsigned 64-bit numbers and ids are stored in SQLite: signed casts and big-endian blobs. */
module Encoding {
  import opened Basics

  /** `as i64` on a u64. */
  function AsI64(n: u64): i64 {
    if n < TWO_63 then n else n - TWO_64
  }

  /** `as u64` on an i64. */
  function AsU64(n: i64): u64 {
    if 0 <= n then n else n + TWO_64
  }

  function Pow256(width: nat): (r: nat)
    ensures 0 < r
  {
    if width == 0 then 1 else 256 * Pow256(width - 1)
  }

  /** `to_be_bytes` at a given width. */
  function ToBytes(n: nat, width: nat): (r: seq<byte>)
    ensures |r| == width
  {
    if width == 0 then [] else ToBytes(n / 256, width - 1) + [n % 256]
  }

  /** `from_be_bytes`. */
  function FromBytes(s: seq<byte>): nat {
    if s == [] then 0 else FromBytes(s[..|s| - 1]) * 256 + s[|s| - 1]
  }

  /** memcmp of two blobs finds the first one smaller. */
  predicate BytesLess(a: seq<byte>, b: seq<byte>) {
    if a == [] || b == [] then a == [] && b != []
    else a[0] < b[0] || (a[0] == b[0] && BytesLess(a[1..], b[1..]))
  }

  lemma {:induction false} BytesRoundTrip(n: nat, width: nat)
    requires n < Pow256(width)
    ensures FromBytes(ToBytes(n, width)) == n
  {
    if width != 0 {
      BytesRoundTrip(n / 256, width - 1);
      var s := ToBytes(n, width);
      assert s[..|s| - 1] == ToBytes(n / 256, width - 1);
    }
  }

  lemma {:induction false} BytesLessAppend(a: seq<byte>, b: seq<byte>, x: byte, y: byte)
    requires |a| == |b|
    ensures BytesLess(a + [x], b + [y]) <==> BytesLess(a, b) || (a == b && x < y)
  {
    if a != [] {
      BytesLessAppend(a[1..], b[1..], x, y);
      assert (a + [x])[1..] == a[1..] + [x] && (b + [y])[1..] == b[1..] + [y];
      assert a == [a[0]] + a[1..] && b == [b[0]] + b[1..];
    }
  }

  /** Among blobs of one width memcmp is the order of the numbers, so ranges of them can be compared in SQL. */
  lemma {:induction false} BytesKeepOrder(a: seq<byte>, b: seq<byte>)
    requires |a| == |b|
    ensures BytesLess(a, b) <==> FromBytes(a) < FromBytes(b)
    ensures FromBytes(a) == FromBytes(b) ==> a == b
  {
    if a != [] {
      var n := |a| - 1;
      BytesKeepOrder(a[..n], b[..n]);
      BytesLessAppend(a[..n], b[..n], a[n], b[n]);
      assert a == a[..n] + [a[n]] && b == b[..n] + [b[n]];
    }
  }

  lemma CastRoundTrip(n: u64)
    ensures AsU64(AsI64(n)) == n
  {
  }

  /** The filter the SQL query applies to the stored tombstone: both sides are signed. */
  predicate SignedTombstoneFilter(tombstone: u64, currentBlockIndex: u64) {
    0 < AsI64(tombstone) <= AsI64(currentBlockIndex)
  }

  /** The signed filter means the unsigned one for every stored tombstone exactly below 2^63 blocks. */
  lemma SignedFilterExact(currentBlockIndex: u64)
    ensures currentBlockIndex < TWO_63
       <==> forall t: u64 :: SignedTombstoneFilter(t, currentBlockIndex) <==> t != 0 && t <= currentBlockIndex
  {
    if TWO_63 <= currentBlockIndex {
      assert !SignedTombstoneFilter(1, currentBlockIndex);
    }
  }
}
