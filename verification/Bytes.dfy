/** Byte strings: the contents of a Rust `String`, `Vec<u8>` or chunk. */
module Bytes {

  type byte = b: int | 0 <= b < 256

  type Bytes = seq<byte>

  /** Pattern `p` occurs in text `t` at index `i`. */
  predicate OccursAt(p: Bytes, t: Bytes, i: int) {
    0 <= i <= |t| - |p| && t[i..i + |p|] == p
  }

  /** Pattern `p` is a factor (contiguous part) of text `t`. */
  ghost predicate Contains(t: Bytes, p: Bytes) {
    exists i :: OccursAt(p, t, i)
  }

  function Min(a: nat, b: nat): (m: nat)
    ensures m <= a && m <= b && (m == a || m == b)
  {
    if a <= b then a else b
  }

  /** The ASCII bytes of a string. */
  predicate Spells(t: Bytes, s: string) {
    |t| == |s| && forall k :: 0 <= k < |t| ==> t[k] as int == s[k] as int
  }

  /** The first `n` bytes, or everything when there are fewer. */
  function Take(t: Bytes, n: nat): (r: Bytes)
    ensures |r| == Min(|t|, n) && r <= t
  {
    t[..Min(|t|, n)]
  }

  lemma OccursInSlice(p: Bytes, t: Bytes, lo: nat, hi: nat, i: int)
    requires lo <= hi <= |t|
    ensures OccursAt(p, t[lo..hi], i) <==> (0 <= i && lo + i + |p| <= hi && OccursAt(p, t, lo + i))
  {
    if 0 <= i && i + |p| <= hi - lo {
      var a, b := t[lo..hi][i..i + |p|], t[lo + i..lo + i + |p|];
      assert |a| == |b|;
      assert forall k :: 0 <= k < |p| ==> a[k] == b[k];
      assert a == b;
    }
  }

  /** Any factor of a slice is a factor of the whole. */
  lemma SliceContains(p: Bytes, t: Bytes, lo: nat, hi: nat)
    requires lo <= hi <= |t|
    ensures Contains(t[lo..hi], p) ==> Contains(t, p)
  {
    if Contains(t[lo..hi], p) {
      var i :| OccursAt(p, t[lo..hi], i);
      OccursInSlice(p, t, lo, hi, i);
      assert OccursAt(p, t, lo + i);
    }
  }
}
