/**
 UTF-8 as Rust's standard library treats it: well-formedness (section 4 of RFC 3629),
 `String::from_utf8_lossy`, and truncation at a character boundary.
 */
module Utf8 {
  import opened Bytes

  /** U+FFFD REPLACEMENT CHARACTER. */
  const FFFD: Bytes := [0xEF, 0xBF, 0xBD]

  predicate Continuation(b: byte) {
    0x80 <= b < 0xC0
  }

  /** The second byte allowed after lead byte `lead` of a three- or four-byte character. */
  predicate Second(lead: byte, b: byte) {
    if lead == 0xE0 then 0xA0 <= b < 0xC0
    else if lead == 0xED then 0x80 <= b < 0xA0
    else if lead == 0xF0 then 0x90 <= b < 0xC0
    else if lead == 0xF4 then 0x80 <= b < 0x90
    else Continuation(b)
  }

  /** Length of the well-formed character that starts `t`; 0 when there is none. */
  function CharLen(t: Bytes): (n: nat)
    ensures n <= 4 && n <= |t|
  {
    if t == [] then 0
    else if t[0] < 0x80 then 1
    else if 0xC2 <= t[0] < 0xE0 then
      if |t| >= 2 && Continuation(t[1]) then 2 else 0
    else if 0xE0 <= t[0] < 0xF0 then
      if |t| >= 3 && Second(t[0], t[1]) && Continuation(t[2]) then 3 else 0
    else if 0xF0 <= t[0] < 0xF5 then
      if |t| >= 4 && Second(t[0], t[1]) && Continuation(t[2]) && Continuation(t[3]) then 4 else 0
    else 0
  }

  /** Length of the ill-formed piece that one U+FFFD stands for: the maximal part of a character. */
  function BadLen(t: Bytes): (n: nat)
    requires t != [] && CharLen(t) == 0
    ensures 1 <= n <= 3 && n <= |t|
  {
    if 0xE0 <= t[0] < 0xF5 && |t| >= 2 && Second(t[0], t[1]) then
      if 0xF0 <= t[0] && |t| >= 3 && Continuation(t[2]) then 3 else 2
    else 1
  }

  function StepLen(t: Bytes): (n: nat)
    requires t != []
    ensures 1 <= n <= 4 && n <= |t|
  {
    if CharLen(t) > 0 then CharLen(t) else BadLen(t)
  }

  /** What one step of lossy decoding emits. */
  function Emit(t: Bytes): (r: Bytes)
    requires t != []
    ensures |r| >= StepLen(t)
  {
    if CharLen(t) > 0 then t[..CharLen(t)] else FFFD
  }

  /** `String::from_utf8_lossy`. */
  function Lossy(t: Bytes): (r: Bytes)
    ensures |r| >= |t|
  {
    if t == [] then [] else Emit(t) + Lossy(t[StepLen(t)..])
  }

  predicate WellFormed(t: Bytes) {
    t == [] || (CharLen(t) > 0 && WellFormed(t[CharLen(t)..]))
  }

  // ----- characters and boundaries -----

  lemma CharShape(t: Bytes)
    requires CharLen(t) > 0
    ensures !Continuation(t[0])
    ensures forall i :: 0 < i < CharLen(t) ==> Continuation(t[i])
  {
  }

  /** What follows a whole character does not change its length. */
  lemma CharLenExtend(a: Bytes, b: Bytes)
    requires CharLen(a) > 0
    ensures CharLen(a + b) == CharLen(a)
  {
  }

  /** A character cut out of its text is still that character. */
  lemma CharAlone(t: Bytes)
    requires CharLen(t) > 0
    ensures CharLen(t[..CharLen(t)]) == CharLen(t) && WellFormed(t[..CharLen(t)])
  {
    assert t[..CharLen(t)][CharLen(t)..] == [];
  }

  /** A proper part of a character is not a character. */
  lemma PartialChar(t: Bytes, e: nat)
    requires 0 < e < CharLen(t)
    ensures !WellFormed(t[..e])
  {
  }

  lemma HeadNotContinuation(t: Bytes)
    requires WellFormed(t) && t != []
    ensures !Continuation(t[0])
  {
    CharShape(t);
  }

  lemma FirstChar(t: Bytes)
    requires WellFormed(t) && t != []
    ensures 0 < CharLen(t) <= |t| && WellFormed(t[CharLen(t)..])
    ensures forall k :: 0 < k < CharLen(t) ==> Continuation(t[k])
  {
    CharShape(t);
  }

  lemma {:induction false} WellFormedConcat(a: Bytes, b: Bytes)
    requires WellFormed(a) && WellFormed(b)
    ensures WellFormed(a + b)
    decreases |a|
  {
    hide CharLen;
    if a == [] {
      assert a + b == b;
    } else {
      var c := CharLen(a);
      CharLenExtend(a, b);
      WellFormedConcat(a[c..], b);
      assert (a + b)[c..] == a[c..] + b;
    }
  }

  /** Removing a well-formed prefix leaves a well-formed rest. */
  lemma {:induction false} WellFormedRest(a: Bytes, b: Bytes)
    requires WellFormed(a) && WellFormed(a + b)
    ensures WellFormed(b)
    decreases |a|
  {
    hide CharLen;
    if a == [] {
      assert a + b == b;
    } else {
      var c := CharLen(a);
      CharLenExtend(a, b);
      assert (a + b)[c..] == a[c..] + b;
      WellFormedRest(a[c..], b);
    }
  }

  // ----- lossy decoding -----

  lemma {:induction false} LossyWellFormed(t: Bytes)
    ensures WellFormed(Lossy(t))
    decreases |t|
  {
    if t != [] {
      var c := CharLen(t);
      var head := Emit(t);
      LossyWellFormed(t[StepLen(t)..]);
      assert CharLen(head) == |head|;
      assert head[|head|..] == [];
      assert WellFormed(head);
      WellFormedConcat(head, Lossy(t[StepLen(t)..]));
    }
  }

  /** Decoding is the identity exactly on well-formed text. */
  lemma {:induction false} LossyIdentity(t: Bytes)
    ensures WellFormed(t) <==> Lossy(t) == t
    decreases |t|
  {
    LossyWellFormed(t);
    if t != [] && WellFormed(t) {
      var c := CharLen(t);
      LossyIdentity(t[c..]);
      assert t == t[..c] + t[c..];
    }
  }

  /** `t` is a proper, non-empty beginning of some character. */
  predicate Incomplete(t: Bytes) {
    && t != [] && CharLen(t) == 0 && BadLen(t) == |t| && 0xC2 <= t[0] < 0xF5
    && (|t| == 1 || Second(t[0], t[1]))
    && (|t| < 2 || 0xE0 <= t[0]) && (|t| < 3 || 0xF0 <= t[0])
  }

  /** Number of leading bytes whose decoding cannot depend on bytes still to come. */
  function Settled(t: Bytes): (m: nat)
    ensures m <= |t|
  {
    if t == [] || Incomplete(t) then 0 else StepLen(t) + Settled(t[StepLen(t)..])
  }

  lemma StepStable(a: Bytes, b: Bytes)
    requires a != [] && !Incomplete(a)
    ensures StepLen(a + b) == StepLen(a) && Emit(a + b) == Emit(a)
  {
  }

  lemma Associate(a: Bytes, b: Bytes, c: Bytes)
    ensures a + (b + c) == (a + b) + c
  {
  }

  /** Reading more bytes leaves the decoding of the settled part alone. */
  lemma {:induction false} LossySplit(a: Bytes, b: Bytes)
    ensures Lossy(a + b) == Lossy(a[..Settled(a)]) + Lossy(a[Settled(a)..] + b)
    ensures a[Settled(a)..] == [] || Incomplete(a[Settled(a)..])
    decreases |a|
  {
    if a == [] || Incomplete(a) {
      assert a[..0] == [] && a[0..] == a;
    } else {
      var n, m := StepLen(a), Settled(a);
      SplitOnce(a, b);
      LossySplit(a[n..], b);
      hide *;
      var front, back := a[n..][..m - n], a[n..][m - n..];
      assert back == a[m..];
      Associate(Emit(a), Lossy(front), Lossy(back + b));
    }
  }

  lemma SettledStep(a: Bytes)
    requires a != [] && !Incomplete(a)
    ensures Settled(a) == StepLen(a) + Settled(a[StepLen(a)..])
  {
  }

  lemma LossyStep(t: Bytes)
    requires t != []
    ensures Lossy(t) == Emit(t) + Lossy(t[StepLen(t)..])
  {
  }

  /** Decoding one settled step of `a`, whatever follows it. */
  lemma SplitOnce(a: Bytes, b: Bytes)
    requires a != [] && !Incomplete(a)
    ensures var n, m := StepLen(a), Settled(a);
            && n <= m && m - n == Settled(a[n..])
            && Lossy(a + b) == Emit(a) + Lossy(a[n..] + b)
            && Lossy(a[..m]) == Emit(a) + Lossy(a[n..][..m - n])
  {
    hide *;
    var n, m := StepLen(a), Settled(a);
    SettledStep(a);
    StepStable(a, b);
    StepStableTake(a, m);
    LossyStep(a + b);
    LossyStep(a[..m]);
    assert (a + b)[n..] == a[n..] + b;
    assert a[n..][..m - n] == a[..m][n..];
  }

  /** A step that is settled in `a` is the same step in any shorter piece that holds it whole. */
  lemma StepStableTake(a: Bytes, m: nat)
    requires a != [] && !Incomplete(a) && StepLen(a) <= m <= |a|
    ensures StepLen(a[..m]) == StepLen(a) && Emit(a[..m]) == Emit(a)
  {
  }

  /** How an unfinished character decodes once more bytes follow it. */
  lemma IncompleteThenMore(a: Bytes, b: Bytes)
    requires Incomplete(a) && b != []
    ensures 1 <= |a| <= 3 == |FFFD| && Lossy(a) == FFFD
    ensures FFFD <= Lossy(a + b) || (CharLen(Lossy(a + b)) > |a| && CharLen(a + b) > 0)
  {
  }

  // ----- truncation at a boundary -----

  /** `str::is_char_boundary`. */
  predicate IsBoundary(t: Bytes, i: nat) {
    i == 0 || i == |t| || (i < |t| && !Continuation(t[i]))
  }

  /** The greatest boundary not above `n`. */
  function FloorBoundary(t: Bytes, n: nat): (e: nat)
    ensures e <= n && IsBoundary(t, e)
    ensures forall i :: e < i <= n ==> !IsBoundary(t, i)
  {
    if IsBoundary(t, n) then n else FloorBoundary(t, n - 1)
  }

  /** The text cut to at most `n` bytes without splitting a character. */
  function Truncate(t: Bytes, n: nat): (r: Bytes)
    ensures |r| <= n && r <= t
  {
    if |t| <= n then t else t[..FloorBoundary(t, n)]
  }

  lemma BoundaryUnique(t: Bytes, n: nat, e: nat)
    requires n < |t| && e <= n && IsBoundary(t, e) && forall i :: e < i <= n ==> !IsBoundary(t, i)
    ensures FloorBoundary(t, n) == e
  {
    var f := FloorBoundary(t, n);
    assert !(f < e) && !(e < f);
  }

  /** Boundaries behind a whole character are those of the rest. */
  lemma FloorShift(t: Bytes, c: nat, n: nat)
    requires c <= n < |t| && IsBoundary(t, c)
    ensures FloorBoundary(t, n) == c + FloorBoundary(t[c..], n - c)
  {
    var e := FloorBoundary(t[c..], n - c);
    forall i | c + e < i <= n ensures !IsBoundary(t, i) {
      assert !IsBoundary(t[c..], i - c);
    }
    assert IsBoundary(t[c..], e);
    BoundaryUnique(t, n, c + e);
  }

  lemma BoundaryAfterChar(t: Bytes)
    requires WellFormed(t) && t != []
    ensures IsBoundary(t, CharLen(t)) && forall i :: 0 < i < CharLen(t) ==> !IsBoundary(t, i)
  {
    hide CharLen;
    CharShape(t);
    if CharLen(t) < |t| { HeadNotContinuation(t[CharLen(t)..]); }
  }

  /** Truncation works character by character. */
  lemma TruncateHead(t: Bytes, n: nat)
    requires WellFormed(t) && t != []
    ensures Truncate(t, n) == if CharLen(t) > n then [] else t[..CharLen(t)] + Truncate(t[CharLen(t)..], n - CharLen(t))
  {
    hide CharLen, WellFormed, FloorBoundary, IsBoundary;
    var c := CharLen(t);
    BoundaryAfterChar(t);
    if |t| > n {
      if c > n {
        BoundaryAtZero(t);
        BoundaryUnique(t, n, 0);
      } else {
        FloorShift(t, c, n);
      }
    }
  }

  lemma BoundaryAtZero(t: Bytes)
    ensures IsBoundary(t, 0)
  {
  }

  /** Prefixing whole characters that fit moves the cut by their length. */
  lemma {:induction false} TruncateConcat(a: Bytes, b: Bytes, n: nat)
    requires WellFormed(a) && WellFormed(b) && |a| <= n
    ensures Truncate(a + b, n) == a + Truncate(b, n - |a|)
    decreases |a|
  {
    hide CharLen, Truncate;
    if a == [] {
      assert a + b == b;
    } else {
      var c := CharLen(a);
      WellFormedConcat(a, b);
      CharLenExtend(a, b);
      TruncateHead(a + b, n);
      assert (a + b)[c..] == a[c..] + b;
      TruncateConcat(a[c..], b, n - c);
      assert a == a[..c] + a[c..];
    }
  }

  /** When whole characters already exceed the bound, what follows them does not matter. */
  lemma TruncateFits(a: Bytes, b: Bytes)
    ensures Truncate(a, |a|) == a && Truncate(b, 0) == []
  {
  }

  lemma {:induction false} TruncateIgnoresRest(a: Bytes, b: Bytes, n: nat)
    requires WellFormed(a) && WellFormed(b) && n <= |a|
    ensures Truncate(a + b, n) == Truncate(a, n)
    decreases |a|
  {
    hide CharLen, Truncate;
    if n == |a| {
      TruncateConcat(a, b, n);
      TruncateFits(a, b);
    } else {
      var c := CharLen(a);
      WellFormedConcat(a, b);
      CharLenExtend(a, b);
      TruncateHead(a + b, n);
      TruncateHead(a, n);
      assert (a + b)[c..] == a[c..] + b;
      if c <= n { TruncateIgnoresRest(a[c..], b, n - c); }
    }
  }

  /** No longer prefix that fits is well-formed. */
  lemma {:induction false} NoLongerPrefix(t: Bytes, n: nat, e: nat)
    requires WellFormed(t) && |Truncate(t, n)| < e <= n && e <= |t|
    ensures !WellFormed(t[..e])
    decreases |t|
  {
    hide CharLen, Truncate;
    TruncateHead(t, n);
    var c := CharLen(t);
    if c <= n {
      NoLongerPrefix(t[c..], n - c, e - c);
      CharAlone(t);
      assert t[..e] == t[..c] + t[c..][..e - c];
      if WellFormed(t[..e]) {
        WellFormedRest(t[..c], t[c..][..e - c]);
      }
    } else {
      PartialChar(t, e);
    }
  }

  lemma {:induction false} CutLosesAtMostThree(t: Bytes, n: nat)
    requires WellFormed(t) && |t| > n
    ensures n - |Truncate(t, n)| <= 3
    decreases |t|
  {
    hide CharLen, Truncate;
    TruncateHead(t, n);
    if CharLen(t) <= n {
      CutLosesAtMostThree(t[CharLen(t)..], n - CharLen(t));
    }
  }

  lemma {:induction false} TruncateWellFormed(t: Bytes, n: nat)
    requires WellFormed(t)
    ensures WellFormed(Truncate(t, n))
    decreases |t|
  {
    hide CharLen;
    if t != [] {
      hide Truncate;
      var c := CharLen(t);
      TruncateHead(t, n);
      if c <= n {
        CharAlone(t);
        TruncateWellFormed(t[c..], n - c);
        WellFormedConcat(t[..c], Truncate(t[c..], n - c));
      }
    }
  }

  /** The cut is the longest well-formed prefix that fits, and gives up at most three bytes. */
  lemma TruncateLongest(t: Bytes, n: nat)
    requires WellFormed(t)
    ensures WellFormed(Truncate(t, n))
    ensures forall e :: |Truncate(t, n)| < e <= n && e <= |t| ==> !WellFormed(t[..e])
    ensures |t| > n ==> n - |Truncate(t, n)| <= 3
  {
    TruncateWellFormed(t, n);
    forall e | |Truncate(t, n)| < e <= n && e <= |t| ensures !WellFormed(t[..e]) {
      NoLongerPrefix(t, n, e);
    }
    if |t| > n { CutLosesAtMostThree(t, n); }
  }
}
