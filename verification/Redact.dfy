/** `redact_text`: every listed secret is replaced, in list order, by a bracketed marker. */
module Redact {
  import opened Bytes
  import opened Utf8

  /** The ASCII bytes of `[REDACTED]`. */
  const REDACTED: Bytes := [0x5B, 0x52, 0x45, 0x44, 0x41, 0x43, 0x54, 0x45, 0x44, 0x5D]

  const OPEN: byte := 0x5B
  const CLOSE: byte := 0x5D

  /** `str::replace`: leftmost, non-overlapping occurrences of `s` become `r`. */
  function Replace(t: Bytes, s: Bytes, r: Bytes): Bytes
    requires s != []
    decreases |t|
  {
    if |t| < |s| then t
    else if s <= t then r + Replace(t[|s|..], s, r)
    else [t[0]] + Replace(t[1..], s, r)
  }

  /** How many replacements `Replace` makes. */
  function Count(t: Bytes, s: Bytes): nat
    requires s != []
    decreases |t|
  {
    if |t| < |s| then 0
    else if s <= t then 1 + Count(t[|s|..], s)
    else Count(t[1..], s)
  }

  /** Redaction of a list of secrets; an empty secret is skipped. */
  function RedactAll(t: Bytes, secrets: seq<Bytes>): Bytes
    decreases |secrets|
  {
    if secrets == [] then t
    else RedactAll(if secrets[0] == [] then t else Replace(t, secrets[0], REDACTED), secrets[1..])
  }

  method RedactText(input: Bytes, secrets: seq<Bytes>) returns (output: Bytes)
    ensures output == RedactAll(input, secrets)
  {
    output := input;
    for i := 0 to |secrets|
      invariant RedactAll(output, secrets[i..]) == RedactAll(input, secrets)
    {
      var value := secrets[i];
      assert secrets[i..][1..] == secrets[i + 1..];
      if value != [] {
        output := Replace(output, value, REDACTED);
      }
    }
    assert secrets[|secrets|..] == [];
  }

  // ----- the scan -----

  /** The first occurrence is replaced, and the scan goes on behind it. */
  lemma {:induction false} ReplaceLeftmost(a: Bytes, b: Bytes, s: Bytes, r: Bytes)
    requires s != [] && forall i :: 0 <= i < |a| ==> !OccursAt(s, a + s + b, i)
    ensures Replace(a + s + b, s, r) == a + r + Replace(b, s, r)
    ensures Count(a + s + b, s) == 1 + Count(b, s)
    decreases |a|
  {
    hide OccursAt;
    var t := a + s + b;
    if a == [] {
      assert t == s + b && t[|s|..] == b;
      assert [] + r == r;
    } else {
      PrefixOccurs(s, t);
      var rest := a[1..] + s + b;
      assert t[1..] == rest && t == [a[0]] + rest;
      forall i | 0 <= i < |a[1..]| ensures !OccursAt(s, rest, i) {
        OccursInTail(s, t, i);
      }
      ReplaceLeftmost(a[1..], b, s, r);
      ReplaceStep(t, s, r);
      assert [a[0]] + (a[1..] + r + Replace(b, s, r)) == a + r + Replace(b, s, r);
    }
  }

  lemma PrefixOccurs(s: Bytes, t: Bytes)
    ensures OccursAt(s, t, 0) <==> s <= t
  {
  }

  lemma OccursInTail(s: Bytes, t: Bytes, i: nat)
    requires t != []
    ensures OccursAt(s, t[1..], i) <==> OccursAt(s, t, i + 1)
  {
    assert t[1..|t|] == t[1..];
    OccursInSlice(s, t, 1, |t|, i);
  }

  /** Without an occurrence nothing changes. */
  lemma {:induction false} ReplaceNothing(t: Bytes, s: Bytes, r: Bytes)
    requires s != [] && !Contains(t, s)
    ensures Replace(t, s, r) == t && Count(t, s) == 0
    decreases |t|
  {
    hide OccursAt, Contains;
    if |t| < |s| {
      NothingShort(t, s);
    } else {
      AbsentInTail(t, s);
      ReplaceNothing(t[1..], s, r);
      ReplaceStep(t, s, r);
      assert [t[0]] + t[1..] == t;
    }
  }

  lemma AbsentInTail(t: Bytes, s: Bytes)
    requires !Contains(t, s) && t != []
    ensures !(s <= t) && !Contains(t[1..], s)
  {
    PrefixOccurs(s, t);
    assert t[1..|t|] == t[1..];
    SliceContains(s, t, 1, |t|);
  }

  /** Each replacement changes the length by as much as its two words differ. */
  lemma {:induction false} ReplaceLength(t: Bytes, s: Bytes, r: Bytes)
    requires s != []
    ensures |Replace(t, s, r)| == |t| + Count(t, s) * (|r| - |s|)
    decreases |t|
  {
    if |t| >= |s| {
      if s <= t {
        ReplaceLength(t[|s|..], s, r);
        assert (1 + Count(t[|s|..], s)) * (|r| - |s|) == |r| - |s| + Count(t[|s|..], s) * (|r| - |s|);
      } else {
        ReplaceLength(t[1..], s, r);
      }
    }
  }

  /** Redaction leaves a text alone that holds none of the secrets. */
  lemma {:induction false} RedactAllNothing(t: Bytes, secrets: seq<Bytes>)
    requires forall s :: s in secrets ==> s == [] || !Contains(t, s)
    ensures RedactAll(t, secrets) == t
    decreases |secrets|
  {
    if secrets != [] {
      if secrets[0] != [] { ReplaceNothing(t, secrets[0], REDACTED); }
      RedactAllNothing(t, secrets[1..]);
    }
  }

  lemma MarkerText()
    ensures Spells(REDACTED, "[REDACTED]")
  {
  }

  // ----- no secret survives -----

  predicate BracketFree(s: Bytes) {
    OPEN !in s && CLOSE !in s
  }

  predicate EndsWith(t: Bytes, p: Bytes) {
    |p| <= |t| && t[|t| - |p|..] == p
  }

  /** No proper part at the front of `s` ends the marker, and none at its back begins it. */
  predicate Apart(s: Bytes) {
    forall j :: 0 < j < |s| ==> !EndsWith(REDACTED, s[..j]) && !(s[j..] <= REDACTED)
  }

  /** A secret the marker can hide: the two do not overlap, and neither contains the other. */
  ghost predicate Redactable(s: Bytes) {
    s != [] && Apart(s) && !Contains(REDACTED, s) && !Contains(s, REDACTED)
  }

  /** Without brackets, only lying inside the marker is in the way. */
  lemma BracketFreeRedactable(s: Bytes)
    requires s != [] && BracketFree(s)
    ensures Redactable(s) <==> !Contains(REDACTED, s)
  {
    hide Contains;
    forall j | 0 < j < |s| ensures !EndsWith(REDACTED, s[..j]) && !(s[j..] <= REDACTED) {
      assert s[..j][j - 1] in s && s[j..][0] in s;
    }
    WholeMarker(s);
  }

  lemma WholeMarker(s: Bytes)
    requires OPEN !in s
    ensures !Contains(s, REDACTED)
  {
    forall i ensures !OccursAt(REDACTED, s, i) {
      Covers(REDACTED, s, i, i);
      MarkerOpens(s, i);
    }
  }

  lemma MarkerOpens(s: Bytes, i: int)
    ensures OccursAt(REDACTED, s, i) ==> s[i] == OPEN
  {
    if OccursAt(REDACTED, s, i) { assert s[i] == s[i..i + |REDACTED|][0]; }
  }

  /** `t` has the marker at `lo`. */
  predicate MarkerAt(t: Bytes, lo: nat) {
    lo + |REDACTED| <= |t| && t[lo..lo + |REDACTED|] == REDACTED
  }

  lemma MarkerInside(t: Bytes, x: Bytes, i: nat, lo: nat)
    requires OccursAt(x, t, i) && MarkerAt(t, lo) && i <= lo && lo + |REDACTED| <= i + |x|
    ensures Contains(x, REDACTED)
  {
    OccursInSlice(REDACTED, t, i, i + |x|, lo - i);
    assert OccursAt(REDACTED, x, lo - i);
  }

  lemma InsideMarker(t: Bytes, x: Bytes, i: nat, lo: nat)
    requires OccursAt(x, t, i) && MarkerAt(t, lo) && lo <= i && i + |x| <= lo + |REDACTED|
    ensures Contains(REDACTED, x)
  {
    OccursInSlice(x, t, lo, lo + |REDACTED|, i - lo);
    assert OccursAt(x, REDACTED, i - lo);
  }

  lemma BackInMarker(t: Bytes, x: Bytes, i: nat, lo: nat)
    requires OccursAt(x, t, i) && MarkerAt(t, lo) && i < lo < i + |x| < lo + |REDACTED|
    ensures x[lo - i..] <= REDACTED
  {
    var n := i + |x| - lo;
    assert x[lo - i..] == t[lo..i + |x|] == t[lo..lo + |REDACTED|][..n];
  }

  lemma FrontInMarker(t: Bytes, x: Bytes, i: nat, lo: nat)
    requires OccursAt(x, t, i) && MarkerAt(t, lo) && lo < i < lo + |REDACTED| < i + |x|
    ensures EndsWith(REDACTED, x[..lo + |REDACTED| - i])
  {
    assert x[..lo + |REDACTED| - i] == t[i..lo + |REDACTED|] == t[lo..lo + |REDACTED|][i - lo..];
  }

  /** An occurrence lies in front of the marker or behind it. */
  lemma NotAcross(t: Bytes, lo: nat, x: Bytes, i: nat)
    requires Redactable(x) && OccursAt(x, t, i) && MarkerAt(t, lo)
    ensures i + |x| <= lo || i >= lo + |REDACTED|
  {
    hide OccursAt, MarkerAt, Contains, EndsWith;
    var hi := lo + |REDACTED|;
    if lo < i + |x| && i < hi {
      if i <= lo && hi <= i + |x| {
        MarkerInside(t, x, i, lo);
      } else if lo <= i && i + |x| <= hi {
        InsideMarker(t, x, i, lo);
      } else if i < lo {
        BackInMarker(t, x, i, lo);
      } else {
        FrontInMarker(t, x, i, lo);
      }
    }
  }

  /** A redactable word cannot straddle a marker. */
  lemma NoStraddle(a: Bytes, b: Bytes, x: Bytes)
    requires Redactable(x) && !Contains(a, x) && !Contains(b, x)
    ensures !Contains(a + REDACTED + b, x)
  {
    hide Redactable, Apart;
    var t := a + REDACTED + b;
    var lo, hi := |a|, |a| + |REDACTED|;
    assert t[0..lo] == a && t[lo..hi] == REDACTED && t[hi..|t|] == b;
    forall i ensures !OccursAt(x, t, i) {
      if 0 <= i <= |t| - |x| && OccursAt(x, t, i) {
        NotAcross(t, lo, x, i);
      }
      assert !OccursAt(x, a, i) && !OccursAt(x, b, i - hi);
      OccursInSlice(x, t, 0, lo, i);
      OccursInSlice(x, t, hi, |t|, i - hi);
    }
  }

  /** An occurrence that covers an index has the byte found there. */
  lemma Covers(x: Bytes, t: Bytes, i: int, k: int)
    ensures OccursAt(x, t, i) && i <= k < i + |x| ==> t[k] in x
  {
    if OccursAt(x, t, i) && i <= k < i + |x| {
      assert t[k] == t[i..i + |x|][k - i];
    }
  }

  lemma NothingShort(t: Bytes, s: Bytes)
    requires |t| < |s|
    ensures Replace(t, s, REDACTED) == t
  {
  }

  lemma ReplaceStep(t: Bytes, s: Bytes, r: Bytes)
    requires s != [] && t != [] && !(s <= t)
    ensures Replace(t, s, r) == [t[0]] + Replace(t[1..], s, r) && Count(t, s) == Count(t[1..], s)
  {
    assert [t[0]] + t[1..] == t;
  }

  lemma ReplaceHead(t: Bytes, s: Bytes, r: Bytes)
    requires s != [] && s <= t
    ensures Replace(t, s, r) == r + Replace(t[|s|..], s, r)
  {
  }

  /** Replacing any secret keeps a text free of `x`; `done` is output already produced. */
  lemma {:induction false} ReplaceKeepsAbsence(done: Bytes, t: Bytes, s: Bytes, x: Bytes)
    requires s != [] && Redactable(x) && !Contains(done + t, x)
    ensures !Contains(done + Replace(t, s, REDACTED), x)
    decreases |t|
  {
    hide Replace, Contains, OccursAt, Redactable;
    if |t| < |s| {
      NothingShort(t, s);
    } else if s <= t {
      var rest := t[|s|..];
      var out := Replace(rest, s, REDACTED);
      ReplaceHead(t, s, REDACTED);
      assert done + t == done + s + rest;
      Parts(done, s, rest, x);
      assert [] + rest == rest && [] + out == out;
      ReplaceKeepsAbsence([], rest, s, x);
      NoStraddle(done, out, x);
      assert done + (REDACTED + out) == done + REDACTED + out;
    } else {
      ReplaceStep(t, s, REDACTED);
      assert done + t == (done + [t[0]]) + t[1..];
      ReplaceKeepsAbsence(done + [t[0]], t[1..], s, x);
      assert done + Replace(t, s, REDACTED) == (done + [t[0]]) + Replace(t[1..], s, REDACTED);
    }
  }

  /** Nor do the parts of a text contain what it does not. */
  lemma Parts(a: Bytes, b: Bytes, c: Bytes, x: Bytes)
    requires !Contains(a + b + c, x)
    ensures !Contains(a, x) && !Contains(c, x)
  {
    hide Contains;
    var t := a + b + c;
    assert t[0..|a|] == a && t[|a + b|..|t|] == c;
    SliceContains(x, t, 0, |a|);
    SliceContains(x, t, |a + b|, |t|);
  }

  lemma NoneInside(done: Bytes, t: Bytes, s: Bytes)
    requires s != [] && forall i :: 0 <= i < |done| ==> !OccursAt(s, done + t, i)
    ensures !Contains(done, s)
  {
    forall i ensures !OccursAt(s, done, i) {
      assert (done + t)[0..|done|] == done;
      OccursInSlice(s, done + t, 0, |done|, i);
    }
  }

  /** The scan leaves no occurrence of its own secret; `done` holds no start of one. */
  lemma {:induction false} ReplaceRemoves(done: Bytes, t: Bytes, s: Bytes)
    requires Redactable(s)
    requires forall i :: 0 <= i < |done| ==> !OccursAt(s, done + t, i)
    ensures !Contains(done + Replace(t, s, REDACTED), s)
    decreases |t|
  {
    hide Replace, OccursAt, BracketFree;
    if |t| < |s| {
      NothingShort(t, s);
      forall i ensures !OccursAt(s, done + t, i) {
        if i >= |done| { TooShort(s, done, t, i); } else { BeforeStart(s, done + t, i); }
      }
    } else if s <= t {
      var rest := t[|s|..];
      var out := Replace(rest, s, REDACTED);
      ReplaceHead(t, s, REDACTED);
      assert [] + rest == rest && [] + out == out;
      ReplaceRemoves([], rest, s);
      NoneInside(done, t, s);
      NoStraddle(done, out, s);
      assert done + (REDACTED + out) == done + REDACTED + out;
    } else {
      ReplaceStep(t, s, REDACTED);
      assert done + t == (done + [t[0]]) + t[1..];
      NotHere(s, done, t);
      ReplaceRemoves(done + [t[0]], t[1..], s);
      assert done + Replace(t, s, REDACTED) == (done + [t[0]]) + Replace(t[1..], s, REDACTED);
    }
  }

  lemma TooShort(s: Bytes, done: Bytes, t: Bytes, i: int)
    requires |t| < |s| && i >= |done|
    ensures !OccursAt(s, done + t, i)
  {
  }

  lemma BeforeStart(s: Bytes, t: Bytes, i: int)
    ensures i < 0 ==> !OccursAt(s, t, i)
  {
  }

  lemma NotHere(s: Bytes, done: Bytes, t: Bytes)
    requires s != [] && !(s <= t)
    ensures !OccursAt(s, done + t, |done|)
  {
    if |s| <= |t| { assert (done + t)[|done|..|done| + |s|] == t[..|s|]; }
  }

  /** Once a text is free of `x`, redacting further secrets keeps it so. */
  lemma {:induction false} RedactAllKeepsAbsence(t: Bytes, secrets: seq<Bytes>, x: Bytes)
    requires Redactable(x) && !Contains(t, x)
    ensures !Contains(RedactAll(t, secrets), x)
    decreases |secrets|
  {
    if secrets != [] {
      if secrets[0] == [] {
        RedactAllKeepsAbsence(t, secrets[1..], x);
      } else {
        var t' := Replace(t, secrets[0], REDACTED);
        assert [] + t == t && [] + t' == t';
        ReplaceKeepsAbsence([], t, secrets[0], x);
        RedactAllKeepsAbsence(t', secrets[1..], x);
      }
    }
  }

  /** Whatever else is in the list and in whatever order, a redactable secret does not survive. */
  lemma {:induction false} SecretAbsent(t: Bytes, secrets: seq<Bytes>, x: Bytes)
    requires Redactable(x) && x in secrets
    ensures !Contains(RedactAll(t, secrets), x)
    decreases |secrets|
  {
    if secrets[0] == x {
      var t' := Replace(t, x, REDACTED);
      assert [] + t == t && [] + t' == t';
      ReplaceRemoves([], t, x);
      RedactAllKeepsAbsence(t', secrets[1..], x);
    } else {
      SecretAbsent(if secrets[0] == [] then t else Replace(t, secrets[0], REDACTED), secrets[1..], x);
    }
  }

  /** Cutting the redacted text, at a character boundary or anywhere, brings no secret back. */
  lemma SecretAbsentAfterCut(t: Bytes, secrets: seq<Bytes>, x: Bytes, n: nat)
    requires Redactable(x) && x in secrets
    ensures !Contains(Truncate(RedactAll(t, secrets), n), x)
  {
    var full := RedactAll(t, secrets);
    var cut := Truncate(full, n);
    SecretAbsent(t, secrets, x);
    SliceContains(x, full, 0, |cut|);
    assert full[0..|cut|] == cut;
  }

  lemma MarkerAlone(s: Bytes)
    requires s != []
    ensures Replace(s, s, REDACTED) == REDACTED
  {
    assert s[|s|..] == [];
    assert REDACTED + [] == REDACTED;
  }

  /** Among bracket-free secrets, the redactable ones are exactly those the scan always removes. */
  lemma RedactableExactly(s: Bytes)
    requires s != [] && BracketFree(s)
    ensures Redactable(s) <==> forall t :: !Contains(Replace(t, s, REDACTED), s)
  {
    BracketFreeRedactable(s);
    hide Redactable, BracketFree;
    if Redactable(s) {
      forall t: Bytes ensures !Contains(Replace(t, s, REDACTED), s) {
        assert [] + t == t && [] + Replace(t, s, REDACTED) == Replace(t, s, REDACTED);
        ReplaceRemoves([], t, s);
      }
    } else {
      MarkerAlone(s);
      hide Contains, Replace;
      assert Contains(Replace(s, s, REDACTED), s);
    }
  }

  /** Nothing but occurrences of the secret is touched: putting it back restores the text. */
  lemma {:induction false} ReplaceRestores(t: Bytes, s: Bytes)
    requires s != [] && OPEN !in t
    ensures Replace(Replace(t, s, REDACTED), REDACTED, s) == t
    decreases |t|
  {
    var out := Replace(t, s, REDACTED);
    if |t| < |s| {
      NothingToReplace(t, REDACTED, s);
    } else if s <= t {
      ReplaceRestores(t[|s|..], s);
      assert out[|REDACTED|..] == Replace(t[|s|..], s, REDACTED);
      assert t == s + t[|s|..];
    } else {
      ReplaceRestores(t[1..], s);
      assert out[0] == t[0] && out[1..] == Replace(t[1..], s, REDACTED);
      assert !(REDACTED <= out);
      assert t == [t[0]] + t[1..];
    }
  }

  lemma {:induction false} NothingToReplace(t: Bytes, s: Bytes, r: Bytes)
    requires s != [] && s[0] !in t
    ensures Replace(t, s, r) == t
    decreases |t|
  {
    if |t| >= |s| {
      assert t[0] in t && !(s <= t);
      NothingToReplace(t[1..], s, r);
    }
  }
}
