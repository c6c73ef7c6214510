/**
 The HTTP response path: a bounded read with an overlap, lossy decoding, redaction, then a cut.
 Proved: how far the bounded result agrees with redacting the entire body first.
 */
module ResponseBody {
  import opened Bytes
  import opened Utf8
  import opened Redact
  import opened BoundedRead

  /** Greatest value of a 64-bit `usize`, where `saturating_add` stops. */
  const USIZE_MAX: nat := 0xFFFF_FFFF_FFFF_FFFF

  datatype Derived = NoToken | Token(value: Bytes)

  function Redactions(secret: Bytes, derived: Derived): seq<Bytes> {
    match derived
    case NoToken => [secret]
    case Token(value) => [secret, value]
  }

  function ReadLimit(secret: Bytes, derived: Derived, max: nat): nat {
    var overlap: nat := match derived
      case NoToken => |secret|
      case Token(value) => if |value| > |secret| then |value| else |secret|;
    Min(max + overlap, USIZE_MAX)
  }

  /** The text before the final cut, when `limit` bytes of `stream` are read. */
  function Redacted(stream: Bytes, secrets: seq<Bytes>, limit: nat): Bytes {
    RedactAll(Lossy(Take(stream, limit)), secrets)
  }

  /** What a caller would see if the entire body were redacted before the cut. */
  function Ideal(stream: Bytes, secrets: seq<Bytes>, max: nat): Bytes {
    Truncate(RedactAll(Lossy(stream), secrets), max)
  }

  /** `String::truncate` at a boundary found by stepping back. */
  method CutBody(text: Bytes, max: nat) returns (body: Bytes, cut: bool)
    requires WellFormed(text)
    ensures body == Truncate(text, max)
    ensures cut <==> |text| > max
    ensures WellFormed(body)
    ensures cut ==> max - |body| <= 3 && forall e :: |body| < e <= max ==> !WellFormed(text[..e])
  {
    TruncateLongest(text, max);
    body, cut := text, false;
    if |body| > max {
      var end := max;
      while !IsBoundary(body, end)
        invariant 0 <= end <= max
        invariant forall i :: end < i <= max ==> !IsBoundary(body, i)
        decreases end
      {
        end := end - 1;
      }
      BoundaryUnique(text, max, end);
      body := body[..end];
      cut := true;
    }
  }

  lemma RedactAllWellFormed(t: Bytes, secrets: seq<Bytes>)
    requires WellFormed(t) && forall i :: 0 <= i < |secrets| ==> WellFormed(secrets[i])
    ensures WellFormed(RedactAll(t, secrets))
    decreases |secrets|
  {
    if secrets != [] && secrets[0] != [] {
      ReplaceWellFormed(t, secrets[0]);
    }
  }

  /** The body the broker returns for one secret. */
  function Shown(stream: Bytes, s: Bytes, max: nat): Bytes {
    Truncate(Redacted(stream, [s], ReadLimit(s, NoToken, max)), max)
  }

  /** The body and flag the broker returns for a response delivered in `chunks`. */
  method RenderBody(chunks: seq<Bytes>, secret: Bytes, derived: Derived, max: nat)
    returns (body: Bytes, truncated: bool)
    requires WellFormed(secret) && (derived.Token? ==> WellFormed(derived.value))
    ensures var secrets: seq<Bytes> := if derived.Token? then [secret, derived.value] else [secret];
            var overlap := if derived.Token? && |derived.value| > |secret| then |derived.value| else |secret|;
            var limit := Min(max + overlap, USIZE_MAX);
            var stream := Flatten(chunks);
            && body == Truncate(Redacted(stream, secrets, limit), max)
            && (truncated <==> |stream| > limit || |Redacted(stream, secrets, limit)| > max)
            && (!truncated ==> body == RedactAll(Lossy(stream), secrets))
    ensures WellFormed(body) && |body| <= max
    ensures Redactable(secret) ==> !Contains(body, secret)
    ensures derived.Token? && Redactable(derived.value) ==> !Contains(body, derived.value)
    ensures derived.NoToken? ==> body == Shown(Flatten(chunks), secret, max)
  {
    hide Lossy, RedactAll, Truncate, WellFormed, Contains, Redactable, Flatten;
    var redactions := Redactions(secret, derived);
    var readLimit := ReadLimit(secret, derived, max);
    var bytes, short := ReadChunks(chunks, readLimit);
    var rawBody := Lossy(bytes);
    var text := RedactText(rawBody, redactions);
    LossyWellFormed(bytes);
    RedactAllWellFormed(rawBody, redactions);
    var cut;
    body, cut := CutBody(text, max);
    truncated := short || cut;
    SecretsHidden(rawBody, secret, derived, max);
    if !cut { TruncateWhole(text, max); }
    assert !short ==> Take(Flatten(chunks), readLimit) == Flatten(chunks);
  }

  lemma SecretsHidden(raw: Bytes, secret: Bytes, derived: Derived, max: nat)
    ensures var body := Truncate(RedactAll(raw, Redactions(secret, derived)), max);
            && (Redactable(secret) ==> !Contains(body, secret))
            && (derived.Token? && Redactable(derived.value) ==> !Contains(body, derived.value))
  {
    hide RedactAll, Truncate, Contains, Redactable;
    var redactions := Redactions(secret, derived);
    assert redactions[0] == secret && (derived.Token? ==> redactions[1] == derived.value);
    if Redactable(secret) {
      SecretAbsentAfterCut(raw, redactions, secret, max);
    }
    if derived.Token? && Redactable(derived.value) {
      SecretAbsentAfterCut(raw, redactions, derived.value, max);
    }
  }

  // ----- replacement moves by whole characters -----

  lemma {:induction false} ReplaceSkip(t: Bytes, s: Bytes, r: Bytes, c: nat)
    requires s != [] && c <= |t| && forall i :: 0 <= i < c ==> !OccursAt(s, t, i)
    ensures Replace(t, s, r) == t[..c] + Replace(t[c..], s, r)
    ensures Count(t, s) == Count(t[c..], s)
    decreases c
  {
    hide OccursAt, Replace, Count;
    if c == 0 {
      assert t[0..] == t && t[..0] == [];
    } else {
      PrefixOccurs(s, t);
      ReplaceStep(t, s, r);
      forall i | 0 <= i < c - 1 ensures !OccursAt(s, t[1..], i) {
        OccursInTail(s, t, i);
      }
      ReplaceSkip(t[1..], s, r, c - 1);
      assert t[1..][c - 1..] == t[c..];
      assert t[..c] == [t[0]] + t[1..][..c - 1];
    }
  }

  /** A well-formed secret can only start where a character starts. */
  lemma OccursAtChar(t: Bytes, s: Bytes, i: int)
    requires WellFormed(s) && s != [] && 0 <= i < |t| && Continuation(t[i])
    ensures !OccursAt(s, t, i)
  {
    HeadNotContinuation(s);
  }

  lemma ReplaceChar(t: Bytes, s: Bytes, r: Bytes)
    requires WellFormed(t) && WellFormed(s) && s != [] && t != [] && !(s <= t)
    ensures Replace(t, s, r) == t[..CharLen(t)] + Replace(t[CharLen(t)..], s, r)
    ensures Count(t, s) == Count(t[CharLen(t)..], s)
  {
    CharShape(t);
    forall i | 0 <= i < CharLen(t) ensures !OccursAt(s, t, i) {
      if i > 0 { OccursAtChar(t, s, i); }
    }
    ReplaceSkip(t, s, r, CharLen(t));
  }

  lemma {:induction false} ReplaceWellFormed(t: Bytes, s: Bytes)
    requires WellFormed(t) && WellFormed(s) && s != []
    ensures WellFormed(Replace(t, s, REDACTED))
    decreases |t|
  {
    hide CharLen;
    if t != [] {
      if s <= t {
        var rest := t[|s|..];
        assert t == s + rest;
        WellFormedRest(s, rest);
        ReplaceWellFormed(rest, s);
        MarkerWellFormed();
        WellFormedConcat(REDACTED, Replace(rest, s, REDACTED));
      } else {
        var c := CharLen(t);
        ReplaceChar(t, s, REDACTED);
        ReplaceWellFormed(t[c..], s);
        CharAlone(t);
        WellFormedConcat(t[..c], Replace(t[c..], s, REDACTED));
      }
    }
  }

  predicate Ascii(t: Bytes) {
    forall i :: 0 <= i < |t| ==> t[i] < 0x80
  }

  lemma {:induction false} AsciiWellFormed(t: Bytes)
    requires Ascii(t)
    ensures WellFormed(t)
    decreases |t|
  {
    if t != [] {
      AsciiWellFormed(t[1..]);
    }
  }

  lemma MarkerWellFormed()
    ensures WellFormed(REDACTED)
  {
    hide WellFormed;
    AsciiWellFormed(REDACTED);
  }

  lemma {:induction false} BoundaryRest(t: Bytes, i: nat)
    requires WellFormed(t) && i <= |t| && IsBoundary(t, i)
    ensures WellFormed(t[i..])
    decreases |t|
  {
    hide WellFormed, CharLen, Continuation;
    if i == 0 {
      assert t[0..] == t;
    } else if i == |t| {
      assert t[i..] == [];
      WellFormedEmpty();
    } else {
      FirstChar(t);
      var c, rest := CharLen(t), t[CharLen(t)..];
      assert i >= c;
      assert rest[i - c] == t[i];
      BoundaryRest(rest, i - c);
      assert rest[i - c..] == t[i..];
    }
  }

  /** An occurrence of a well-formed secret also ends where a character ends. */
  lemma OccurrenceEnds(t: Bytes, s: Bytes, i: nat)
    requires WellFormed(t) && WellFormed(s) && s != [] && OccursAt(s, t, i)
    ensures IsBoundary(t, i + |s|)
  {
    HeadNotContinuation(s);
    assert t[i] == t[i..i + |s|][0];
    BoundaryRest(t, i);
    var rest := t[i + |s|..];
    assert t[i..] == s + rest;
    WellFormedRest(s, rest);
    if rest != [] { HeadNotContinuation(rest); }
  }

  // ----- two texts that share a beginning -----

  /** Occurrences in `t` lie inside its first `n` bytes or start at `limit` or later. */
  ghost predicate CrossLate(t: Bytes, n: nat, s: Bytes, limit: int) {
    forall i :: OccursAt(s, t, i) ==> i + |s| <= n || i >= limit
  }

  /** `u + x` and `u + y` look alike to a scan for `s` until position `limit`. */
  ghost predicate Diverging(u: Bytes, x: Bytes, y: Bytes, s: Bytes, limit: int) {
    && WellFormed(u) && WellFormed(x) && WellFormed(y)
    && CrossLate(u + x, |u|, s, limit) && CrossLate(u + y, |u|, s, limit)
    && (|u| < limit ==> x != [] && y != [] && |u| + CharLen(x) > limit && |u| + CharLen(y) > limit)
  }

  /** Bytes by which one replacement of a secret longer than the marker shortens the text. */
  function Excess(s: Bytes): nat {
    if |s| > |REDACTED| then |s| - |REDACTED| else 0
  }

  /** After `k` replacements, the first `n` bytes of output come from before `limit` in the text. */
  predicate Within(k: nat, s: Bytes, limit: int, n: nat) {
    n <= limit - k * Excess(s) || n <= |REDACTED| * k
  }

  lemma CrossLateDrop(t: Bytes, n: nat, s: Bytes, limit: int, c: nat)
    requires CrossLate(t, n, s, limit) && c <= n <= |t|
    ensures CrossLate(t[c..], n - c, s, limit - c)
  {
    forall i | OccursAt(s, t[c..], i) ensures i + |s| <= n - c || i >= limit - c {
      OccursInSlice(s, t, c, |t|, i);
    }
  }

  /** The shared beginning may be shortened by any well-formed prefix of it. */
  lemma DivergingDrop(u: Bytes, x: Bytes, y: Bytes, s: Bytes, limit: int, c: nat)
    requires Diverging(u, x, y, s, limit) && c <= |u| && WellFormed(u[c..])
    ensures Diverging(u[c..], x, y, s, limit - c)
    ensures (u + x)[c..] == u[c..] + x && (u + y)[c..] == u[c..] + y
  {
    assert (u + x)[c..] == u[c..] + x && (u + y)[c..] == u[c..] + y;
    CrossLateDrop(u + x, |u|, s, limit, c);
    CrossLateDrop(u + y, |u|, s, limit, c);
  }

  /**
   Redacting `u + x` or `u + y` gives the same text up to `n` bytes, as long as `n` stays below
   `limit` less what the replacements inside `u` removed, or within the markers they produced.
   */
  lemma {:induction false} Agree(u: Bytes, x: Bytes, y: Bytes, s: Bytes, limit: int, n: nat)
    requires WellFormed(s) && s != [] && Diverging(u, x, y, s, limit)
    requires Within(Count(u, s), s, limit, n)
    ensures Truncate(Replace(u + x, s, REDACTED), n) == Truncate(Replace(u + y, s, REDACTED), n)
    decreases |u|, 1
  {
    hide CharLen, Truncate, Replace;
    if n == 0 {
      CutNothing(u, x, y, s);
    } else if u == [] {
      NoMatchAtStart(u, x, y, s, limit, n);
      assert u + x == x && u + y == y;
      AgreeAtSplit(x, y, s, n);
    } else if s <= u {
      AgreeMatch(u, x, y, s, limit, n);
    } else {
      AgreeChar(u, x, y, s, limit, n);
    }
  }

  lemma CutNothing(u: Bytes, x: Bytes, y: Bytes, s: Bytes)
    requires s != []
    ensures Truncate(Replace(u + x, s, REDACTED), 0) == Truncate(Replace(u + y, s, REDACTED), 0)
  {
  }

  /** Nothing shared is left and both next characters exceed the cut. */
  lemma AgreeAtSplit(x: Bytes, y: Bytes, s: Bytes, n: nat)
    requires WellFormed(s) && s != [] && WellFormed(x) && WellFormed(y) && x != [] && y != []
    requires CharLen(x) > n > 0 && CharLen(y) > n && !(s <= x) && !(s <= y)
    ensures Truncate(Replace(x, s, REDACTED), n) == Truncate(Replace(y, s, REDACTED), n)
  {
    hide CharLen;
    ReplaceFirst(x, s, n);
    ReplaceFirst(y, s, n);
  }

  lemma ReplaceFirst(x: Bytes, s: Bytes, n: nat)
    requires WellFormed(s) && s != [] && WellFormed(x) && x != [] && CharLen(x) > n && !(s <= x)
    ensures Truncate(Replace(x, s, REDACTED), n) == []
  {
    hide CharLen, Truncate, Replace;
    var c := CharLen(x);
    ReplaceWellFormed(x, s);
    ReplaceChar(x, s, REDACTED);
    CharAlone(x);
    CharLenExtend(x[..c], Replace(x[c..], s, REDACTED));
    TruncateHead(Replace(x, s, REDACTED), n);
  }

  /** Two redacted texts with the same whole characters in front are cut alike. */
  lemma CutAlike(head: Bytes, a: Bytes, b: Bytes, n: nat)
    requires WellFormed(head) && WellFormed(a) && WellFormed(b)
    requires n > |head| ==> Truncate(a, n - |head|) == Truncate(b, n - |head|)
    ensures Truncate(head + a, n) == Truncate(head + b, n)
  {
    hide *;
    if n <= |head| {
      TruncateIgnoresRest(head, a, n);
      TruncateIgnoresRest(head, b, n);
    } else {
      TruncateConcat(head, a, n);
      TruncateConcat(head, b, n);
    }
  }

  lemma CutMarker(a: Bytes, b: Bytes, n: nat)
    requires WellFormed(a) && WellFormed(b)
    requires n > |REDACTED| ==> Truncate(a, n - |REDACTED|) == Truncate(b, n - |REDACTED|)
    ensures Truncate(REDACTED + a, n) == Truncate(REDACTED + b, n)
  {
    hide *;
    MarkerWellFormed();
    CutAlike(REDACTED, a, b, n);
  }

  lemma ReplaceConcatWellFormed(a: Bytes, b: Bytes, s: Bytes)
    requires WellFormed(a) && WellFormed(b) && WellFormed(s) && s != []
    ensures WellFormed(Replace(a + b, s, REDACTED))
  {
    hide *;
    WellFormedConcat(a, b);
    ReplaceWellFormed(a + b, s);
  }

  lemma ReplaceMatch(s: Bytes, rest: Bytes, x: Bytes)
    requires s != []
    ensures Replace(s + rest + x, s, REDACTED) == REDACTED + Replace(rest + x, s, REDACTED)
    ensures Count(s + rest, s) == 1 + Count(rest, s)
  {
    assert (s + rest + x)[|s|..] == rest + x;
    assert (s + rest)[|s|..] == rest;
  }

  lemma AgreeMatch(u: Bytes, x: Bytes, y: Bytes, s: Bytes, limit: int, n: nat)
    requires WellFormed(s) && s != [] && Diverging(u, x, y, s, limit) && s <= u
    requires Within(Count(u, s), s, limit, n)
    ensures Truncate(Replace(u + x, s, REDACTED), n) == Truncate(Replace(u + y, s, REDACTED), n)
    decreases |u|, 0
  {
    hide *;
    var rest := u[|s|..];
    MatchStep(u, rest, x, y, s, limit);
    hide *;
    if n > |REDACTED| {
      StillWithin(Count(rest, s), s, limit, n);
      Agree(rest, x, y, s, limit - |s|, n - |REDACTED|);
    }
    CutMarker(Replace(rest + x, s, REDACTED), Replace(rest + y, s, REDACTED), n);
  }

  lemma MatchStep(u: Bytes, rest: Bytes, x: Bytes, y: Bytes, s: Bytes, limit: int)
    requires WellFormed(s) && s != [] && Diverging(u, x, y, s, limit) && s <= u && rest == u[|s|..]
    ensures Diverging(rest, x, y, s, limit - |s|) && Count(u, s) == 1 + Count(rest, s)
    ensures Replace(u + x, s, REDACTED) == REDACTED + Replace(rest + x, s, REDACTED)
    ensures Replace(u + y, s, REDACTED) == REDACTED + Replace(rest + y, s, REDACTED)
    ensures WellFormed(Replace(rest + x, s, REDACTED)) && WellFormed(Replace(rest + y, s, REDACTED))
  {
    assert WellFormed(u) && WellFormed(x) && WellFormed(y);
    hide *;
    assert u == s + rest;
    WellFormedRest(s, rest);
    DivergingDrop(u, x, y, s, limit, |s|);
    ReplaceMatch(s, rest, x);
    ReplaceMatch(s, rest, y);
    ReplaceConcatWellFormed(rest, x, s);
    ReplaceConcatWellFormed(rest, y, s);
  }

  /** One replacement uses up one share of the bound. */
  lemma StillWithin(k: nat, s: Bytes, limit: int, n: nat)
    requires n > |REDACTED| && Within(1 + k, s, limit, n)
    ensures Within(k, s, limit - |s|, n - |REDACTED|)
  {
    assert (1 + k) * Excess(s) == Excess(s) + k * Excess(s);
  }

  lemma WithinLess(k: nat, s: Bytes, limit: int, n: nat, c: nat)
    requires c <= n && Within(k, s, limit, n)
    ensures Within(k, s, limit - c, n - c)
  {
  }

  lemma AgreeChar(u: Bytes, x: Bytes, y: Bytes, s: Bytes, limit: int, n: nat)
    requires WellFormed(s) && s != [] && Diverging(u, x, y, s, limit) && u != [] && !(s <= u) && n > 0
    requires Within(Count(u, s), s, limit, n)
    ensures Truncate(Replace(u + x, s, REDACTED), n) == Truncate(Replace(u + y, s, REDACTED), n)
    decreases |u|, 0
  {
    hide *;
    DivergingParts(u, x, y, s, limit);
    NoMatchAtStart(u, x, y, s, limit, n);
    HeadLen(u);
    var c := CharLen(u);
    var rest := u[c..];
    CharStep(u, rest, x, s);
    CharStep(u, rest, y, s);
    CharAlone(u);
    if n > c {
      AgreeRest(u, rest, x, y, s, limit, n);
    }
    CutAlike(u[..c], Replace(rest + x, s, REDACTED), Replace(rest + y, s, REDACTED), n);
  }

  lemma AgreeRest(u: Bytes, rest: Bytes, x: Bytes, y: Bytes, s: Bytes, limit: int, n: nat)
    requires WellFormed(s) && s != [] && Diverging(u, x, y, s, limit) && u != [] && !(s <= u)
    requires Within(Count(u, s), s, limit, n) && 0 < CharLen(u) <= n && rest == u[CharLen(u)..]
    ensures Truncate(Replace(rest + x, s, REDACTED), n - CharLen(u)) == Truncate(Replace(rest + y, s, REDACTED), n - CharLen(u))
    decreases |rest|, 2
  {
    hide *;
    DivergingParts(u, x, y, s, limit);
    ReplaceChar(u, s, REDACTED);
    DivergingDrop(u, x, y, s, limit, CharLen(u));
    WithinLess(Count(rest, s), s, limit, n, CharLen(u));
    Agree(rest, x, y, s, limit - CharLen(u), n - CharLen(u));
  }

  lemma DivergingParts(u: Bytes, x: Bytes, y: Bytes, s: Bytes, limit: int)
    requires Diverging(u, x, y, s, limit)
    ensures WellFormed(u) && WellFormed(x) && WellFormed(y)
    ensures u != [] ==> WellFormed(u[CharLen(u)..])
  {
  }

  lemma CharStep(u: Bytes, rest: Bytes, x: Bytes, s: Bytes)
    requires WellFormed(s) && s != [] && WellFormed(u) && WellFormed(x) && u != []
    requires !(s <= u + x) && rest == u[CharLen(u)..] && WellFormed(rest)
    ensures Replace(u + x, s, REDACTED) == u[..CharLen(u)] + Replace(rest + x, s, REDACTED)
    ensures WellFormed(Replace(rest + x, s, REDACTED))
  {
    hide *;
    CharHead(u, x, s);
    ReplaceConcatWellFormed(rest, x, s);
  }

  lemma NoMatchAtStart(u: Bytes, x: Bytes, y: Bytes, s: Bytes, limit: int, n: nat)
    requires s != [] && Diverging(u, x, y, s, limit) && !(s <= u) && n > 0
    requires Within(Count(u, s), s, limit, n)
    ensures !(s <= u + x) && !(s <= u + y)
  {
    hide CharLen;
    if |u| < |s| {
      assert limit > 0;
      assert !OccursAt(s, u + x, 0) && !OccursAt(s, u + y, 0);
      assert (u + x)[0..|u + x|] == u + x && (u + y)[0..|u + y|] == u + y;
    }
  }

  lemma HeadLen(u: Bytes)
    requires WellFormed(u) && u != []
    ensures 0 < CharLen(u) <= |u|
  {
  }

  lemma CharHead(u: Bytes, x: Bytes, s: Bytes)
    requires WellFormed(u) && WellFormed(x) && WellFormed(s) && s != [] && u != [] && !(s <= u + x)
    ensures Replace(u + x, s, REDACTED) == u[..CharLen(u)] + Replace(u[CharLen(u)..] + x, s, REDACTED)
  {
    hide *;
    var c := CharLen(u);
    WellFormedConcat(u, x);
    HeadLen(u);
    CharLenExtend(u, x);
    ReplaceChar(u + x, s, REDACTED);
    assert (u + x)[..c] == u[..c] && (u + x)[c..] == u[c..] + x;
  }

  // ----- the bounded read against the whole body -----

  /** A text and any longer one: matches that are cut off start within the last |s| - 1 bytes. */
  lemma SharedPrefix(u: Bytes, y: Bytes, s: Bytes, limit: int)
    requires WellFormed(u) && WellFormed(y) && s != [] && |u| >= limit + |s| - 1
    ensures Diverging(u, [], y, s, limit)
  {
  }

  /** A match in `u + x` that leaves `u` takes the whole first character of `x`. */
  lemma CrossingTakesChar(u: Bytes, x: Bytes, s: Bytes, i: int)
    requires WellFormed(u) && WellFormed(x) && WellFormed(s) && s != [] && x != []
    requires OccursAt(s, u + x, i) && i + |s| > |u|
    ensures i + |s| >= |u| + CharLen(x)
  {
    hide *;
    WellFormedConcat(u, x);
    EndsOutside(u, x, s, i);
    OccurrenceEnds(u + x, s, i);
    HeadLen(x);
    CharShape(x);
    CharInside(u, x, i + |s|);
  }

  lemma EndsOutside(u: Bytes, x: Bytes, s: Bytes, i: int)
    requires OccursAt(s, u + x, i)
    ensures 0 <= i && i + |s| <= |u + x|
  {
  }

  /** A boundary behind `u` is not inside the first character of `x`. */
  lemma CharInside(u: Bytes, x: Bytes, end: nat)
    requires |u| < end <= |u + x| && IsBoundary(u + x, end)
    requires CharLen(x) <= |x| && forall i :: 0 < i < CharLen(x) ==> Continuation(x[i])
    ensures end >= |u| + CharLen(x)
  {
    hide CharLen;
    assert end < |u| + |x| ==> (u + x)[end] == x[end - |u|];
  }

  lemma CrossesLate(u: Bytes, x: Bytes, s: Bytes, limit: int)
    requires WellFormed(u) && WellFormed(x) && WellFormed(s) && s != [] && x != []
    requires |u| + CharLen(x) >= limit + |s|
    ensures CrossLate(u + x, |u|, s, limit)
  {
    forall i | OccursAt(s, u + x, i) && i + |s| > |u| ensures i >= limit {
      CrossingTakesChar(u, x, s, i);
    }
  }

  /** An ASCII secret cannot reach into a multi-byte character. */
  lemma AsciiStaysInside(u: Bytes, x: Bytes, s: Bytes)
    requires x != [] && CharLen(x) > 1 && s != [] && Ascii(s)
    ensures CrossLate(u + x, |u|, s, |u|)
  {
    forall i | OccursAt(s, u + x, i) && i + |s| > |u| ensures i >= |u| {
      Covers(s, u + x, i, |u|);
    }
  }

  /** An unfinished character at the end of the bytes read, decoded as U+FFFD in one text only. */
  lemma SharedButOne(u: Bytes, y: Bytes, s: Bytes, max: nat, j: nat)
    requires WellFormed(u) && WellFormed(y) && WellFormed(s) && s != []
    requires 1 <= j <= 3 && y != [] && CharLen(y) > j && |u| + j >= max + |s|
    ensures Diverging(u, FFFD, y, s, max)
    ensures Ascii(s) && |s| > 3 ==> Diverging(u, FFFD, y, s, max + 1)
  {
    assert CharLen(FFFD) == 3;
    assert WellFormed(FFFD) by { assert FFFD[3..] == []; }
    CrossesLate(u, FFFD, s, max);
    CrossesLate(u, y, s, max);
    if Ascii(s) && |s| > 3 {
      AsciiStaysInside(u, FFFD, s);
      AsciiStaysInside(u, y, s);
    }
  }

  /** What the bytes read and the whole body decode to, split where they part. */
  lemma DivergesAtReadLimit(b: Bytes, c: Bytes, s: Bytes, max: nat)
    returns (u: Bytes, x: Bytes, y: Bytes)
    requires WellFormed(s) && s != [] && c != [] && |b| == max + |s|
    ensures Lossy(b) == u + x && Lossy(b + c) == u + y
    ensures Diverging(u, x, y, s, max) && |u| + 3 >= max + |s|
    ensures Ascii(s) && |s| > 3 ==> Diverging(u, x, y, s, max + 1)
  {
    hide *;
    var m := Settled(b);
    var tail := b[m..];
    u, x, y := Lossy(b[..m]), Lossy(tail), Lossy(tail + c);
    LossySplit(b, c);
    LossySplit(b, []);
    assert b + [] == b && tail + [] == tail;
    LossyWellFormed(b[..m]);
    LossyWellFormed(tail + c);
    if tail == [] {
      LossyIdentity([]);
      WellFormedEmpty();
      SharedPrefix(u, y, s, max);
      SharedPrefix(u, y, s, max + 1);
    } else {
      IncompleteThenMore(tail, c);
      if FFFD <= y {
        assert y == FFFD + y[3..] && u + y == (u + FFFD) + y[3..];
        LossyWellFormed(tail);
        WellFormedRest(FFFD, y[3..]);
        WellFormedConcat(u, FFFD);
        u, x, y := u + FFFD, [], y[3..];
        SharedPrefix(u, y, s, max);
        SharedPrefix(u, y, s, max + 1);
        assert u + x == u;
      } else {
        CharNonEmpty(y);
        SharedButOne(u, y, s, max, |tail|);
      }
    }
  }

  lemma WellFormedEmpty()
    ensures WellFormed([])
  {
  }

  lemma CharNonEmpty(y: Bytes)
    ensures CharLen(y) > 0 ==> y != []
  {
  }

  lemma {:induction false} CountPrefix(u: Bytes, x: Bytes, s: Bytes)
    requires s != []
    ensures Count(u, s) <= Count(u + x, s)
    decreases |u|
  {
    if |u| >= |s| {
      var c := if s <= u then |s| else 1;
      assert (u + x)[c..] == u[c..] + x;
      CountPrefix(u[c..], x, s);
    }
  }

  lemma RedactOne(t: Bytes, s: Bytes)
    requires s != []
    ensures RedactAll(t, [s]) == Replace(t, s, REDACTED)
  {
    assert [s][1..] == [];
  }

  /**
   One secret, whatever the body: the text redacted within the read limit and the entire body
   redacted show the same first `n` bytes, where each replacement made costs at most `Excess(s)`.
   */
  lemma BoundedAgrees(stream: Bytes, s: Bytes, max: nat, n: nat)
    requires WellFormed(s) && s != [] && max + |s| <= USIZE_MAX
    requires n <= max - Count(Lossy(Take(stream, max + |s|)), s) * Excess(s)
    ensures Truncate(Redacted(stream, [s], ReadLimit(s, NoToken, max)), n) == Ideal(stream, [s], n)
  {
    hide *;
    var b, k := Take(stream, max + |s|), Count(Lossy(Take(stream, max + |s|)), s);
    OneSecret(stream, s, max, n);
    if |stream| > max + |s| {
      assert stream == b + stream[|b|..];
      var u, x, y := DivergesAtReadLimit(b, stream[|b|..], s, max);
      CountPrefix(u, x, s);
      FewerReplacements(Count(u, s), k, s, max, n);
      Agree(u, x, y, s, max, n);
    }
  }

  lemma OneSecret(stream: Bytes, s: Bytes, max: nat, n: nat)
    requires s != [] && max + |s| <= USIZE_MAX
    ensures Redacted(stream, [s], ReadLimit(s, NoToken, max)) == Replace(Lossy(Take(stream, max + |s|)), s, REDACTED)
    ensures Ideal(stream, [s], n) == Truncate(Replace(Lossy(stream), s, REDACTED), n)
    ensures |stream| <= max + |s| ==> Take(stream, max + |s|) == stream
  {
    RedactOne(Lossy(Take(stream, max + |s|)), s);
    RedactOne(Lossy(stream), s);
  }

  lemma FewerReplacements(fewer: nat, k: nat, s: Bytes, limit: int, n: nat)
    requires fewer <= k && n <= limit - k * Excess(s)
    ensures Within(fewer, s, limit, n)
  {
    assert fewer * Excess(s) <= k * Excess(s);
  }

  /** With no replacement made, or a secret no longer than the marker, nothing is lost at all. */
  lemma {:induction false} ExactWhenShort(stream: Bytes, s: Bytes, max: nat)
    requires WellFormed(s) && s != [] && max + |s| <= USIZE_MAX
    requires Count(Lossy(Take(stream, max + |s|)), s) == 0 || |s| <= |REDACTED|
    ensures Truncate(Redacted(stream, [s], ReadLimit(s, NoToken, max)), max) == Ideal(stream, [s], max)
  {
    var k := Count(Lossy(Take(stream, max + |s|)), s);
    assert k * Excess(s) == 0;
    hide *;
    BoundedAgrees(stream, s, max, max);
  }

  // ----- byte for byte -----

  lemma TakeConcat(a: Bytes, b: Bytes, n: nat)
    ensures Take(a + b, n) == if n <= |a| then a[..n] else a + Take(b, n - |a|)
  {
  }

  /** With nothing shared left there is no room either. */
  lemma NoRoomLeft(s: Bytes, limit: int, n: nat)
    requires s != [] && limit <= 0 && Within(Count([], s), s, limit, n)
    ensures n == 0
  {
  }

  lemma NoMatchYet(u: Bytes, x: Bytes, s: Bytes, limit: int, n: nat)
    requires s != [] && CrossLate(u + x, |u|, s, limit) && !(s <= u) && n > 0 && Within(Count(u, s), s, limit, n)
    ensures !(s <= u + x)
  {
    if |u| < |s| {
      assert limit > 0;
      assert !OccursAt(s, u + x, 0);
      PrefixOccurs(s, u + x);
    }
  }

  lemma CrossLateParts(u: Bytes, x: Bytes, s: Bytes, limit: int, c: nat)
    requires CrossLate(u + x, |u|, s, limit) && c <= |u|
    ensures (u + x)[c..] == u[c..] + x && CrossLate(u[c..] + x, |u[c..]|, s, limit - c)
  {
    hide CrossLate;
    CrossLateDrop(u + x, |u|, s, limit, c);
    assert (u + x)[c..] == u[c..] + x;
  }

  /** As `Agree`, on bytes instead of whole characters, when all bytes up to `limit` are shared. */
  lemma {:induction false} AgreeBytes(u: Bytes, x: Bytes, y: Bytes, s: Bytes, limit: int, n: nat)
    requires s != [] && limit <= |u| && CrossLate(u + x, |u|, s, limit) && CrossLate(u + y, |u|, s, limit)
    requires Within(Count(u, s), s, limit, n)
    ensures Take(Replace(u + x, s, REDACTED), n) == Take(Replace(u + y, s, REDACTED), n)
    decreases |u|
  {
    hide CrossLate, Replace, Count, Within;
    if u == [] {
      NoRoomLeft(s, limit, n);
    } else if s <= u {
      var rest := u[|s|..];
      assert u == s + rest;
      ReplaceMatch(s, rest, x);
      ReplaceMatch(s, rest, y);
      TakeConcat(REDACTED, Replace(rest + x, s, REDACTED), n);
      TakeConcat(REDACTED, Replace(rest + y, s, REDACTED), n);
      if n > |REDACTED| {
        CrossLateParts(u, x, s, limit, |s|);
        CrossLateParts(u, y, s, limit, |s|);
        StillWithin(Count(rest, s), s, limit, n);
        AgreeBytes(rest, x, y, s, limit - |s|, n - |REDACTED|);
      }
    } else if n > 0 {
      var rest := u[1..];
      NoMatchYet(u, x, s, limit, n);
      NoMatchYet(u, y, s, limit, n);
      CrossLateParts(u, x, s, limit, 1);
      CrossLateParts(u, y, s, limit, 1);
      ReplaceStep(u, s, REDACTED);
      ReplaceStep(u + x, s, REDACTED);
      ReplaceStep(u + y, s, REDACTED);
      WithinLess(Count(rest, s), s, limit, n, 1);
      AgreeBytes(rest, x, y, s, limit - 1, n - 1);
      TakeConcat([u[0]], Replace(rest + x, s, REDACTED), n);
      TakeConcat([u[0]], Replace(rest + y, s, REDACTED), n);
    }
  }

  /** Bytes of the two redacted texts that the replacements made leave alike. */
  function Room(stream: Bytes, s: Bytes, max: nat): int
    requires s != []
  {
    max - Count(Lossy(Take(stream, max + |s|)), s) * Excess(s)
  }

  /** The text redacted within the read limit has the same first `n` bytes as the entire body redacted. */
  predicate SameBytes(stream: Bytes, s: Bytes, max: nat, n: nat) {
    Take(Redacted(stream, [s], ReadLimit(s, NoToken, max)), n) == Take(RedactAll(Lossy(stream), [s]), n)
  }

  lemma SameBytesIs(stream: Bytes, s: Bytes, max: nat, n: nat)
    requires s != [] && max + |s| <= USIZE_MAX
    ensures SameBytes(stream, s, max, n) <==>
            Take(Replace(Lossy(Take(stream, max + |s|)), s, REDACTED), n) == Take(Replace(Lossy(stream), s, REDACTED), n)
  {
    OneSecret(stream, s, max, n);
    RedactOne(Lossy(stream), s);
  }

  lemma DivergingCrossings(u: Bytes, x: Bytes, y: Bytes, s: Bytes, limit: int)
    requires Diverging(u, x, y, s, limit)
    ensures CrossLate(u + x, |u|, s, limit) && CrossLate(u + y, |u|, s, limit)
  {
  }

  /** Beyond the read limit: `b` was read and `c` was not. */
  lemma BytesAgreeBeyond(b: Bytes, c: Bytes, s: Bytes, max: nat, n: nat)
    requires WellFormed(s) && |s| >= 3 && c != [] && |b| == max + |s| && n <= max - Count(Lossy(b), s) * Excess(s)
    ensures Take(Replace(Lossy(b), s, REDACTED), n) == Take(Replace(Lossy(b + c), s, REDACTED), n)
  {
    hide *;
    var u, x, y := DivergesAtReadLimit(b, c, s, max);
    CountPrefix(u, x, s);
    FewerReplacements(Count(u, s), Count(Lossy(b), s), s, max, n);
    DivergingCrossings(u, x, y, s, max);
    AgreeBytes(u, x, y, s, max, n);
  }

  lemma ExcessIs(s: Bytes)
    ensures Excess(s) == if |s| > 10 then |s| - 10 else 0
  {
  }

  lemma RoomIs(stream: Bytes, s: Bytes, max: nat)
    requires s != []
    ensures Room(stream, s, max) == max - Count(Lossy(Take(stream, max + |s|)), s) * Excess(s)
  {
  }

  /** One secret of three bytes or more, whatever the body: agreement byte for byte. */
  lemma {:induction false} BytesAgree(stream: Bytes, s: Bytes, max: nat, n: nat)
    requires WellFormed(s) && |s| >= 3 && max + |s| <= USIZE_MAX
    requires n <= max - Count(Lossy(Take(stream, max + |s|)), s) * (if |s| > 10 then |s| - 10 else 0)
    ensures SameBytes(stream, s, max, n)
  {
    hide *;
    ExcessIs(s);
    var b := Take(stream, max + |s|);
    RoomIs(stream, s, max);
    SameBytesIs(stream, s, max, n);
    OneSecret(stream, s, max, n);
    if |stream| > max + |s| {
      assert stream == b + stream[|b|..];
      BytesAgreeBeyond(b, stream[|b|..], s, max, n);
    }
  }

  /** U+1F600, a character of four bytes. */
  const FACE: Bytes := [0xF0, 0x9F, 0x98, 0x80]

  lemma FaceCut()
    ensures Lossy(FACE) == FACE && Lossy(Take(FACE, 3)) == FFFD
  {
    assert FACE[4..] == [];
    assert Take(FACE, 3) == [0xF0, 0x9F, 0x98];
    assert [0xF0 as byte, 0x9F, 0x98][3..] == [];
  }

  lemma {:induction false} NeverFound(t: Bytes, s: Bytes)
    requires s != [] && s[0] !in t
    ensures Replace(t, s, REDACTED) == t && Count(t, s) == 0
    decreases |t|
  {
    if |t| >= |s| {
      assert t[0] in t && !(s <= t);
      NeverFound(t[1..], s);
    }
  }

  /**
   A shorter secret leaves so little overlap that, at every bound but zero, a split character shows
   below it: behind `max - 1` bytes of filler.
   */
  lemma ShortSecretDiffers(s: Bytes, max: nat) returns (stream: Bytes)
    requires WellFormed(s) && 1 <= |s| <= 2 && max >= 1 && max + |s| <= USIZE_MAX
    ensures Room(stream, s, max) == max && !SameBytes(stream, s, max, max)
  {
    hide Lossy, WellFormed, SameBytes, Continuation, Replace, Count, Repeat, Filler;
    var front := Repeat([Filler(s)], max - 1);
    stream := front + FACE;
    var part := Take(FACE, 1 + |s|);
    FillerFront(s, max - 1);
    ShortHead(s);
    FaceParts(|s|);
    TakeHead(front, FACE, max + |s|);
    AsciiFront(front, FACE);
    AsciiFront(front, part);
    NeverFound(front + FACE, s);
    NeverFound(front + FFFD, s);
    RoomIs(stream, s, max);
    assert Excess(s) == 0;
    SameBytesIs(stream, s, max, max);
    assert Take(front + FFFD, max)[max - 1] != Take(front + FACE, max)[max - 1];
  }

  lemma FillerFront(s: Bytes, n: nat)
    requires s != []
    ensures Ascii(Repeat([Filler(s)], n)) && s[0] !in Repeat([Filler(s)], n)
  {
    hide Filler;
    AsciiRepeat([Filler(s)], n);
    OnlyRepeated(Filler(s), n);
  }

  lemma {:induction false} OnlyRepeated(b: byte, n: nat)
    ensures forall k :: 0 <= k < n ==> Repeat([b], n)[k] == b
  {
    if n > 0 { OnlyRepeated(b, n - 1); }
  }

  lemma FaceParts(n: nat)
    requires 1 <= n <= 2
    ensures Lossy(FACE) == FACE && Lossy(Take(FACE, 1 + n)) == FFFD
  {
    assert FACE[4..] == [];
    assert Take(FACE, 2) == [0xF0, 0x9F] && Take(FACE, 3) == [0xF0, 0x9F, 0x98];
    assert [0xF0 as byte, 0x9F][2..] == [] && [0xF0 as byte, 0x9F, 0x98][3..] == [];
  }

  lemma ShortHead(s: Bytes)
    requires WellFormed(s) && 1 <= |s| <= 2
    ensures s[0] !in FACE && s[0] !in FFFD
  {
  }

  /**
   At a given bound, the bytes agree for every body as far as there is room, if and only if the secret
   has at least three bytes or the bound is zero.
   */
  lemma {:induction false} BytesAgreeExactly(s: Bytes, max: nat)
    requires WellFormed(s) && s != [] && max + |s| <= USIZE_MAX
    ensures (forall stream, n: nat :: n <= Room(stream, s, max) ==> SameBytes(stream, s, max, n)) <==> |s| >= 3 || max == 0
  {
    hide Room, SameBytes, WellFormed, Excess;
    if |s| >= 3 || max == 0 {
      forall stream, n: nat | n <= Room(stream, s, max) ensures SameBytes(stream, s, max, n) {
        if |s| >= 3 {
          RoomIs(stream, s, max);
          ExcessIs(s);
          BytesAgree(stream, s, max, n);
        } else {
          NoBytes(stream, s, n);
        }
      }
    } else {
      var stream := ShortSecretDiffers(s, max);
    }
  }

  lemma NoBytes(stream: Bytes, s: Bytes, n: nat)
    requires 1 <= |s| <= |REDACTED| && n <= Room(stream, s, 0)
    ensures SameBytes(stream, s, 0, n)
  {
    hide Lossy, Redacted, RedactAll, Count;
    assert Excess(s) == 0 && n == 0;
  }

  // ----- exactly when nothing is lost -----

  /** A bound within the marker's length: no body of any secret loses anything. */
  lemma {:induction false} ExactWithinMarker(stream: Bytes, s: Bytes, max: nat)
    requires WellFormed(s) && s != [] && max + |s| <= USIZE_MAX && max <= |REDACTED|
    ensures Shown(stream, s, max) == Ideal(stream, [s], max)
  {
    hide Lossy, Replace, Truncate, WellFormed, Count, Redacted, Ideal;
    var b := Take(stream, max + |s|);
    OneSecret(stream, s, max, max);
    if |stream| > max + |s| {
      assert stream == b + stream[|b|..];
      WithinMarkerBeyond(b, stream[|b|..], s, max);
    }
  }

  lemma WithinMarkerBeyond(b: Bytes, c: Bytes, s: Bytes, max: nat)
    requires WellFormed(s) && s != [] && c != [] && |b| == max + |s| && max <= |REDACTED|
    ensures Truncate(Replace(Lossy(b), s, REDACTED), max) == Truncate(Replace(Lossy(b + c), s, REDACTED), max)
  {
    hide Lossy, Replace, Truncate, WellFormed, Count, Diverging;
    var u, x, y := DivergesAtReadLimit(b, c, s, max);
    assert Within(Count(u, s), s, max, max) by { MarkerRoom(Count(u, s), s, max); }
    Agree(u, x, y, s, max, max);
  }

  lemma MarkerRoom(k: nat, s: Bytes, max: nat)
    requires max <= |REDACTED|
    ensures Within(k, s, max, max)
  {
  }

  /** Secret length and visible bound for which every body is shown as if redacted entirely. */
  predicate AlwaysExact(length: nat, max: nat) {
    length <= |REDACTED| || max <= |REDACTED| || (length == |REDACTED| + 1 && max <= 2 * |REDACTED|)
  }

  lemma ExactWhen(stream: Bytes, s: Bytes, max: nat)
    requires Ascii(s) && s != [] && max + |s| <= USIZE_MAX && AlwaysExact(|s|, max)
    ensures Shown(stream, s, max) == Ideal(stream, [s], max)
  {
    hide *;
    var b := Take(stream, max + |s|);
    AsciiWellFormed(s);
    OneSecret(stream, s, max, max);
    ShortOrWithin(Count(Lossy(b), s), s, max);
    if |s| <= |REDACTED| {
      BoundedAgrees(stream, s, max, max);
      ShownIs(stream, s, max);
    } else {
      ShownIs(stream, s, max);
      if |stream| > max + |s| {
        assert stream == b + stream[|b|..];
        var u, x, y := DivergesAtReadLimit(b, stream[|b|..], s, max);
        ShortOrWithin(Count(u, s), s, max);
        Agree(u, x, y, s, max + 1, max);
      }
    }
  }

  lemma ShownIs(stream: Bytes, s: Bytes, max: nat)
    ensures Shown(stream, s, max) == Truncate(Redacted(stream, [s], ReadLimit(s, NoToken, max)), max)
  {
  }

  lemma ShortOrWithin(k: nat, s: Bytes, max: nat)
    requires AlwaysExact(|s|, max)
    ensures if |s| <= |REDACTED| then k * Excess(s) == 0 else |s| > 3 && Within(k, s, max + 1, max)
  {
    assert k <= 1 ==> k * Excess(s) <= Excess(s);
  }

  function Repeat(w: Bytes, n: nat): (r: Bytes)
    ensures |r| == n * |w|
  {
    if n == 0 then [] else w + Repeat(w, n - 1)
  }

  /** An ASCII byte other than the secret's first. */
  function Filler(s: Bytes): (c: byte)
    requires s != []
    ensures c != s[0] && c < 0x80
  {
    if s[0] == 0x61 then 0x62 else 0x61
  }

  /** Leading copies of the secret are redacted independently of what follows. */
  lemma {:induction false} ReplaceCopies(s: Bytes, q: nat, tail: Bytes)
    requires s != []
    ensures Replace(Repeat(s, q) + tail, s, REDACTED) == Repeat(REDACTED, q) + Replace(tail, s, REDACTED)
  {
    hide Replace;
    if q > 0 {
      var rest := Repeat(s, q - 1);
      assert Repeat(s, q) == s + rest && Repeat(REDACTED, q) == REDACTED + Repeat(REDACTED, q - 1);
      hide Repeat;
      ReplaceCopies(s, q - 1, tail);
      ReplaceMatch(s, rest, tail);
      Utf8.Associate(REDACTED, Repeat(REDACTED, q - 1), Replace(tail, s, REDACTED));
    } else {
      assert Repeat(s, 0) + tail == tail;
    }
  }

  /** Filler in front is copied. */
  lemma {:induction false} ReplaceFiller(s: Bytes, f: nat, tail: Bytes)
    requires s != []
    ensures Replace(Repeat([Filler(s)], f) + tail, s, REDACTED) == Repeat([Filler(s)], f) + Replace(tail, s, REDACTED)
  {
    var c := Filler(s);
    if f > 0 {
      var t := Repeat([c], f) + tail;
      ReplaceFiller(s, f - 1, tail);
      assert t[0] == c && t[1..] == Repeat([c], f - 1) + tail;
      if |t| < |s| { NothingShort(t[1..], s); }
      assert Replace(t, s, REDACTED) == [c] + Replace(t[1..], s, REDACTED);
      Utf8.Associate([c], Repeat([c], f - 1), Replace(tail, s, REDACTED));
    } else {
      assert Repeat([c], 0) + tail == tail;
    }
  }

  lemma {:induction false} AsciiRepeat(w: Bytes, n: nat)
    requires Ascii(w)
    ensures Ascii(Repeat(w, n))
  {
    if n > 0 { AsciiRepeat(w, n - 1); }
  }

  lemma AsciiText(t: Bytes, n: nat)
    requires Ascii(t)
    ensures Lossy(Take(t, n)) == Take(t, n) && Lossy(t) == t
  {
    AsciiWellFormed(t);
    AsciiWellFormed(Take(t, n));
    LossyIdentity(t);
    LossyIdentity(Take(t, n));
  }

  lemma AsciiCut(t: Bytes, n: nat)
    requires Ascii(t)
    ensures Truncate(t, n) == Take(t, n)
  {
    if n < |t| { BoundaryUnique(t, n, n); }
  }

  /** Copies of the secret, filler, and a last copy that the read limit cuts to `part` bytes. */
  lemma LostMatch(s: Bytes, q: nat, f: nat, part: nat, max: nat) returns (stream: Bytes)
    requires Ascii(s) && 1 <= part < |s| && s[0] != OPEN && max + |s| <= USIZE_MAX
    requires q * |s| + f + part == max + |s| && |REDACTED| * q + f < max
    ensures Shown(stream, s, max) != Ideal(stream, [s], max)
  {
    var fill := Repeat([Filler(s)], f);
    var shown := Repeat(REDACTED, q) + fill;
    stream := Repeat(s, q) + fill + s;
    assert Ascii(s[..part]) && s[0] != OPEN;
    LostShown(s, q, f, part, max);
    MarkerBytes();
    hide *;
    CutsDiffer(shown, s[..part], REDACTED, max);
  }

  /** Both views of such a stream: the part of the last copy that was read, or a marker for all of it. */
  lemma LostShown(s: Bytes, q: nat, f: nat, part: nat, max: nat)
    requires Ascii(s) && 1 <= part < |s| && max + |s| <= USIZE_MAX && q * |s| + f + part == max + |s|
    ensures var fill := Repeat([Filler(s)], f);
            var stream, shown := Repeat(s, q) + fill + s, Repeat(REDACTED, q) + fill;
            && Shown(stream, s, max) == Truncate(shown + s[..part], max)
            && Ideal(stream, [s], max) == Truncate(shown + REDACTED, max)
            && Ascii(shown) && |shown| == |REDACTED| * q + f
  {
    hide *;
    var fill := Repeat([Filler(s)], f);
    LostPart(s, q, f, part, max, fill);
    LostIdeal(s, q, f, max, fill);
  }

  lemma LostPart(s: Bytes, q: nat, f: nat, part: nat, max: nat, fill: Bytes)
    requires Ascii(s) && 1 <= part < |s| && max + |s| <= USIZE_MAX && q * |s| + f + part == max + |s|
    requires fill == Repeat([Filler(s)], f)
    ensures Shown(Repeat(s, q) + fill + s, s, max) == Truncate(Repeat(REDACTED, q) + fill + s[..part], max)
    ensures Ascii(Repeat(REDACTED, q) + fill)
  {
    var stream := Repeat(s, q) + fill + s;
    hide *;
    TakePart(Repeat(s, q) + fill, s, part, max + |s|);
    AsciiPart(s, part);
    CopiesRedacted(s, q, f, s[..part]);
    CopiesRedacted(s, q, f, s);
    NothingShort(s[..part], s);
    AsciiText(stream, max + |s|);
    OneSecret(stream, s, max, max);
    ShownIs(stream, s, max);
  }

  lemma LostIdeal(s: Bytes, q: nat, f: nat, max: nat, fill: Bytes)
    requires Ascii(s) && s != [] && max + |s| <= USIZE_MAX && fill == Repeat([Filler(s)], f)
    ensures Ideal(Repeat(s, q) + fill + s, [s], max) == Truncate(Repeat(REDACTED, q) + fill + REDACTED, max)
  {
    var stream := Repeat(s, q) + fill + s;
    hide *;
    CopiesRedacted(s, q, f, s);
    MarkerAlone(s);
    AsciiText(stream, max + |s|);
    OneSecret(stream, s, max, max);
  }

  lemma AsciiPart(s: Bytes, part: nat)
    requires Ascii(s) && part <= |s|
    ensures Ascii(s[..part])
  {
  }

  lemma TakePart(head: Bytes, s: Bytes, part: nat, n: nat)
    requires part <= |s| && |head| + part == n
    ensures Take(head + s, n) == head + s[..part]
  {
  }

  lemma MarkerBytes()
    ensures Ascii(REDACTED) && REDACTED != [] && REDACTED[0] == OPEN
  {
  }

  lemma CopiesRedacted(s: Bytes, q: nat, f: nat, tail: Bytes)
    requires s != [] && Ascii(s) && Ascii(tail)
    ensures var fill := Repeat([Filler(s)], f);
            && Replace(Repeat(s, q) + fill + tail, s, REDACTED)
            == Repeat(REDACTED, q) + fill + Replace(tail, s, REDACTED)
            && Ascii(Repeat(s, q) + fill + tail) && Ascii(Repeat(REDACTED, q) + fill)
  {
    var fill := Repeat([Filler(s)], f);
    ReplaceFiller(s, f, tail);
    ReplaceCopies(s, q, fill + tail);
    Utf8.Associate(Repeat(s, q), fill, tail);
    Utf8.Associate(Repeat(REDACTED, q), fill, Replace(tail, s, REDACTED));
    AsciiRepeat(s, q);
    AsciiRepeat([Filler(s)], f);
    AsciiRepeat(REDACTED, q);
  }

  /** Two ASCII texts that differ at a visible place are cut to different texts. */
  lemma CutsDiffer(front: Bytes, a: Bytes, b: Bytes, max: nat)
    requires Ascii(front) && Ascii(a) && Ascii(b) && a != [] && b != [] && a[0] != b[0] && |front| < max
    ensures Truncate(front + a, max) != Truncate(front + b, max)
  {
    AsciiCut(front + a, max);
    AsciiCut(front + b, max);
    assert Take(front + a, max)[|front|] == a[0];
    assert Take(front + b, max)[|front|] == b[0];
  }

  /**
   For a secret of ASCII bytes that does not start like the marker: every body is shown as if it had been redacted
   entirely, if and only if the secret's length and the visible bound are as `AlwaysExact` says.
   */
  lemma ExactCondition(s: Bytes, max: nat)
    requires Ascii(s) && s != [] && s[0] != OPEN && max + |s| <= USIZE_MAX
    ensures (forall stream :: Shown(stream, s, max) == Ideal(stream, [s], max)) <==> AlwaysExact(|s|, max)
  {
    if AlwaysExact(|s|, max) {
      forall stream: Bytes ensures Shown(stream, s, max) == Ideal(stream, [s], max) {
        ExactWhen(stream, s, max);
      }
    } else {
      var stream;
      if |s| == |REDACTED| + 1 {
        stream := LostMatch(s, 2, max - 2 * |REDACTED| - 1, |s| - 1, max);
      } else if max >= |s| - 1 {
        stream := LostMatch(s, 1, max + 1 - |s|, |s| - 1, max);
      } else {
        stream := LostMatch(s, 1, 0, max, max);
      }
    }
  }

  // ----- two secrets -----

  /** Reading further than one secret needs shows no less. */
  lemma FurtherAgrees(stream: Bytes, s: Bytes, limit: nat, n: nat)
    requires WellFormed(s) && s != [] && |s| <= limit <= USIZE_MAX
    requires n <= limit - |s| - Count(Lossy(Take(stream, limit)), s) * Excess(s)
    ensures Truncate(Replace(Lossy(Take(stream, limit)), s, REDACTED), n) == Truncate(Replace(Lossy(stream), s, REDACTED), n)
  {
    hide *;
    var further := limit - |s|;
    OneSecret(stream, s, further, n);
    BoundedAgrees(stream, s, further, n);
  }

  /**
   A password and its token: where one of the two does not occur, what is shown agrees with the entire
   body redacted up to what the replacements of the other cost.
   */
  lemma OneOfTwoAgrees(stream: Bytes, a: Bytes, b: Bytes, max: nat, n: nat)
    requires WellFormed(a) && WellFormed(b) && a != [] && Redactable(b)
    requires max + |a| <= USIZE_MAX && max + |b| <= USIZE_MAX
    ensures var limit := ReadLimit(a, Token(b), max);
            var read := Lossy(Take(stream, limit));
            && (!Contains(read, a) && !Contains(Lossy(stream), a) && n <= max - Count(read, b) * Excess(b) ==>
                  Truncate(Redacted(stream, [a, b], limit), n) == Ideal(stream, [a, b], n))
            && (!Contains(read, b) && !Contains(Lossy(stream), b) && n <= max - Count(read, a) * Excess(a) ==>
                  Truncate(Redacted(stream, [a, b], limit), n) == Ideal(stream, [a, b], n))
  {
    var limit := ReadLimit(a, Token(b), max);
    var read, whole := Lossy(Take(stream, limit)), Lossy(stream);
    assert limit >= max + |a| && limit >= max + |b| && limit <= USIZE_MAX && b != [];
    RedactTwo(read, a, b);
    RedactTwo(whole, a, b);
    hide *;
    RedactedIs(stream, [a, b], limit, n);
    if !Contains(read, a) && !Contains(whole, a) && n <= max - Count(read, b) * Excess(b) {
      ReplaceNothing(read, a, REDACTED);
      ReplaceNothing(whole, a, REDACTED);
      FurtherAgrees(stream, b, limit, n);
    }
    if !Contains(read, b) && !Contains(whole, b) && n <= max - Count(read, a) * Excess(a) {
      StillAbsent(read, a, b);
      StillAbsent(whole, a, b);
      FurtherAgrees(stream, a, limit, n);
    }
  }

  /** Bytes by which the replacements of `s` in `t` shorten it, when `s` is longer than the marker. */
  function Cost(t: Bytes, s: Bytes): nat
    requires s != []
  {
    Count(t, s) * Excess(s)
  }

  lemma CostIs(t: Bytes, s: Bytes)
    requires s != []
    ensures Cost(t, s) == Count(t, s) * Excess(s) == Count(t, s) * (if |s| > 10 then |s| - 10 else 0)
  {
  }

  /** A character that the cut leaves out ends behind the bound. */
  lemma CutCharEnds(u: Bytes, x: Bytes, m: nat)
    requires WellFormed(u) && WellFormed(x) && |u| <= m && Truncate(u + x, m) == u
    ensures x != [] ==> |u| + CharLen(x) > m
  {
    hide CharLen, Truncate, WellFormed;
    TruncateConcat(u, x, m);
    if x != [] {
      HeadLen(x);
      TruncateHead(x, m - |u|);
    }
  }

  /** `u + x` and `u + y` are both cut to `u` at `m`. */
  predicate Parted(u: Bytes, x: Bytes, y: Bytes, m: nat) {
    && WellFormed(u) && WellFormed(x) && WellFormed(y)
    && m - 3 <= |u| <= m && Truncate(u + x, m) == u && Truncate(u + y, m) == u
  }

  /** Texts that are cut alike at `m` look alike to a scan for `s` until `m - |s|`. */
  lemma CutAlikeDiverges(u: Bytes, x: Bytes, y: Bytes, s: Bytes, m: nat)
    requires Parted(u, x, y, m) && WellFormed(s) && |s| >= 3
    ensures Diverging(u, x, y, s, m - |s|)
  {
    hide CharLen, Truncate, WellFormed, CrossLate;
    CutCharEnds(u, x, m);
    CutCharEnds(u, y, m);
    CutCrossesLate(u, x, s, m);
    CutCrossesLate(u, y, s, m);
  }

  lemma CutCrossesLate(u: Bytes, x: Bytes, s: Bytes, m: nat)
    requires WellFormed(u) && WellFormed(x) && WellFormed(s) && s != []
    requires x != [] ==> |u| + CharLen(x) > m
    ensures CrossLate(u + x, |u|, s, m - |s|)
  {
    hide CharLen, WellFormed;
    if x != [] {
      CrossesLate(u, x, s, m - |s|);
    } else {
      assert u + x == u;
    }
  }

  lemma CutParts(p: Bytes, q: Bytes, m: nat) returns (u: Bytes, x: Bytes, y: Bytes)
    requires WellFormed(p) && WellFormed(q) && Truncate(p, m) == Truncate(q, m) && p != q
    ensures p == u + x && q == u + y && Parted(u, x, y, m)
  {
    hide WellFormed;
    TruncateLongest(p, m);
    TruncateLongest(q, m);
    u := Truncate(p, m);
    x, y := p[|u|..], q[|u|..];
    assert p == u + x && q == u + y;
    WellFormedRest(u, x);
    WellFormedRest(u, y);
  }

  lemma CostBounds(u: Bytes, x: Bytes, s: Bytes, limit: int, n: nat)
    requires s != [] && n <= limit - Cost(u + x, s)
    ensures Within(Count(u, s), s, limit, n)
  {
    CountPrefix(u, x, s);
    hide Count, Excess, Within;
    FewerReplacements(Count(u, s), Count(u + x, s), s, limit, n);
  }

  /** Texts that are cut alike are redacted alike, up to one secret and what the replacements cost. */
  lemma SharedFrontAgrees(p: Bytes, q: Bytes, s: Bytes, m: nat, n: nat)
    requires WellFormed(p) && WellFormed(q) && WellFormed(s) && |s| >= 3 && Truncate(p, m) == Truncate(q, m)
    requires n <= m - |s| - Cost(p, s)
    ensures Truncate(Replace(p, s, REDACTED), n) == Truncate(Replace(q, s, REDACTED), n)
  {
    hide *;
    if p != q {
      var u, x, y := CutParts(p, q, m);
      PartedAgree(u, x, y, s, m, n);
    }
  }

  lemma PartedAgree(u: Bytes, x: Bytes, y: Bytes, s: Bytes, m: nat, n: nat)
    requires Parted(u, x, y, m) && WellFormed(s) && |s| >= 3 && n <= m - |s| - Cost(u + x, s)
    ensures Truncate(Replace(u + x, s, REDACTED), n) == Truncate(Replace(u + y, s, REDACTED), n)
  {
    hide *;
    CutAlikeDiverges(u, x, y, s, m);
    CostBounds(u, x, s, m - |s|, n);
    Agree(u, x, y, s, m - |s|, n);
  }

  /**
   A password and its token, whatever the body: the shorter of the two is lost at the end of what is
   read, apart from what the replacements cost.
   */
  lemma TwoSecretsAgree(stream: Bytes, a: Bytes, b: Bytes, max: nat, n: nat)
    requires WellFormed(a) && WellFormed(b) && a != [] && |b| >= 3
    requires max + |a| <= USIZE_MAX && max + |b| <= USIZE_MAX
    requires var read := Lossy(Take(stream, ReadLimit(a, Token(b), max)));
             n <= max - Min(|a|, |b|) - Cost(read, a) - Cost(Replace(read, a, REDACTED), b)
    ensures Truncate(Redacted(stream, [a, b], ReadLimit(a, Token(b), max)), n) == Ideal(stream, [a, b], n)
  {
    LimitIs(a, b, max);
    hide *;
    var limit := ReadLimit(a, Token(b), max);
    var read, whole := Lossy(Take(stream, limit)), Lossy(stream);
    RedactTwo(read, a, b);
    RedactTwo(whole, a, b);
    RedactedIs(stream, [a, b], limit, n);
    LossyWellFormed(Take(stream, limit));
    LossyWellFormed(stream);
    InTurnAgrees(stream, a, b, limit, n + |b| + Cost(Replace(read, a, REDACTED), b), n);
  }

  lemma LimitIs(a: Bytes, b: Bytes, max: nat)
    requires max + |a| <= USIZE_MAX && max + |b| <= USIZE_MAX
    ensures ReadLimit(a, Token(b), max) == max + |a| + |b| - Min(|a|, |b|) <= USIZE_MAX
  {
  }

  /** The first secret is redacted alike up to `m`, the second up to `n`. */
  lemma InTurnAgrees(stream: Bytes, a: Bytes, b: Bytes, limit: nat, m: nat, n: nat)
    requires WellFormed(a) && WellFormed(b) && a != [] && |b| >= 3 && |a| <= limit <= USIZE_MAX
    requires WellFormed(Lossy(Take(stream, limit))) && WellFormed(Lossy(stream))
    requires var read := Lossy(Take(stream, limit));
             m <= limit - |a| - Cost(read, a) && n <= m - |b| - Cost(Replace(read, a, REDACTED), b)
    ensures var read := Lossy(Take(stream, limit));
            Truncate(Replace(Replace(read, a, REDACTED), b, REDACTED), n)
            == Truncate(Replace(Replace(Lossy(stream), a, REDACTED), b, REDACTED), n)
  {
    hide *;
    var read, whole := Lossy(Take(stream, limit)), Lossy(stream);
    ReplaceWellFormed(read, a);
    ReplaceWellFormed(whole, a);
    CostIs(read, a);
    FurtherAgrees(stream, a, limit, m);
    SharedFrontAgrees(Replace(read, a, REDACTED), Replace(whole, a, REDACTED), b, m, n);
  }

  lemma RedactTwo(t: Bytes, a: Bytes, b: Bytes)
    requires a != [] && b != []
    ensures RedactAll(t, [a, b]) == Replace(Replace(t, a, REDACTED), b, REDACTED)
  {
    assert [a, b][1..] == [b];
    RedactOne(Replace(t, a, REDACTED), b);
  }

  lemma RedactedIs(stream: Bytes, secrets: seq<Bytes>, limit: nat, n: nat)
    ensures Redacted(stream, secrets, limit) == RedactAll(Lossy(Take(stream, limit)), secrets)
    ensures Ideal(stream, secrets, n) == Truncate(RedactAll(Lossy(stream), secrets), n)
  {
  }

  lemma StillAbsent(t: Bytes, a: Bytes, b: Bytes)
    requires a != [] && Redactable(b) && b != [] && !Contains(t, b)
    ensures Replace(Replace(t, a, REDACTED), b, REDACTED) == Replace(t, a, REDACTED)
  {
    hide *;
    assert [] + t == t && [] + Replace(t, a, REDACTED) == Replace(t, a, REDACTED);
    ReplaceKeepsAbsence([], t, a, b);
    ReplaceNothing(Replace(t, a, REDACTED), b, REDACTED);
  }

  // ----- the empty secret -----

  lemma RedactNone(t: Bytes)
    ensures RedactAll(t, [[]]) == t
  {
    hide Replace;
    var none: seq<Bytes> := [[]];
    assert none[1..] == [];
  }

  lemma EmptyShown(stream: Bytes, max: nat)
    requires max <= USIZE_MAX
    ensures Shown(stream, [], max) == Truncate(Lossy(Take(stream, max)), max)
    ensures Ideal(stream, [[]], max) == Truncate(Lossy(stream), max)
  {
    hide Lossy, Truncate, RedactAll;
    RedactNone(Lossy(Take(stream, max)));
    RedactNone(Lossy(stream));
  }

  lemma HeadTooLong(y: Bytes, n: nat)
    requires WellFormed(y) && y != [] && CharLen(y) > n
    ensures Truncate(y, n) == []
  {
    hide CharLen, WellFormed, Truncate;
    TruncateHead(y, n);
  }

  lemma FffdChar(y: Bytes)
    ensures WellFormed(FFFD) && CharLen(FFFD) == 3 && (FFFD <= y ==> CharLen(y) == 3)
  {
    assert FFFD[3..] == [];
  }

  /** Below three bytes the replacement character itself does not fit. */
  lemma {:induction false} TinyBoundExact(b: Bytes, c: Bytes)
    requires |b| < 3 && c != []
    ensures Truncate(Lossy(b), |b|) == Truncate(Lossy(b + c), |b|)
  {
    hide *;
    var m, max := Settled(b), |b|;
    var tail := b[m..];
    var u, x, y := Lossy(b[..m]), Lossy(tail), Lossy(tail + c);
    LossySplit(b, c);
    LossySplit(b, []);
    assert b + [] == b && tail + [] == tail;
    LossyWellFormed(b[..m]);
    LossyWellFormed(tail);
    LossyWellFormed(tail + c);
    if |u| >= max {
      TruncateIgnoresRest(u, x, max);
      TruncateIgnoresRest(u, y, max);
    } else {
      IncompleteThenMore(tail, c);
      FffdChar(y);
      CharNonEmpty(y);
      assert FFFD != [];
      HeadTooLong(FFFD, max - |u|);
      HeadTooLong(y, max - |u|);
      TruncateConcat(u, x, max);
      TruncateConcat(u, y, max);
    }
  }

  /**
   With an empty secret nothing is read beyond the bound: a character split by it shows as U+FFFD,
   although the entire body would be cut in front of it.
   */
  lemma EmptySecretSplitsCharacter(max: nat) returns (front: Bytes)
    requires 3 <= max <= USIZE_MAX
    ensures |front| == max - 3
    ensures Shown(front + FACE, [], max) == front + FFFD && Ideal(front + FACE, [[]], max) == front
  {
    front := Repeat([0x61], max - 3);
    AsciiRepeat([0x61], max - 3);
    hide *;
    var stream := front + FACE;
    EmptyShown(stream, max);
    TakeHead(front, FACE, max);
    FaceCut();
    AsciiFront(front, FACE);
    AsciiFront(front, Take(FACE, 3));
    AsciiWellFormed(front);
    FaceTooLong();
    FffdChar(FFFD);
    TruncateConcat(front, FFFD, max);
    TruncateConcat(front, FACE, max);
    assert Truncate(FFFD, 3) == FFFD by { TruncateWhole(FFFD, 3); }
  }

  lemma TakeHead(front: Bytes, t: Bytes, n: nat)
    requires |front| <= n
    ensures Take(front + t, n) == front + Take(t, n - |front|)
  {
  }

  lemma TruncateWhole(t: Bytes, n: nat)
    requires |t| <= n
    ensures Truncate(t, n) == t
  {
  }

  lemma FaceTooLong()
    ensures WellFormed(FACE) && Truncate(FACE, 3) == []
  {
    assert FACE[4..] == [];
    HeadTooLong(FACE, 3);
  }

  lemma AsciiHead(t: Bytes)
    requires t != [] && t[0] < 0x80
    ensures Lossy(t) == [t[0]] + Lossy(t[1..])
  {
  }

  lemma {:induction false} AsciiFront(front: Bytes, t: Bytes)
    requires Ascii(front)
    ensures Lossy(front + t) == front + Lossy(t)
    decreases |front|
  {
    hide Lossy;
    if front == [] {
      assert front + t == t;
    } else {
      assert (front + t)[1..] == front[1..] + t;
      AsciiHead(front + t);
      AsciiFront(front[1..], t);
    }
  }

  /** An empty secret does no harm for any body if and only if the bound is below three bytes. */
  lemma {:induction false} EmptySecretExactly(max: nat)
    requires max <= USIZE_MAX
    ensures (forall stream :: Shown(stream, [], max) == Ideal(stream, [[]], max)) <==> max < 3
  {
    hide Shown, Ideal, Lossy, Truncate;
    if max < 3 {
      forall stream: Bytes ensures Shown(stream, [], max) == Ideal(stream, [[]], max) {
        EmptyShown(stream, max);
        if |stream| <= max {
          assert Take(stream, max) == stream;
        } else {
          assert Take(stream, max) == stream[..max] && stream == stream[..max] + stream[max..];
          TinyBoundExact(stream[..max], stream[max..]);
        }
      }
    } else {
      var front := EmptySecretSplitsCharacter(max);
      assert |front + FFFD| != |front|;
    }
  }
}
