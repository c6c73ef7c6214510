/**
 Path rules as containment of segment lists, and the normal form of URL paths: the path state of the
 parser in the WHATWG URL Standard, section 4.4, for the http and https schemes.
 */
module Policy {
  import opened Bytes

  const TAB: byte := 0x09
  const SPACE: byte := 0x20
  const HASH: byte := 0x23
  const PERCENT: byte := 0x25
  const STAR: byte := 0x2A
  const DOT: byte := 0x2E
  const SLASH: byte := 0x2F
  const COLON: byte := 0x3A
  const QUESTION: byte := 0x3F
  const BACKSLASH: byte := 0x5C

  // ----- segments -----

  /** `text.split('/')`. */
  function Segments(t: Bytes): (r: seq<Bytes>)
    ensures r != []
  {
    if t == [] then [[]]
    else
      var rest := Segments(t[1..]);
      if t[0] == SLASH then [[]] + rest else [[t[0]] + rest[0]] + rest[1..]
  }

  /** The segments with a slash between each two. */
  function Rejoined(s: seq<Bytes>): Bytes
    requires s != []
  {
    if |s| == 1 then s[0] else s[0] + [SLASH] + Rejoined(s[1..])
  }

  lemma {:induction false} SegmentsConcat(a: Bytes, b: Bytes)
    ensures Segments(a + [SLASH] + b) == Segments(a) + Segments(b)
  {
    var t := a + [SLASH] + b;
    if a == [] {
      assert t[1..] == b;
    } else {
      assert t[1..] == a[1..] + [SLASH] + b;
      SegmentsConcat(a[1..], b);
    }
  }

  lemma {:induction false} RejoinedSegments(t: Bytes)
    ensures Rejoined(Segments(t)) == t
  {
    if t != [] {
      RejoinedSegments(t[1..]);
      var rest := Segments(t[1..]);
      if t[0] == SLASH {
        assert Segments(t)[1..] == rest;
      } else {
        assert Segments(t)[1..] == rest[1..];
        assert [t[0]] + t[1..] == t;
      }
    }
  }

  lemma {:induction false} RejoinedConcat(a: seq<Bytes>, b: seq<Bytes>)
    requires a != [] && b != []
    ensures Rejoined(a + b) == Rejoined(a) + [SLASH] + Rejoined(b)
    decreases |a|
  {
    if |a| == 1 {
      assert (a + b)[1..] == b;
    } else {
      assert (a + b)[1..] == a[1..] + b;
      RejoinedConcat(a[1..], b);
    }
  }

  // ----- rules -----

  predicate StartsWith(t: Bytes, p: Bytes) {
    p <= t
  }

  /** The rule covers a whole subtree. */
  predicate IsPrefixRule(rule: Bytes) {
    |rule| >= 2 && rule[|rule| - 2] == SLASH && rule[|rule| - 1] == STAR
  }

  /** The rule without its terminal slash and star, if it has them. */
  function Stem(rule: Bytes): Bytes {
    if IsPrefixRule(rule) then rule[..|rule| - 2] else rule
  }

  function PrefixRule(stem: Bytes): Bytes {
    stem + [SLASH, STAR]
  }

  predicate PathMatches(rule: Bytes, path: Bytes) {
    if IsPrefixRule(rule) then path == Stem(rule) || StartsWith(path, Stem(rule) + [SLASH]) else path == rule
  }

  /** Being below `p` in the tree of slash-separated names. */
  lemma SubtreeIsSegmentPrefix(p: Bytes, path: Bytes)
    ensures path == p || StartsWith(path, p + [SLASH]) <==> Segments(p) <= Segments(path)
  {
    hide *;
    RejoinedSegments(p);
    RejoinedSegments(path);
    if p + [SLASH] <= path {
      var rest := path[|p| + 1..];
      assert path == p + [SLASH] + rest;
      SegmentsConcat(p, rest);
    }
    if Segments(p) < Segments(path) {
      var rest := Segments(path)[|Segments(p)|..];
      assert Segments(path) == Segments(p) + rest;
      RejoinedConcat(Segments(p), rest);
      assert path == p + [SLASH] + Rejoined(rest);
    }
    StartsWithIs(path, p + [SLASH]);
    assert Segments(p) <= Segments(path) && |Segments(p)| == |Segments(path)| ==> Segments(p) == Segments(path);
  }

  lemma StartsWithIs(t: Bytes, p: Bytes)
    ensures StartsWith(t, p) <==> p <= t
  {
  }

  /** A prefix rule matches the subtree of its stem, an exact rule only itself. */
  lemma MatchesIsContainment(rule: Bytes, path: Bytes)
    ensures PathMatches(rule, path) <==>
            if IsPrefixRule(rule) then Segments(Stem(rule)) <= Segments(path) else Segments(rule) == Segments(path)
  {
    hide Segments, StartsWith;
    RejoinedSegments(rule);
    RejoinedSegments(path);
    SubtreeIsSegmentPrefix(Stem(rule), path);
  }

  lemma StemOfPrefixRule(stem: Bytes)
    ensures IsPrefixRule(PrefixRule(stem)) && Stem(PrefixRule(stem)) == stem
  {
  }

  /** One prefix rule grants all that another does exactly when its segments come first in the other's. */
  lemma {:induction false} InclusionIsOrder(p: Bytes, q: Bytes)
    ensures (forall path :: PathMatches(PrefixRule(q), path) ==> PathMatches(PrefixRule(p), path))
       <==> Segments(p) <= Segments(q)
  {
    StemOfPrefixRule(p);
    StemOfPrefixRule(q);
    forall path ensures PathMatches(PrefixRule(q), path) <==> Segments(q) <= Segments(path) {
      MatchesIsContainment(PrefixRule(q), path);
    }
    forall path ensures PathMatches(PrefixRule(p), path) <==> Segments(p) <= Segments(path) {
      MatchesIsContainment(PrefixRule(p), path);
    }
    hide PathMatches, Segments, Stem;
    assert PathMatches(PrefixRule(q), q);
  }

  predicate HasDotSegment(t: Bytes) {
    [DOT] in Segments(t) || [DOT, DOT] in Segments(t)
  }

  /** `validate_policy_path`. */
  predicate ValidRule(rule: Bytes) {
    var exact := Stem(rule);
    && StartsWith(exact, [SLASH])
    && !StartsWith(exact, [SLASH, SLASH])
    && BACKSLASH !in exact && QUESTION !in exact && HASH !in exact
    && !HasDotSegment(exact)
    && (STAR in rule ==> IsPrefixRule(rule))
  }

  /** No rule that passes validation opens the whole server: it misses `/` or `/a`. */
  lemma NoRuleMatchesAll(rule: Bytes)
    requires ValidRule(rule)
    ensures !PathMatches(rule, [SLASH]) || !PathMatches(rule, [SLASH, 0x61])
  {
    MatchesIsContainment(rule, [SLASH]);
    MatchesIsContainment(rule, [SLASH, 0x61]);
    var p := Stem(rule);
    assert [] + [SLASH] + [] == [SLASH] && [] + [SLASH] + [0x61] == [SLASH, 0x61] && [0x61][1..] == [];
    SegmentsConcat([], []);
    SegmentsConcat([], [0x61]);
    assert Segments([0x61]) == [[0x61] + []] + [[]][1..];
    assert Segments([SLASH, 0x61])[1] == [0x61];
    assert Segments(p) == [[]] + Segments(p[1..]);
  }

  // ----- the path state of the URL parser -----

  /** The path percent-encode set. */
  predicate Escaped(b: byte) {
    b <= SPACE || b > 0x7E || b in [0x22, HASH, 0x3C, 0x3E, QUESTION, 0x5E, 0x60, 0x7B, 0x7D]
  }

  function Hex(n: nat): byte
    requires n < 16
  {
    if n < 10 then 0x30 + n else 0x41 + n - 10
  }

  function Encoded(t: Bytes): Bytes {
    if t == [] then []
    else (if Escaped(t[0]) then [PERCENT, Hex(t[0] / 16), Hex(t[0] % 16)] else [t[0]]) + Encoded(t[1..])
  }

  /** `%2e` in either case. */
  predicate EncodedDot(t: Bytes) {
    |t| == 3 && t[0] == PERCENT && t[1] == 0x32 && t[2] in [0x65, 0x45]
  }

  predicate SingleDot(t: Bytes) {
    t == [DOT] || EncodedDot(t)
  }

  predicate DoubleDot(t: Bytes) {
    || t == [DOT, DOT]
    || (|t| == 4 && ((t[0] == DOT && EncodedDot(t[1..])) || (EncodedDot(t[..3]) && t[3] == DOT)))
    || (|t| == 6 && EncodedDot(t[..3]) && EncodedDot(t[3..]))
  }

  predicate DotSegment(t: Bytes) {
    SingleDot(t) || DoubleDot(t)
  }

  function Shorten(path: seq<Bytes>): seq<Bytes> {
    if path == [] then [] else path[..|path| - 1]
  }

  /** The path after the pieces between slashes; an ending in a dot segment leaves an empty segment. */
  function Walk(path: seq<Bytes>, pieces: seq<Bytes>): (r: seq<Bytes>)
    requires pieces != []
    ensures r != []
    decreases |pieces|
  {
    var piece := Encoded(pieces[0]);
    var end: seq<Bytes> := if |pieces| == 1 then [[]] else [];
    var next :=
      if DoubleDot(piece) then Shorten(path) + end else if SingleDot(piece) then path + end else path + [piece];
    if |pieces| == 1 then next else Walk(next, pieces[1..])
  }

  /** Each segment with a slash before it. */
  function Serialized(path: seq<Bytes>): Bytes {
    if path == [] then [] else [SLASH] + path[0] + Serialized(path[1..])
  }

  /** Backslashes count as slashes in http and https URLs. */
  function Slashed(t: Bytes): (r: Bytes)
    ensures |r| == |t| && BACKSLASH !in r
    ensures forall k :: 0 <= k < |t| ==> r[k] == t[k] || (t[k] == 0x5C && r[k] == 0x2F)
  {
    if t == [] then [] else [if t[0] == BACKSLASH then SLASH else t[0]] + Slashed(t[1..])
  }

  /** The text before the first question mark. */
  function BeforeQuery(t: Bytes): (r: Bytes)
    ensures r <= t && QUESTION !in r
    ensures QUESTION !in t ==> r == t
  {
    if t == [] || t[0] == QUESTION then [] else [t[0]] + BeforeQuery(t[1..])
  }

  /** The path of a URL, from the text after its first slash. */
  function NormalPath(t: Bytes): Bytes {
    Serialized(Walk([], Segments(Slashed(BeforeQuery(t)))))
  }

  /** A byte that a normalised path can hold. */
  predicate PathByte(b: byte) {
    !Escaped(b) && b != BACKSLASH
  }

  predicate CleanSegment(s: Bytes) {
    (forall k :: 0 <= k < |s| ==> PathByte(s[k]) && s[k] != SLASH) && !DotSegment(s)
  }

  predicate AllClean(path: seq<Bytes>) {
    forall i :: 0 <= i < |path| ==> CleanSegment(path[i])
  }

  /** A path in normal form: absolute, nothing left to encode and no dot segment, encoded or not. */
  predicate CleanPath(p: Bytes) {
    p != [] && p[0] == SLASH && AllClean(Segments(p))
  }

  lemma {:induction false} SegmentBytes(t: Bytes)
    ensures forall s, k :: s in Segments(t) && 0 <= k < |s| ==> s[k] in t && s[k] != SLASH
  {
    if t != [] {
      SegmentBytes(t[1..]);
    }
  }

  lemma {:induction false} EncodedBytes(t: Bytes)
    requires BACKSLASH !in t && SLASH !in t
    ensures forall k :: 0 <= k < |Encoded(t)| ==> PathByte(Encoded(t)[k]) && Encoded(t)[k] != SLASH
  {
    if t != [] {
      EncodedBytes(t[1..]);
    }
  }

  lemma {:induction false} WalkClean(path: seq<Bytes>, pieces: seq<Bytes>)
    requires AllClean(path) && pieces != []
    requires forall s :: s in pieces ==> BACKSLASH !in s && SLASH !in s
    ensures AllClean(Walk(path, pieces))
    decreases |pieces|
  {
    var piece := Encoded(pieces[0]);
    var end: seq<Bytes> := if |pieces| == 1 then [[]] else [];
    var next :=
      if DoubleDot(piece) then Shorten(path) + end else if SingleDot(piece) then path + end else path + [piece];
    assert CleanSegment([]);
    if !DotSegment(piece) {
      EncodedClean(pieces[0]);
    }
    assert AllClean(next);
    if |pieces| > 1 {
      WalkClean(next, pieces[1..]);
    }
  }

  lemma EncodedClean(t: Bytes)
    requires BACKSLASH !in t && SLASH !in t && !DotSegment(Encoded(t))
    ensures CleanSegment(Encoded(t))
  {
    EncodedBytes(t);
  }

  /** Splitting a serialised path gives back its segments, after the empty one before the first slash. */
  lemma {:induction false} SegmentsOfSerialized(path: seq<Bytes>)
    requires forall s :: s in path ==> SLASH !in s
    ensures Segments(Serialized(path)) == [[]] + path
  {
    if path != [] {
      var rest := Serialized(path[1..]);
      SegmentsOfSerialized(path[1..]);
      SegmentsOfPrefixed(path[0], rest);
      assert Serialized(path)[1..] == path[0] + rest;
      assert path[0] + Segments(rest)[0] == path[0] && Segments(rest)[1..] == path[1..];
    }
  }

  lemma {:induction false} SegmentsOfPrefixed(s: Bytes, t: Bytes)
    requires SLASH !in s
    ensures Segments(s + t) == [s + Segments(t)[0]] + Segments(t)[1..]
  {
    var first := Segments(t)[0];
    if s == [] {
      assert s + t == t && s + first == first;
    } else {
      assert (s + t)[1..] == s[1..] + t;
      SegmentsOfPrefixed(s[1..], t);
      assert [s[0]] + (s[1..] + first) == s + first;
    }
  }

  /** Every path the parser produces is in normal form, whatever the request. */
  lemma NormalPathClean(t: Bytes)
    ensures CleanPath(NormalPath(t))
  {
    var text := Slashed(BeforeQuery(t));
    var pieces := Segments(text);
    SegmentBytes(text);
    WalkClean([], pieces);
    var path := Walk([], pieces);
    SegmentsOfSerialized(path);
    assert CleanSegment([]);
  }

  // ----- a path in normal form stays as it is -----

  lemma {:induction false} EncodedIdentity(t: Bytes)
    requires forall k :: 0 <= k < |t| ==> !Escaped(t[k])
    ensures Encoded(t) == t
  {
    if t != [] {
      EncodedIdentity(t[1..]);
    }
  }

  lemma {:induction false} WalkIdentity(path: seq<Bytes>, pieces: seq<Bytes>)
    requires AllClean(pieces) && pieces != []
    ensures Walk(path, pieces) == path + pieces
    decreases |pieces|
  {
    assert CleanSegment(pieces[0]);
    EncodedIdentity(pieces[0]);
    if |pieces| > 1 {
      WalkIdentity(path + [pieces[0]], pieces[1..]);
      assert path + [pieces[0]] + pieces[1..] == path + pieces;
    }
  }

  lemma {:induction false} SerializedIsRejoined(s: seq<Bytes>)
    requires s != []
    ensures Serialized(s) == [SLASH] + Rejoined(s)
    decreases |s|
  {
    if |s| == 1 {
      assert Serialized(s[1..]) == [];
    } else {
      SerializedIsRejoined(s[1..]);
    }
  }

  lemma SerializedSegments(t: Bytes)
    ensures Serialized(Segments(t)) == [SLASH] + t
  {
    SerializedIsRejoined(Segments(t));
    RejoinedSegments(t);
  }

  lemma {:induction false} BytesOfSegments(t: Bytes)
    requires forall s, k :: s in Segments(t) && 0 <= k < |s| ==> PathByte(s[k])
    ensures forall k :: 0 <= k < |t| ==> PathByte(t[k])
  {
    if t != [] {
      var rest := Segments(t[1..]);
      forall s, k | s in rest && 0 <= k < |s| ensures PathByte(s[k]) {
        if t[0] != SLASH && s == rest[0] {
          assert Segments(t)[0][k + 1] == s[k];
        } else if t[0] != SLASH {
          assert s in Segments(t)[1..];
        } else {
          assert s in Segments(t);
        }
      }
      BytesOfSegments(t[1..]);
      assert t[0] != SLASH ==> Segments(t)[0][0] == t[0];
    }
  }

  lemma CleanBytes(p: Bytes)
    requires CleanPath(p)
    ensures forall k :: 0 <= k < |p| ==> PathByte(p[k])
  {
    forall s, k | s in Segments(p) && 0 <= k < |s| ensures PathByte(s[k]) {
      assert CleanSegment(s);
    }
    BytesOfSegments(p);
  }

  lemma {:induction false} NothingToReplace(t: Bytes)
    requires QUESTION !in t && BACKSLASH !in t
    ensures Slashed(BeforeQuery(t)) == t
  {
  }

  lemma ClearOfMarks(p: Bytes)
    requires forall k :: 0 <= k < |p| ==> PathByte(p[k])
    ensures QUESTION !in p && BACKSLASH !in p && HASH !in p && TAB !in p
  {
  }

  lemma TailClean(p: Bytes)
    requires CleanPath(p)
    ensures AllClean(Segments(p[1..]))
  {
    assert Segments(p)[1..] == Segments(p[1..]);
  }

  /** Parsing a path in normal form changes nothing. */
  lemma NormalPathIdentity(p: Bytes)
    requires CleanPath(p)
    ensures NormalPath(p[1..]) == p
  {
    hide Segments, Walk, Serialized, PathByte, AllClean, Slashed, BeforeQuery;
    CleanBytes(p);
    ClearOfMarks(p);
    var t := p[1..];
    NothingToReplace(t);
    TailClean(p);
    WalkIdentity([], Segments(t));
    SerializedSegments(t);
    assert [] + Segments(t) == Segments(t);
  }
}
