/** What the path state of the URL parser makes of dot segments and of bytes to encode, told on texts. */
module DotSegments {
  import opened Bytes
  import opened Policy

  // ----- spellings -----

  /** A dot, plain or percent-encoded. */
  predicate OneDot(d: Bytes) {
    d == [0x2E] || d == [0x25, 0x32, 0x65] || d == [0x25, 0x32, 0x45]
  }

  predicate TwoDots(d: Bytes) {
    exists n :: 0 <= n <= |d| && OneDot(d[..n]) && OneDot(d[n..])
  }

  /** Every percent sign begins an encoded dot. */
  predicate OnlyDotsEncoded(w: Bytes) {
    forall k :: 0 <= k < |w| && w[k] == PERCENT ==> k + 2 < |w| && w[k + 1] == 0x32 && w[k + 2] in [0x65, 0x45]
  }

  /** No byte to encode becomes an encoded dot. */
  lemma EscapeIsNoDot(b: byte)
    requires Escaped(b)
    ensures Hex(b / 16) == 0x32 ==> Hex(b % 16) !in [0x65, 0x45]
  {
  }

  lemma EncodedHead(x: Bytes)
    requires x != []
    ensures Escaped(x[0]) ==> |Encoded(x)| >= 3 && Encoded(x)[..3] == [PERCENT, Hex(x[0] / 16), Hex(x[0] % 16)]
    ensures !Escaped(x[0]) ==> Encoded(x) == [x[0]] + Encoded(x[1..])
  {
  }

  lemma PercentFirst(w: Bytes)
    requires OnlyDotsEncoded(w) && |w| >= 3
    ensures w[..3][0] == PERCENT ==> w[..3][1] == 0x32 && w[..3][2] in [0x65, 0x45]
  {
  }

  lemma FirstKept(x: Bytes)
    requires x != [] && OnlyDotsEncoded(Encoded(x))
    ensures !Escaped(x[0])
  {
    hide Encoded, Escaped, Hex, OnlyDotsEncoded;
    EncodedHead(x);
    if Escaped(x[0]) {
      PercentFirst(Encoded(x));
      EscapeIsNoDot(x[0]);
    }
  }

  lemma {:induction false} EncodedBack(x: Bytes)
    requires OnlyDotsEncoded(Encoded(x))
    ensures Encoded(x) == x
  {
    if x != [] {
      var w, rest := Encoded(x), Encoded(x[1..]);
      FirstKept(x);
      EncodedHead(x);
      assert w[1..] == rest;
      forall k | 0 <= k < |rest| && rest[k] == PERCENT
        ensures k + 2 < |rest| && rest[k + 1] == 0x32 && rest[k + 2] in [0x65, 0x45]
      {
        assert w[k + 1] == rest[k];
      }
      EncodedBack(x[1..]);
    }
  }

  lemma DotsAre(d: Bytes)
    ensures SingleDot(d) <==> OneDot(d)
    ensures DoubleDot(d) <==> TwoDots(d)
    ensures DotSegment(d) ==> OnlyDotsEncoded(d)
  {
    SinglesAre(d);
    if DoubleDot(d) {
      DoubleParts(d);
    }
    if n :| 0 <= n <= |d| && OneDot(d[..n]) && OneDot(d[n..]) {
      DoubleFrom(d, n);
    }
    if DotSegment(d) { DotsClean(d); }
  }

  lemma SinglesAre(d: Bytes)
    ensures SingleDot(d) <==> OneDot(d)
  {
  }

  lemma DoubleParts(d: Bytes)
    requires DoubleDot(d)
    ensures TwoDots(d)
  {
    var n := if d[0] == DOT then 1 else 3;
    assert OneDot(d[..n]) && OneDot(d[n..]);
  }

  lemma DoubleFrom(d: Bytes, n: nat)
    requires n <= |d| && OneDot(d[..n]) && OneDot(d[n..])
    ensures DoubleDot(d)
  {
    assert d == d[..n] + d[n..];
  }

  lemma DotsClean(d: Bytes)
    requires DotSegment(d)
    ensures OnlyDotsEncoded(d)
  {
  }

  /** The parser takes a segment for one or two dots exactly if it is spelled so. */
  lemma DotsExactly(x: Bytes)
    ensures SingleDot(Encoded(x)) <==> OneDot(x)
    ensures DoubleDot(Encoded(x)) <==> TwoDots(x)
    ensures !OneDot(x) || !TwoDots(x)
  {
    DotsAre(Encoded(x));
    DotsAre(x);
    if DotSegment(Encoded(x)) {
      EncodedBack(x);
    }
    if DotSegment(x) {
      DotBytes(x);
      EncodedIdentity(x);
    }
  }

  lemma DotBytes(x: Bytes)
    requires DotSegment(x)
    ensures forall k :: 0 <= k < |x| ==> !Escaped(x[k])
  {
  }

  // ----- the walk, segment by segment -----

  function Enter(path: seq<Bytes>, piece: Bytes): seq<Bytes> {
    if DoubleDot(Encoded(piece)) then Shorten(path) else if SingleDot(Encoded(piece)) then path else path + [Encoded(piece)]
  }

  function WalkOn(path: seq<Bytes>, pieces: seq<Bytes>): seq<Bytes>
    decreases |pieces|
  {
    if pieces == [] then path else WalkOn(Enter(path, pieces[0]), pieces[1..])
  }

  lemma WalkHead(path: seq<Bytes>, piece: Bytes, b: seq<Bytes>)
    requires b != []
    ensures Walk(path, [piece] + b) == Walk(Enter(path, piece), b)
  {
    hide DoubleDot, SingleDot, Encoded, Shorten;
    assert ([piece] + b)[1..] == b;
    assert path + [] == path && Shorten(path) + [] == Shorten(path);
  }

  lemma {:induction false} WalkSplit(path: seq<Bytes>, a: seq<Bytes>, b: seq<Bytes>)
    requires b != []
    ensures Walk(path, a + b) == Walk(WalkOn(path, a), b)
    decreases |a|
  {
    hide Walk, Enter;
    if a == [] {
      assert a + b == b;
    } else {
      assert a + b == [a[0]] + (a[1..] + b);
      WalkHead(path, a[0], a[1..] + b);
      WalkSplit(Enter(path, a[0]), a[1..], b);
    }
  }

  /** A segment and a way up again, in front of anything. */
  lemma WalkUp(path: seq<Bytes>, x: Bytes, d: Bytes, b: seq<Bytes>)
    requires !OneDot(x) && !TwoDots(x) && TwoDots(d) && b != []
    ensures Walk(path, [x] + ([d] + b)) == Walk(path, b)
  {
    DotsExactly(x);
    DotsExactly(d);
    hide DoubleDot, SingleDot, Encoded, TwoDots;
    WalkSplit(path, [x], [d] + b);
    WalkSplit(path + [Encoded(x)], [d], b);
    assert WalkOn(path, [x]) == path + [Encoded(x)] by { OneStep(path, x); }
    assert WalkOn(path + [Encoded(x)], [d]) == path by { OneStep(path + [Encoded(x)], d); }
  }

  lemma OneStep(path: seq<Bytes>, piece: Bytes)
    ensures WalkOn(path, [piece]) == Enter(path, piece)
  {
    assert [piece][1..] == [];
  }

  /** A way up from the root, or a single dot, in front of anything. */
  lemma WalkStay(path: seq<Bytes>, d: Bytes, b: seq<Bytes>)
    requires (OneDot(d) || (TwoDots(d) && path == [])) && b != []
    ensures Walk(path, [d] + b) == Walk(path, b)
  {
    DotsExactly(d);
    hide DoubleDot, SingleDot, Encoded, TwoDots;
    WalkSplit(path, [d], b);
    OneStep(path, d);
  }

  /** The same as last segments: they leave an empty one. */
  lemma WalkEnd(path: seq<Bytes>, x: Bytes, d: Bytes)
    ensures Walk(path, [[]]) == path + [[]]
    ensures OneDot(d) ==> Walk(path, [d]) == path + [[]]
    ensures TwoDots(d) ==> Walk([], [d]) == [[]]
    ensures !OneDot(x) && !TwoDots(x) && TwoDots(d) ==> Walk(path, [x] + [d]) == path + [[]]
  {
    DotsExactly(x);
    DotsExactly(d);
    assert Encoded([]) == [];
    hide DoubleDot, SingleDot, Encoded, TwoDots;
    assert !DoubleDot([]) && !SingleDot([]) by { EmptyIsNoDot(); }
    WalkSplit(path, [x], [d]);
    OneStep(path, x);
    var none: seq<Bytes> := [];
    assert none + [[]] == [[]];
  }

  lemma EmptyIsNoDot()
    ensures !DoubleDot([]) && !SingleDot([])
  {
  }

  // ----- the text of a path -----

  /** Empty, or up to and including a slash. */
  predicate UpToSlash(t: Bytes) {
    t == [] || t[|t| - 1] == SLASH
  }

  /** The end of the path: nothing more, or a query. */
  predicate AtEnd(t: Bytes) {
    t == [] || t[0] == QUESTION
  }

  /** One segment as written. */
  predicate Plain(x: Bytes) {
    SLASH !in x && BACKSLASH !in x && QUESTION !in x
  }

  function PathText(t: Bytes): Bytes {
    Slashed(BeforeQuery(t))
  }

  lemma HeadKept(t: Bytes)
    requires t != []
    ensures t[0] != QUESTION ==> BeforeQuery(t) == [t[0]] + BeforeQuery(t[1..])
    ensures t[0] != BACKSLASH ==> Slashed(t) == [t[0]] + Slashed(t[1..])
  {
  }

  lemma {:induction false} BeforeQueryConcat(a: Bytes, b: Bytes)
    requires QUESTION !in a
    ensures BeforeQuery(a + b) == a + BeforeQuery(b)
  {
    hide BeforeQuery;
    if a == [] {
      assert a + b == b;
    } else {
      assert (a + b)[1..] == a[1..] + b;
      HeadKept(a + b);
      BeforeQueryConcat(a[1..], b);
      assert a == [a[0]] + a[1..];
    }
  }

  lemma {:induction false} SlashedConcat(a: Bytes, b: Bytes)
    requires BACKSLASH !in a
    ensures Slashed(a + b) == a + Slashed(b)
  {
    hide Slashed;
    if a == [] {
      assert a + b == b;
    } else {
      assert (a + b)[1..] == a[1..] + b;
      HeadKept(a + b);
      SlashedConcat(a[1..], b);
      assert a == [a[0]] + a[1..];
    }
  }

  lemma PathTextConcat(a: Bytes, b: Bytes)
    requires QUESTION !in a && BACKSLASH !in a
    ensures PathText(a + b) == a + PathText(b)
  {
    hide BeforeQuery, Slashed;
    BeforeQueryConcat(a, b);
    SlashedConcat(a, BeforeQuery(b));
  }

  /** The segments in front of the last slash of `a`. */
  function Ahead(a: Bytes): seq<Bytes>
    requires UpToSlash(a)
  {
    if a == [] then [] else Segments(a[..|a| - 1])
  }

  lemma SegmentsAhead(a: Bytes, b: Bytes)
    requires UpToSlash(a)
    ensures Segments(a + b) == Ahead(a) + Segments(b)
  {
    hide Segments;
    if a == [] {
      assert a + b == b;
    } else {
      assert a + b == a[..|a| - 1] + [SLASH] + b;
      SegmentsConcat(a[..|a| - 1], b);
    }
  }

  lemma SegmentAlone(x: Bytes)
    requires SLASH !in x
    ensures Segments(x) == [x]
  {
    SegmentsOfPrefixed(x, []);
    assert x + [] == x;
  }

  lemma SegmentFirst(x: Bytes, b: Bytes)
    requires SLASH !in x
    ensures Segments(x + [SLASH] + b) == [x] + Segments(b)
  {
    SegmentAlone(x);
    SegmentsConcat(x, b);
  }

  /** The path of a text whose front part is settled. */
  lemma NormalPathFrom(front: Bytes, b: Bytes)
    requires UpToSlash(front) && QUESTION !in front && BACKSLASH !in front
    ensures NormalPath(front + b) == Serialized(Walk(WalkOn([], Ahead(front)), Segments(PathText(b))))
  {
    hide Segments, Walk, WalkOn, Serialized, Ahead, BeforeQuery, Slashed;
    PathTextConcat(front, b);
    SegmentsAhead(front, PathText(b));
    WalkSplit([], Ahead(front), Segments(PathText(b)));
  }

  lemma SpelledPlain(d: Bytes)
    requires OneDot(d) || TwoDots(d)
    ensures Plain(d)
  {
    DotsAre(d);
    hide TwoDots;
  }

  /** A segment and any spelling of `..` behind it cancel out. */
  lemma UpCancels(front: Bytes, x: Bytes, d: Bytes, rest: Bytes)
    requires UpToSlash(front) && QUESTION !in front && BACKSLASH !in front
    requires Plain(x) && !OneDot(x) && !TwoDots(x) && TwoDots(d)
    ensures NormalPath(front + (x + [SLASH] + (d + [SLASH] + rest))) == NormalPath(front + rest)
  {
    SpelledPlain(d);
    hide NormalPath, Segments, Walk, WalkOn, TwoDots, PathText, Ahead, OneDot;
    var b := d + [SLASH] + rest;
    NormalPathFrom(front, x + [SLASH] + b);
    NormalPathFrom(front, rest);
    PathTextConcat(x + [SLASH], b);
    PathTextConcat(d + [SLASH], rest);
    SegmentFirst(x, PathText(b));
    SegmentFirst(d, PathText(rest));
    WalkUp(WalkOn([], Ahead(front)), x, d, Segments(PathText(rest)));
  }

  /** Any spelling of `..` at the root is dropped. */
  lemma UpAtRoot(d: Bytes, rest: Bytes)
    requires TwoDots(d)
    ensures NormalPath(d + [SLASH] + rest) == NormalPath(rest)
  {
    SpelledPlain(d);
    hide NormalPath, Segments, Walk, TwoDots, PathText;
    NormalPathFrom([], d + [SLASH] + rest);
    NormalPathFrom([], rest);
    assert [] + (d + [SLASH] + rest) == d + [SLASH] + rest && [] + rest == rest;
    PathTextConcat(d + [SLASH], rest);
    SegmentFirst(d, PathText(rest));
    WalkStay([], d, Segments(PathText(rest)));
  }

  /** A single dot is dropped. */
  lemma DotDropped(front: Bytes, d: Bytes, rest: Bytes)
    requires UpToSlash(front) && QUESTION !in front && BACKSLASH !in front && OneDot(d)
    ensures NormalPath(front + (d + [SLASH] + rest)) == NormalPath(front + rest)
  {
    SpelledPlain(d);
    hide NormalPath, Segments, Walk, WalkOn, PathText, Ahead, OneDot;
    NormalPathFrom(front, d + [SLASH] + rest);
    NormalPathFrom(front, rest);
    PathTextConcat(d + [SLASH], rest);
    SegmentFirst(d, PathText(rest));
    WalkStay(WalkOn([], Ahead(front)), d, Segments(PathText(rest)));
  }

  lemma EndText(x: Bytes, end: Bytes)
    requires AtEnd(end) && Plain(x)
    ensures PathText(x + end) == x && PathText(end) == []
  {
    PathTextConcat(x, end);
  }

  /** At the end of the path, both leave an empty segment. */
  lemma DotsAtEnd(front: Bytes, x: Bytes, d: Bytes, end: Bytes)
    requires UpToSlash(front) && QUESTION !in front && BACKSLASH !in front && AtEnd(end)
    requires Plain(x) && !OneDot(x) && !TwoDots(x)
    ensures OneDot(d) ==> NormalPath(front + (d + end)) == NormalPath(front + end)
    ensures TwoDots(d) ==> NormalPath(front + (x + [SLASH] + (d + end))) == NormalPath(front + end)
    ensures TwoDots(d) ==> NormalPath(d + end) == NormalPath(end)
  {
    if OneDot(d) || TwoDots(d) {
      SpelledPlain(d);
      hide NormalPath, Segments, Walk, WalkOn, TwoDots, PathText, Ahead, OneDot, AtEnd;
      var path := WalkOn([], Ahead(front));
      NormalPathFrom(front, d + end);
      NormalPathFrom(front, x + [SLASH] + (d + end));
      NormalPathFrom(front, end);
      NormalPathFrom([], d + end);
      NormalPathFrom([], end);
      assert [] + (d + end) == d + end && [] + end == end;
      EndText(d, end);
      PathTextConcat(x + [SLASH], d + end);
      SegmentFirst(x, d);
      SegmentAlone(d);
      SegmentAlone([]);
      WalkEnd(path, x, d);
      WalkEnd(WalkOn([], Ahead([])), x, d);
      NothingAhead();
    }
  }

  lemma NothingAhead()
    ensures WalkOn([], Ahead([])) == []
  {
  }

  // ----- without dots -----

  function AllEncoded(s: seq<Bytes>): seq<Bytes> {
    if s == [] then [] else [Encoded(s[0])] + AllEncoded(s[1..])
  }

  lemma {:induction false} WalkPlain(path: seq<Bytes>, pieces: seq<Bytes>)
    requires pieces != [] && forall s :: s in pieces ==> !OneDot(s) && !TwoDots(s)
    ensures Walk(path, pieces) == path + AllEncoded(pieces)
    decreases |pieces|
  {
    DotsExactly(pieces[0]);
    hide DoubleDot, SingleDot, Encoded, OneDot, TwoDots;
    if |pieces| == 1 {
      assert AllEncoded(pieces[1..]) == [];
    } else {
      WalkPlain(path + [Encoded(pieces[0])], pieces[1..]);
    }
  }

  /** A path without dot segments keeps its segments, each encoded. */
  lemma {:induction false} PlainPath(t: Bytes)
    requires QUESTION !in t && BACKSLASH !in t && forall s :: s in Segments(t) ==> !OneDot(s) && !TwoDots(s)
    ensures NormalPath(t) == Serialized(AllEncoded(Segments(t)))
  {
    hide Walk, Segments, Serialized, OneDot, TwoDots;
    PathTextConcat(t, []);
    assert t + [] == t && PathText([]) == [];
    WalkPlain([], Segments(t));
    assert [] + AllEncoded(Segments(t)) == AllEncoded(Segments(t));
  }

  // ----- percent-encoding -----

  function Digit(b: byte): int {
    if 0x30 <= b < 0x3A then b - 0x30 else if 0x41 <= b < 0x47 then b - 0x41 + 10
    else if 0x61 <= b < 0x67 then b - 0x61 + 10 else -1
  }

  /** Percent-decoding, by section 2.1 of RFC 3986. */
  function Decoded(t: Bytes): Bytes {
    if t == [] then []
    else if t[0] == PERCENT && |t| >= 3 && Digit(t[1]) >= 0 && Digit(t[2]) >= 0 then
      [(Digit(t[1]) * 16 + Digit(t[2])) as byte] + Decoded(t[3..])
    else [t[0]] + Decoded(t[1..])
  }

  /** The visible characters of ASCII but nine are kept: the path percent-encode set of the URL Standard. */
  lemma KeptExactly(b: byte)
    ensures var c := b as char;
            !Escaped(b) <==> '!' <= c <= '~' && c != '\"' && c != '#' && c != '<' && c != '>' && c != '?' && c != '^' && c != '`'
                             && c != '{' && c != '}'
  {
  }

  /** Two upper-case hexadecimal digits for a byte. */
  lemma HexDigit(b: byte)
    ensures Digit(Hex(b / 16)) == b / 16 && Digit(Hex(b % 16)) == b % 16
    ensures Hex(b / 16) < 0x47 && Hex(b % 16) < 0x47
  {
  }

  lemma DigitsKept(b: byte)
    ensures Digit(b) >= 0 ==> !Escaped(b) && b != PERCENT
  {
  }

  /** A percent sign with two hexadecimal digits behind it. */
  predicate StartsEscape(t: Bytes) {
    |t| >= 3 && t[0] == PERCENT && Digit(t[1]) >= 0 && Digit(t[2]) >= 0
  }

  lemma DecodedEscape(a: byte, b: byte, rest: Bytes)
    requires Digit(a) >= 0 && Digit(b) >= 0
    ensures Decoded([PERCENT, a, b] + rest) == [(Digit(a) * 16 + Digit(b)) as byte] + Decoded(rest)
  {
    assert ([PERCENT, a, b] + rest)[3..] == rest;
  }

  lemma DecodedByte(t: Bytes)
    requires t != [] && !StartsEscape(t)
    ensures Decoded(t) == [t[0]] + Decoded(t[1..])
  {
  }

  lemma EncodedByte(b: byte, rest: Bytes)
    ensures Encoded([b] + rest) == (if Escaped(b) then [PERCENT, Hex(b / 16), Hex(b % 16)] else [b]) + Encoded(rest)
  {
    assert ([b] + rest)[1..] == rest;
  }

  /** What the parser encodes decodes to what was meant. */
  lemma {:induction false} EncodedDecodes(t: Bytes)
    ensures Decoded(Encoded(t)) == Decoded(t)
    decreases |t|
  {
    hide Encoded, Decoded, Escaped, Hex, Digit;
    if t == [] {
      assert Encoded(t) == [] by { NothingEncoded(); }
    } else if Escaped(t[0]) {
      EscapedDecodes(t[0], t[1..]);
      EncodedDecodes(t[1..]);
      assert t == [t[0]] + t[1..];
    } else if StartsEscape(t) {
      EscapeKept(t[1], t[2], t[3..]);
      EncodedDecodes(t[3..]);
      assert t == [PERCENT, t[1], t[2]] + t[3..];
    } else {
      EncodedByte(t[0], t[1..]);
      assert t == [t[0]] + t[1..];
      NoNewEscape(t);
      DecodedByte(t);
      DecodedByte(Encoded(t));
      EncodedDecodes(t[1..]);
    }
  }

  lemma NothingEncoded()
    ensures Encoded([]) == []
  {
  }

  lemma EscapedDecodes(b: byte, rest: Bytes)
    requires Escaped(b)
    ensures Decoded(Encoded([b] + rest)) == [b] + Decoded(Encoded(rest)) && Decoded([b] + rest) == [b] + Decoded(rest)
  {
    HexDigit(b);
    hide Encoded, Decoded, Digit, Hex;
    EncodedByte(b, rest);
    DecodedEscape(Hex(b / 16), Hex(b % 16), Encoded(rest));
    DecodedByte([b] + rest);
    assert ([b] + rest)[1..] == rest;
  }

  lemma PercentKept()
    ensures !Escaped(PERCENT)
  {
  }

  lemma EscapeKept(a: byte, b: byte, rest: Bytes)
    requires Digit(a) >= 0 && Digit(b) >= 0
    ensures Encoded([PERCENT, a, b] + rest) == [PERCENT, a, b] + Encoded(rest)
    ensures Decoded([PERCENT, a, b] + Encoded(rest)) == Decoded([PERCENT, a, b])[..1] + Decoded(Encoded(rest))
    ensures Decoded([PERCENT, a, b] + rest) == Decoded([PERCENT, a, b])[..1] + Decoded(rest)
  {
    hide Encoded, Decoded, Digit, Hex, Escaped;
    DigitsKept(a);
    DigitsKept(b);
    PercentKept();
    EncodedByte(b, rest);
    EncodedByte(a, [b] + rest);
    EncodedByte(PERCENT, [a] + ([b] + rest));
    assert [PERCENT, a, b] + rest == [PERCENT] + ([a] + ([b] + rest));
    DecodedEscape(a, b, rest);
    DecodedEscape(a, b, Encoded(rest));
    DecodedEscape(a, b, []);
    assert [PERCENT, a, b] + [] == [PERCENT, a, b];
  }

  /** Encoding puts no two hexadecimal digits behind a percent sign that had none. */
  lemma NoNewEscape(t: Bytes)
    requires t != [] && !Escaped(t[0]) && !StartsEscape(t)
    ensures Encoded(t) != [] && Encoded(t)[0] == t[0] && Encoded(t)[1..] == Encoded(t[1..]) && !StartsEscape(Encoded(t))
  {
    if |t| >= 2 {
      assert Encoded(t) == [t[0]] + Encoded(t[1..]);
      if !Escaped(t[1]) {
        assert Encoded(t[1..]) == [t[1]] + Encoded(t[1..][1..]);
        if |t| >= 3 { assert t[1..][1..][0] == t[2]; }
      }
    }
  }
}
