/** UTF-8 by code points (section 3 of RFC 3629), and what the byte tables and lossy decoding owe to it. */
module Scalars {
  import opened Bytes
  import opened Utf8

  /** A Unicode scalar value: any code point but the surrogates. */
  type Scalar = c: nat | c <= 0x10FFFF && !(0xD800 <= c < 0xE000)

  /** Six bits to a continuation byte, the rest behind the mark of the first byte. */
  function Utf8Of(c: Scalar): (r: Bytes)
    ensures 1 <= |r| <= 4
  {
    if c < 0x80 then [c]
    else if c < 0x800 then [0xC0 + c / 64, 0x80 + c % 64]
    else if c < 0x10000 then [0xE0 + c / 4096, 0x80 + c / 64 % 64, 0x80 + c % 64]
    else [0xF0 + c / 262144, 0x80 + c / 4096 % 64, 0x80 + c / 64 % 64, 0x80 + c % 64]
  }

  function Encoded(cs: seq<Scalar>): Bytes {
    if cs == [] then [] else Utf8Of(cs[0]) + Encoded(cs[1..])
  }

  /** The bytes begin the encoding of some scalar value. */
  ghost predicate Begins(p: Bytes) {
    exists c: Scalar :: p <= Utf8Of(c)
  }

  // ----- characters are the encodings of scalar values -----

  lemma EncodingIsChar(c: Scalar)
    ensures CharLen(Utf8Of(c)) == |Utf8Of(c)|
  {
    if c < 0x80 {
    } else if c < 0x800 {
    } else if c < 0x10000 {
      ThreeBytes(c);
    } else {
      FourBytes(c);
    }
  }

  lemma ThreeBytes(c: Scalar)
    requires 0x800 <= c < 0x10000
    ensures 0xE0 <= 0xE0 + c / 4096 < 0xF0 && Second(0xE0 + c / 4096, 0x80 + c / 64 % 64)
  {
    var lead, mid, low := c / 4096, c / 64 % 64, c % 64;
    assert c == lead * 4096 + mid * 64 + low;
  }

  lemma FourBytes(c: Scalar)
    requires 0x10000 <= c
    ensures 0xF0 <= 0xF0 + c / 262144 < 0xF5 && Second(0xF0 + c / 262144, 0x80 + c / 4096 % 64)
  {
    var lead, next, mid, low := c / 262144, c / 4096 % 64, c / 64 % 64, c % 64;
    assert c == lead * 262144 + next * 4096 + mid * 64 + low;
  }

  /** The length of a character does not depend on what follows. */
  lemma StartsWithEncoding(c: Scalar, t: Bytes)
    requires Utf8Of(c) <= t
    ensures CharLen(t) == |Utf8Of(c)|
  {
    EncodingIsChar(c);
    var r := Utf8Of(c);
    assert t == r + t[|r|..];
    CharLenExtend(r, t[|r|..]);
  }

  /** Every character the tables accept is the encoding of a scalar value. */
  lemma CharIsEncoding(t: Bytes) returns (c: Scalar)
    requires CharLen(t) > 0
    ensures Utf8Of(c) == t[..CharLen(t)]
  {
    if CharLen(t) == 1 {
      c := t[0];
    } else if CharLen(t) == 2 {
      c := FromTwo(t[0] as nat - 0xC0, t[1] as nat - 0x80);
    } else if CharLen(t) == 3 {
      c := FromThree(t[0] - 0xE0, t[1] - 0x80, t[2] - 0x80);
    } else {
      c := FromFour(t[0] - 0xF0, t[1] - 0x80, t[2] - 0x80, t[3] - 0x80);
    }
  }

  lemma FromTwo(lead: nat, low: nat) returns (c: Scalar)
    requires 2 <= lead < 32 && low < 64
    ensures Utf8Of(c) == [0xC0 + lead, 0x80 + low]
  {
    var n := lead * 64 + low;
    assert n / 64 == lead && n % 64 == low;
    c := n;
  }

  lemma FromThree(lead: nat, mid: nat, low: nat) returns (c: Scalar)
    requires lead < 16 && mid < 64 && low < 64 && Second(0xE0 + lead, 0x80 + mid)
    ensures Utf8Of(c) == [0xE0 + lead, 0x80 + mid, 0x80 + low]
  {
    var n := lead * 4096 + mid * 64 + low;
    assert n / 4096 == lead && n / 64 == lead * 64 + mid && n / 64 % 64 == mid && n % 64 == low;
    c := n;
  }

  lemma FromFour(lead: nat, next: nat, mid: nat, low: nat) returns (c: Scalar)
    requires lead < 5 && next < 64 && mid < 64 && low < 64 && Second(0xF0 + lead, 0x80 + next)
    ensures Utf8Of(c) == [0xF0 + lead, 0x80 + next, 0x80 + mid, 0x80 + low]
  {
    FourDigits(lead, next, mid, low);
    c := lead * 262144 + next * 4096 + mid * 64 + low;
  }

  lemma FourDigits(lead: nat, next: nat, mid: nat, low: nat)
    requires next < 64 && mid < 64 && low < 64
    ensures var n := lead * 262144 + next * 4096 + mid * 64 + low;
            n / 262144 == lead && n / 4096 % 64 == next && n / 64 % 64 == mid && n % 64 == low
  {
    var n := lead * 262144 + next * 4096 + mid * 64 + low;
    assert n / 64 == lead * 4096 + next * 64 + mid;
    assert n / 4096 == lead * 64 + next;
  }

  lemma CharStarts(t: Bytes)
    ensures CharLen(t) > 0 <==> exists c: Scalar :: Utf8Of(c) <= t
  {
    if CharLen(t) > 0 {
      var c := CharIsEncoding(t);
      assert Utf8Of(c) <= t;
    }
    if c: Scalar :| Utf8Of(c) <= t {
      StartsWithEncoding(c, t);
    }
  }

  // ----- well-formed text -----

  lemma {:induction false} EncodedWellFormed(cs: seq<Scalar>)
    ensures WellFormed(Encoded(cs))
  {
    if cs != [] {
      var r, rest := Utf8Of(cs[0]), Encoded(cs[1..]);
      StartsWithEncoding(cs[0], r + rest);
      EncodedWellFormed(cs[1..]);
      assert (r + rest)[|r|..] == rest;
    }
  }

  lemma EncodedCons(c: Scalar, rest: seq<Scalar>)
    ensures Encoded([c] + rest) == Utf8Of(c) + Encoded(rest)
  {
    assert ([c] + rest)[1..] == rest;
  }

  /** The first scalar value of a well-formed text, and the rest. */
  lemma FirstScalar(t: Bytes) returns (c: Scalar, rest: Bytes)
    requires WellFormed(t) && t != []
    ensures t == Utf8Of(c) + rest && WellFormed(rest)
  {
    hide CharLen, Utf8Of;
    c := CharIsEncoding(t);
    rest := t[CharLen(t)..];
  }

  lemma {:induction false} WellFormedEncoded(t: Bytes) returns (cs: seq<Scalar>)
    requires WellFormed(t)
    ensures t == Encoded(cs)
    decreases |t|
  {
    hide WellFormed, Utf8Of;
    if t == [] {
      cs := [];
    } else {
      var c, rest := FirstScalar(t);
      cs := WellFormedEncoded(rest);
      EncodedCons(c, cs);
      cs := [c] + cs;
    }
  }

  /** A text is well-formed if and only if it encodes some scalar values. */
  lemma {:induction false} WellFormedExactly(t: Bytes)
    ensures WellFormed(t) <==> exists cs :: t == Encoded(cs)
  {
    if WellFormed(t) {
      var cs := WellFormedEncoded(t);
    }
    if cs :| t == Encoded(cs) {
      EncodedWellFormed(cs);
    }
  }

  // ----- lossy decoding -----

  /** The first bytes that one U+FFFD stands for: as many as still begin some encoding, at least one. */
  ghost predicate Piece(t: Bytes, n: nat) {
    1 <= n <= |t| && (n > 1 ==> Begins(t[..n])) && (n < |t| ==> !Begins(t[..n + 1]))
  }

  /** What the tables say of bytes that begin an encoding. */
  predicate Pattern(p: Bytes) {
    p != [] &&
    if p[0] < 0x80 then |p| == 1
    else if 0xC2 <= p[0] < 0xE0 then |p| <= 2 && (|p| >= 2 ==> Continuation(p[1]))
    else if 0xE0 <= p[0] < 0xF0 then
      |p| <= 3 && (|p| >= 2 ==> Second(p[0], p[1])) && (|p| >= 3 ==> Continuation(p[2]))
    else if 0xF0 <= p[0] < 0xF5 then
      |p| <= 4 && (|p| >= 2 ==> Second(p[0], p[1])) && (|p| >= 3 ==> Continuation(p[2])) && (|p| >= 4 ==> Continuation(p[3]))
    else false
  }

  lemma BeginsPattern(p: Bytes)
    requires Begins(p) && p != []
    ensures Pattern(p)
  {
    var c: Scalar :| p <= Utf8Of(c);
    EncodingIsChar(c);
    hide Utf8Of;
  }

  lemma PatternBegins(p: Bytes)
    requires Pattern(p)
    ensures Begins(p)
  {
    var t := p + Rest(p);
    var c := CharIsEncoding(t);
    assert p <= Utf8Of(c);
  }

  /** Bytes that complete a character. */
  function Rest(p: Bytes): (r: Bytes)
    requires Pattern(p)
    ensures CharLen(p + r) == |p + r|
  {
    var second: Bytes := if p[0] == 0xED || p[0] == 0xF4 then [0x80] else [0xBF];
    if p[0] < 0x80 then []
    else if p[0] < 0xE0 then if |p| == 1 then [0x80] else []
    else if p[0] < 0xF0 then if |p| == 1 then second + [0x80] else if |p| == 2 then [0x80] else []
    else if |p| == 1 then second + [0x80, 0x80] else if |p| == 2 then [0x80, 0x80] else if |p| == 3 then [0x80] else []
  }

  lemma BadLenPattern(t: Bytes)
    requires t != [] && CharLen(t) == 0
    ensures var n := BadLen(t);
            (n > 1 ==> Pattern(t[..n])) && (n < |t| ==> !Pattern(t[..n + 1]))
  {
  }

  lemma BadLenIsPiece(t: Bytes)
    requires t != [] && CharLen(t) == 0
    ensures Piece(t, BadLen(t))
  {
    hide Begins, Pattern, CharLen, BadLen;
    var n := BadLen(t);
    BadLenPattern(t);
    if n > 1 { PatternBegins(t[..n]); }
    if n < |t| && Begins(t[..n + 1]) { BeginsPattern(t[..n + 1]); }
  }

  lemma PieceUnique(t: Bytes, m: nat, n: nat)
    requires Piece(t, m) && Piece(t, n)
    ensures m == n
  {
    if m < n { ShorterBegins(t, m + 1, n); }
    if n < m { ShorterBegins(t, n + 1, m); }
  }

  lemma ShorterBegins(t: Bytes, m: nat, n: nat)
    requires m <= n <= |t| && Begins(t[..n])
    ensures Begins(t[..m])
  {
    var c: Scalar :| t[..n] <= Utf8Of(c);
    assert t[..m] <= Utf8Of(c);
  }

  /** Lossy decoding keeps every encoded scalar value. */
  lemma LossyKeeps(c: Scalar, t: Bytes)
    ensures Lossy(Utf8Of(c) + t) == Utf8Of(c) + Lossy(t)
  {
    var r := Utf8Of(c);
    StartsWithEncoding(c, r + t);
    hide CharLen, BadLen, Utf8Of;
    assert (r + t)[..|r|] == r && (r + t)[|r|..] == t;
  }

  /** Where no encoding stands, it puts one U+FFFD for the longest piece that still begins one. */
  lemma LossyReplaces(t: Bytes, n: nat)
    requires (forall c: Scalar :: !(Utf8Of(c) <= t)) && Piece(t, n)
    ensures Lossy(t) == Utf8Of(0xFFFD) + Lossy(t[n..])
  {
    CharStarts(t);
    BadLenIsPiece(t);
    hide CharLen, BadLen, Begins;
    PieceUnique(t, n, BadLen(t));
    LossyStep(t);
  }

  /** One of the two laws applies to every text. */
  lemma PieceExists(t: Bytes) returns (n: nat)
    requires t != [] && forall c: Scalar :: !(Utf8Of(c) <= t)
    ensures Piece(t, n)
  {
    CharStarts(t);
    BadLenIsPiece(t);
    n := BadLen(t);
  }
}
