/** Base64 with the standard alphabet and required padding (section 4 of RFC 4648). */
module Base64 {
  import opened Bytes

  const PAD: byte := 0x3D

  type sextet = n: int | 0 <= n < 64

  function Letter(n: sextet): (c: byte)
    ensures c != PAD
  {
    if n < 26 then n + 0x41
    else if n < 52 then n - 26 + 0x61
    else if n < 62 then n - 52 + 0x30
    else if n == 62 then 0x2B
    else 0x2F
  }

  datatype Digit = NoDigit | Sextet(n: sextet)

  function Value(c: byte): Digit {
    if 0x41 <= c < 0x5B then Sextet(c - 0x41)
    else if 0x61 <= c < 0x7B then Sextet(c - 0x61 + 26)
    else if 0x30 <= c < 0x3A then Sextet(c - 0x30 + 52)
    else if c == 0x2B then Sextet(62)
    else if c == 0x2F then Sextet(63)
    else NoDigit
  }

  lemma LetterValue(n: sextet, c: byte)
    ensures Value(Letter(n)) == Sextet(n)
    ensures Value(c).Sextet? ==> Letter(Value(c).n) == c
  {
  }

  /** The alphabet of section 4 of RFC 4648: upper case, lower case, digits, each in order, plus and slash. */
  lemma AlphabetInOrder(n: sextet)
    ensures Letter(0) as int == 'A' as int && Letter(25) as int == 'Z' as int
    ensures Letter(26) as int == 'a' as int && Letter(51) as int == 'z' as int
    ensures Letter(52) as int == '0' as int && Letter(61) as int == '9' as int
    ensures Letter(62) as int == '+' as int && Letter(63) as int == '/' as int
    ensures n < 61 && n != 25 && n != 51 ==> Letter(n + 1) == Letter(n) + 1
  {
  }

  /** Three bytes as one number of 24 bits, and the letters its digits to the base of 64. */
  lemma QuadIsNumber(a: byte, b: byte, c: byte)
    ensures var q := Quad(a, b, c);
            && Value(q[0]).Sextet? && Value(q[1]).Sextet? && Value(q[2]).Sextet? && Value(q[3]).Sextet?
            && ((Value(q[0]).n * 64 + Value(q[1]).n) * 64 + Value(q[2]).n) * 64 + Value(q[3]).n == (a * 256 + b) * 256 + c
  {
    LetterValue(a / 4, 0);
    LetterValue(a % 4 * 16 + b / 16, 0);
    LetterValue(b % 16 * 4 + c / 64, 0);
    LetterValue(c % 64, 0);
  }

  /** Four letters for three bytes. */
  function Quad(a: byte, b: byte, c: byte): (q: Bytes)
    ensures |q| == 4 && PAD !in q
  {
    [Letter(a / 4), Letter(a % 4 * 16 + b / 16), Letter(b % 16 * 4 + c / 64), Letter(c % 64)]
  }

  function Encode(b: Bytes): (t: Bytes)
    ensures |t| == (|b| + 2) / 3 * 4
  {
    if |b| == 0 then []
    else if |b| == 1 then Quad(b[0], 0, 0)[..2] + [PAD, PAD]
    else if |b| == 2 then Quad(b[0], b[1], 0)[..3] + [PAD]
    else Quad(b[0], b[1], b[2]) + Encode(b[3..])
  }

  datatype Decoded = Invalid | Valid(bytes: Bytes)

  /** The bytes of one group of four letters, padding allowed; trailing bits must be zero. */
  function Group(t: Bytes): (d: Decoded)
    requires |t| == 4
    ensures d.Valid? ==> 1 <= |d.bytes| <= 3
  {
    var v0, v1, v2, v3 := Value(t[0]), Value(t[1]), Value(t[2]), Value(t[3]);
    if v0.NoDigit? || v1.NoDigit? then Invalid
    else if t[2] == PAD && t[3] == PAD then
      if v1.n % 16 == 0 then Valid([v0.n * 4 + v1.n / 16]) else Invalid
    else if v2.NoDigit? then Invalid
    else if t[3] == PAD then
      if v2.n % 4 == 0 then Valid([v0.n * 4 + v1.n / 16, v1.n % 16 * 16 + v2.n / 4]) else Invalid
    else if v3.NoDigit? then Invalid
    else Valid([v0.n * 4 + v1.n / 16, v1.n % 16 * 16 + v2.n / 4, v2.n % 4 * 64 + v3.n])
  }

  function Decode(t: Bytes): Decoded {
    if t == [] then Valid([])
    else if |t| < 4 then Invalid
    else if |t| == 4 then Group(t)
    else
      var first, rest := Group(t[..4]), Decode(t[4..]);
      if first.Valid? && |first.bytes| == 3 && rest.Valid? then Valid(first.bytes + rest.bytes) else Invalid
  }

  /** Six-bit values of three bytes, put together again. */
  lemma Rejoin(a: byte, b: byte, c: byte)
    ensures var v0, v1, v2, v3 := a / 4, a % 4 * 16 + b / 16, b % 16 * 4 + c / 64, c % 64;
            v0 * 4 + v1 / 16 == a && v1 % 16 * 16 + v2 / 4 == b && v2 % 4 * 64 + v3 == c
  {
  }

  lemma QuadValues(a: byte, b: byte, c: byte)
    ensures var q := Quad(a, b, c);
            && Value(q[0]) == Sextet(a / 4) && Value(q[1]) == Sextet(a % 4 * 16 + b / 16)
            && Value(q[2]) == Sextet(b % 16 * 4 + c / 64) && Value(q[3]) == Sextet(c % 64)
  {
    LetterValue(a / 4, a);
    LetterValue(a % 4 * 16 + b / 16, a);
    LetterValue(b % 16 * 4 + c / 64, a);
    LetterValue(c % 64, a);
    hide Letter, Value;
  }

  lemma GroupOfQuad(a: byte, b: byte, c: byte)
    ensures Group(Quad(a, b, c)) == Valid([a, b, c])
  {
    QuadValues(a, b, c);
    hide Value, Quad;
    Rejoin(a, b, c);
  }

  lemma GroupTwo(t: Bytes, v0: sextet, v1: sextet, v2: sextet)
    requires |t| == 4 && Value(t[0]) == Sextet(v0) && Value(t[1]) == Sextet(v1) && Value(t[2]) == Sextet(v2)
    requires t[3] == PAD && v2 % 4 == 0
    ensures Group(t) == Valid([v0 * 4 + v1 / 16, v1 % 16 * 16 + v2 / 4])
  {
  }

  lemma GroupOne(t: Bytes, v0: sextet, v1: sextet)
    requires |t| == 4 && Value(t[0]) == Sextet(v0) && Value(t[1]) == Sextet(v1)
    requires t[2] == PAD && t[3] == PAD && v1 % 16 == 0
    ensures Group(t) == Valid([v0 * 4 + v1 / 16])
  {
  }

  lemma GroupOfTwo(a: byte, b: byte)
    ensures Group(Quad(a, b, 0)[..3] + [PAD]) == Valid([a, b])
  {
    hide *;
    QuadValues(a, b, 0);
    Rejoin(a, b, 0);
    GroupTwo(Quad(a, b, 0)[..3] + [PAD], a / 4, a % 4 * 16 + b / 16, b % 16 * 4);
  }

  lemma GroupOfOne(a: byte)
    ensures Group(Quad(a, 0, 0)[..2] + [PAD, PAD]) == Valid([a])
  {
    hide *;
    QuadValues(a, 0, 0);
    Rejoin(a, 0, 0);
    GroupOne(Quad(a, 0, 0)[..2] + [PAD, PAD], a / 4, a % 4 * 16);
  }

  /** The three bytes made of four six-bit values split back into them. */
  lemma Regroup(v0: sextet, v1: sextet, v2: sextet, v3: sextet)
    ensures var a, b, c := v0 * 4 + v1 / 16, v1 % 16 * 16 + v2 / 4, v2 % 4 * 64 + v3;
            a / 4 == v0 && a % 4 * 16 + b / 16 == v1 && b % 16 * 4 + c / 64 == v2 && c % 64 == v3
  {
  }

  lemma QuadOfValues(v0: sextet, v1: sextet, v2: sextet, v3: sextet)
    ensures var a, b, c := v0 * 4 + v1 / 16, v1 % 16 * 16 + v2 / 4, v2 % 4 * 64 + v3;
            && Quad(a, b, c) == [Letter(v0), Letter(v1), Letter(v2), Letter(v3)]
            && (v2 % 4 == 0 ==> Quad(a, b, 0)[..3] == [Letter(v0), Letter(v1), Letter(v2)])
            && (v1 % 16 == 0 ==> Quad(a, 0, 0)[..2] == [Letter(v0), Letter(v1)])
  {
    hide Letter;
    Regroup(v0, v1, v2, v3);
  }

  lemma EncodeGroup(d: Bytes)
    requires 1 <= |d| <= 3
    ensures Encode(d) == if |d| == 1 then Quad(d[0], 0, 0)[..2] + [PAD, PAD]
                         else if |d| == 2 then Quad(d[0], d[1], 0)[..3] + [PAD]
                         else Quad(d[0], d[1], d[2])
  {
    hide Quad;
    if |d| == 3 { assert d[3..] == []; }
  }

  /** A valid group is the encoding of its bytes. */
  lemma QuadOfGroup(t: Bytes)
    requires |t| == 4 && Group(t).Valid?
    ensures Encode(Group(t).bytes) == t
  {
    var d := Group(t).bytes;
    hide *;
    var v0, v1, v2, v3 := GroupLetters(t);
    if |d| == 1 { EncodeOne(v0, v1); }
    else if |d| == 2 { EncodeTwo(v0, v1, v2); }
    else { EncodeThree(v0, v1, v2, v3); }
  }

  lemma EncodeOne(v0: sextet, v1: sextet)
    requires v1 % 16 == 0
    ensures Encode([v0 * 4 + v1 / 16]) == [Letter(v0), Letter(v1)] + [PAD, PAD]
  {
    EncodeGroup([v0 * 4 + v1 / 16]);
    hide *;
    QuadOfValues(v0, v1, 0, 0);
  }

  lemma EncodeTwo(v0: sextet, v1: sextet, v2: sextet)
    requires v2 % 4 == 0
    ensures Encode([v0 * 4 + v1 / 16, v1 % 16 * 16 + v2 / 4]) == [Letter(v0), Letter(v1), Letter(v2)] + [PAD]
  {
    EncodeGroup([v0 * 4 + v1 / 16, v1 % 16 * 16 + v2 / 4]);
    hide *;
    QuadOfValues(v0, v1, v2, 0);
  }

  lemma EncodeThree(v0: sextet, v1: sextet, v2: sextet, v3: sextet)
    ensures Encode([v0 * 4 + v1 / 16, v1 % 16 * 16 + v2 / 4, v2 % 4 * 64 + v3])
         == [Letter(v0), Letter(v1), Letter(v2), Letter(v3)]
  {
    EncodeGroup([v0 * 4 + v1 / 16, v1 % 16 * 16 + v2 / 4, v2 % 4 * 64 + v3]);
    hide *;
    QuadOfValues(v0, v1, v2, v3);
  }

  /** The six-bit values of a valid group, zero where there is padding. */
  lemma GroupLetters(t: Bytes) returns (v0: sextet, v1: sextet, v2: sextet, v3: sextet)
    requires |t| == 4 && Group(t).Valid?
    ensures var d := Group(t).bytes;
            1 <= |d| <= 3 && if |d| == 1 then v1 % 16 == 0 && d == [v0 * 4 + v1 / 16] && t == [Letter(v0), Letter(v1)] + [PAD, PAD]
            else if |d| == 2 then
              v2 % 4 == 0 && d == [v0 * 4 + v1 / 16, v1 % 16 * 16 + v2 / 4] && t == [Letter(v0), Letter(v1), Letter(v2)] + [PAD]
            else
              && d == [v0 * 4 + v1 / 16, v1 % 16 * 16 + v2 / 4, v2 % 4 * 64 + v3]
              && t == [Letter(v0), Letter(v1), Letter(v2), Letter(v3)]
  {
    forall k | 0 <= k < 4 && Value(t[k]).Sextet? ensures Letter(Value(t[k]).n) == t[k] {
      LetterValue(0, t[k]);
    }
    hide Value, Letter;
    v0, v1, v2, v3 := Value(t[0]).n, Value(t[1]).n, 0, 0;
    if |Group(t).bytes| >= 2 { v2 := Value(t[2]).n; }
    if |Group(t).bytes| == 3 { v3 := Value(t[3]).n; }
  }

  lemma {:induction false} DecodeEncode(b: Bytes)
    ensures Decode(Encode(b)) == Valid(b)
  {
    if |b| == 1 {
      hide Quad, Group;
      GroupOfOne(b[0]);
    } else if |b| == 2 {
      hide Quad, Group;
      GroupOfTwo(b[0], b[1]);
    } else if |b| >= 3 {
      hide Quad, Group, Decode;
      GroupOfQuad(b[0], b[1], b[2]);
      DecodeEncode(b[3..]);
      DecodeGroup(Quad(b[0], b[1], b[2]), Encode(b[3..]));
      assert b == [b[0], b[1], b[2]] + b[3..];
    }
  }

  /** A full group in front is decoded on its own. */
  lemma DecodeGroup(first: Bytes, rest: Bytes)
    requires |first| == 4 && Group(first).Valid? && |Group(first).bytes| == 3 && Decode(rest).Valid?
    ensures Decode(first + rest) == Valid(Group(first).bytes + Decode(rest).bytes)
  {
    hide Group;
    assert (first + rest)[..4] == first && (first + rest)[4..] == rest;
    if rest == [] { assert first + rest == first; }
  }

  /** Only canonical text decodes: every accepted text is the encoding of what it decodes to. */
  lemma {:induction false} EncodeDecode(t: Bytes)
    requires Decode(t).Valid?
    ensures Encode(Decode(t).bytes) == t
  {
    if |t| == 4 {
      QuadOfGroup(t);
    } else if |t| > 4 {
      var first, rest := Group(t[..4]).bytes, Decode(t[4..]).bytes;
      QuadOfGroup(t[..4]);
      EncodeDecode(t[4..]);
      EncodeAppend(first, rest);
      assert t == t[..4] + t[4..];
    }
  }

  lemma EncodeAppend(first: Bytes, rest: Bytes)
    requires |first| == 3
    ensures Encode(first + rest) == Encode(first) + Encode(rest)
  {
    assert (first + rest)[3..] == rest;
    assert first[3..] == [];
  }

  /** Every letter of an encoding is a letter, digit, `+`, `/` or padding. */
  lemma {:induction false} Alphabet(b: Bytes, i: nat)
    requires i < |Encode(b)|
    ensures Value(Encode(b)[i]).Sextet? || Encode(b)[i] == PAD
  {
    hide Value;
    if |b| >= 3 {
      if i >= 4 { Alphabet(b[3..], i - 4); } else { QuadLetters(b[0], b[1], b[2], i); }
    } else if |b| == 2 {
      if i < 3 { QuadLetters(b[0], b[1], 0, i); }
    } else if i < 2 {
      QuadLetters(b[0], 0, 0, i);
    }
  }

  lemma QuadLetters(a: byte, b: byte, c: byte, i: nat)
    requires i < 4
    ensures Value(Quad(a, b, c)[i]).Sextet?
  {
  }
}
