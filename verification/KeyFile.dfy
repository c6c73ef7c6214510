/** The vault key file: how it is written at initialisation and how it is read back. */
module KeyFile {
  import opened Bytes
  import opened Base64

  const KEY_BYTES: nat := 32
  const NEWLINE: byte := 0x0A

  /** `u8::is_ascii_whitespace`: space, tab, line feed, form feed, carriage return. */
  predicate IsSpace(b: byte) {
    b == 0x20 || b == 0x09 || b == 0x0A || b == 0x0C || b == 0x0D
  }

  predicate Blank(b: Bytes) {
    forall i :: 0 <= i < |b| ==> IsSpace(b[i])
  }

  /** `core` is `b` without the whitespace around it. */
  ghost predicate TrimmedTo(b: Bytes, core: Bytes) {
    exists l, r :: Around(b, l, core, r)
  }

  predicate Around(b: Bytes, l: Bytes, core: Bytes, r: Bytes) {
    && b == l + core + r && Blank(l) && Blank(r)
    && (core != [] ==> !IsSpace(core[0]) && !IsSpace(core[|core| - 1]))
  }

  function TrimStart(b: Bytes): (r: Bytes)
    ensures |r| <= |b|
  {
    if b != [] && IsSpace(b[0]) then TrimStart(b[1..]) else b
  }

  function TrimEnd(b: Bytes): (r: Bytes)
    ensures |r| <= |b|
  {
    if b != [] && IsSpace(b[|b| - 1]) then TrimEnd(b[..|b| - 1]) else b
  }

  function Trim(b: Bytes): Bytes {
    TrimEnd(TrimStart(b))
  }

  method TrimAsciiWhitespace(input: Bytes) returns (bytes: Bytes)
    ensures bytes == Trim(input)
    ensures TrimmedTo(input, bytes)
  {
    bytes := input;
    while bytes != [] && IsSpace(bytes[0])
      invariant TrimStart(bytes) == TrimStart(input)
      decreases |bytes|
    {
      bytes := bytes[1..];
    }
    while bytes != [] && IsSpace(bytes[|bytes| - 1])
      invariant TrimEnd(bytes) == Trim(input)
      decreases |bytes|
    {
      bytes := bytes[..|bytes| - 1];
    }
    TrimIsTrimmed(input);
  }

  lemma {:induction false} TrimStartParts(b: Bytes) returns (l: Bytes)
    ensures b == l + TrimStart(b) && Blank(l)
    ensures TrimStart(b) == [] || !IsSpace(TrimStart(b)[0])
    decreases |b|
  {
    if b != [] && IsSpace(b[0]) {
      l := TrimStartParts(b[1..]);
      l := [b[0]] + l;
    } else {
      l := [];
    }
  }

  lemma {:induction false} TrimEndParts(b: Bytes) returns (r: Bytes)
    ensures b == TrimEnd(b) + r && Blank(r)
    ensures TrimEnd(b) == [] || !IsSpace(TrimEnd(b)[|TrimEnd(b)| - 1])
    decreases |b|
  {
    if b != [] && IsSpace(b[|b| - 1]) {
      r := TrimEndParts(b[..|b| - 1]);
      r := r + [b[|b| - 1]];
    } else {
      r := [];
    }
  }

  /** `Trim` takes away whitespace only, and all of it at both ends. */
  lemma TrimIsTrimmed(b: Bytes)
    ensures TrimmedTo(b, Trim(b))
  {
    var l := TrimStartParts(b);
    var core := TrimStart(b);
    var r := TrimEndParts(core);
    assert Trim(b) == TrimEnd(core);
    hide TrimStart, TrimEnd, Trim;
    assert Trim(b) != [] ==> Trim(b)[0] == core[0];
    Associate(l, Trim(b), r);
    assert Around(b, l, Trim(b), r);
  }

  lemma {:induction false} TrimStartBlank(l: Bytes, t: Bytes)
    requires Blank(l)
    ensures TrimStart(l + t) == TrimStart(t)
  {
    if l == [] {
      assert l + t == t;
    } else {
      assert (l + t)[1..] == l[1..] + t;
      TrimStartBlank(l[1..], t);
    }
  }

  lemma {:induction false} TrimEndBlank(t: Bytes, r: Bytes)
    requires Blank(r)
    ensures TrimEnd(t + r) == TrimEnd(t)
  {
    if r == [] {
      assert t + r == t;
    } else {
      assert (t + r)[..|t + r| - 1] == t + r[..|r| - 1];
      TrimEndBlank(t, r[..|r| - 1]);
    }
  }

  /** Trimming recovers what is surrounded by whitespace, when that is not empty. */
  lemma TrimAround(b: Bytes, l: Bytes, core: Bytes, r: Bytes)
    requires Around(b, l, core, r) && core != []
    ensures Trim(b) == core
  {
    Associate(l, core, r);
    TrimStartBlank(l, core + r);
    assert TrimStart(core + r) == core + r;
    TrimEndBlank(core, r);
  }

  lemma Associate(l: Bytes, core: Bytes, r: Bytes)
    ensures l + core + r == l + (core + r)
  {
  }

  datatype KeyResult = Key(bytes: Bytes) | NotBase64 | WrongLength

  /** `read_key` on the contents of the key file. */
  function ReadKey(raw: Bytes): KeyResult {
    if |raw| == KEY_BYTES then Key(raw)
    else match Decode(Trim(raw))
      case Invalid => NotBase64
      case Valid(bytes) => if |bytes| == KEY_BYTES then Key(bytes) else WrongLength
  }

  /** What `initialize` writes: the encoded key and a newline. */
  function KeyFileFor(key: Bytes): Bytes {
    Encode(key) + [NEWLINE]
  }

  lemma EncodedKeyHasNoSpace(key: Bytes, i: nat)
    requires i < |Encode(key)|
    ensures !IsSpace(Encode(key)[i])
  {
    Alphabet(key, i);
  }

  lemma PaddedKey(key: Bytes, l: Bytes, r: Bytes)
    requires |key| == 32 && Blank(l) && Blank(r)
    ensures ReadKey(l + Encode(key) + r) == Key(key) && |l + Encode(key) + r| != KEY_BYTES
  {
    hide Encode, Decode, Trim, Blank, IsSpace;
    EncodedKeyHasNoSpace(key, 0);
    EncodedKeyHasNoSpace(key, |Encode(key)| - 1);
    DecodeEncode(key);
    TrimAround(l + Encode(key) + r, l, Encode(key), r);
  }

  lemma WhitespaceIsBlank(l: Bytes)
    requires forall b :: b in l ==> b in [0x20, 0x09, 0x0A, 0x0C, 0x0D]
    ensures Blank(l)
  {
    assert forall k :: 0 <= k < |l| ==> l[k] in l;
  }

  /** A key file is read back as the key it was written for, whatever whitespace surrounds it. */
  lemma KeyFileRoundTrip(key: Bytes, l: Bytes, r: Bytes)
    requires |key| == 32 && forall b :: b in l || b in r ==> b in [0x20, 0x09, 0x0A, 0x0C, 0x0D]
    ensures ReadKey(l + Encode(key) + r) == Key(key)
    ensures KeyFileFor(key) == Encode(key) + [0x0A] && ReadKey(KeyFileFor(key)) == Key(key)
    ensures |l + Encode(key) + r| != KEY_BYTES && |KeyFileFor(key)| != KEY_BYTES
  {
    hide Encode, ReadKey, Blank;
    WhitespaceIsBlank(l);
    WhitespaceIsBlank(r);
    PaddedKey(key, l, r);
    WhitespaceIsBlank([]);
    WhitespaceIsBlank([NEWLINE]);
    PaddedKey(key, [], [NEWLINE]);
    assert KeyFileFor(key) == [] + Encode(key) + [NEWLINE];
  }

  /** The files that hold a given key: the raw bytes, or its encoding up to whitespace. */
  lemma {:induction false} KeyFilesExactly(raw: Bytes, key: Bytes)
    ensures ReadKey(raw) == Key(key) <==>
            |key| == KEY_BYTES && if |raw| == KEY_BYTES then raw == key else Trim(raw) == Encode(key)
  {
    if Decode(Trim(raw)).Valid? { EncodeDecode(Trim(raw)); }
    DecodeEncode(key);
  }
}
