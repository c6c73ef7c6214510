/** The two bounded readers: the HTTP chunk loop stops early, the SSH loop drains its pipe. */
module BoundedRead {
  import opened Bytes

  function Flatten(chunks: seq<Bytes>): Bytes {
    if chunks == [] then [] else chunks[0] + Flatten(chunks[1..])
  }

  lemma {:induction false} FlattenSplit(chunks: seq<Bytes>, i: nat)
    requires i <= |chunks|
    ensures Flatten(chunks) == Flatten(chunks[..i]) + Flatten(chunks[i..])
  {
    if i == 0 {
      assert chunks[..0] == [] && chunks[0..] == chunks;
    } else {
      FlattenSplit(chunks[1..], i - 1);
      assert chunks[1..][..i - 1] == chunks[..i][1..];
      assert chunks[1..][i - 1..] == chunks[i..];
    }
  }

  lemma FlattenOne(c: Bytes)
    ensures Flatten([c]) == c
  {
    assert [c][1..] == [];
  }

  lemma FlattenNext(chunks: seq<Bytes>, i: nat)
    requires i < |chunks|
    ensures Flatten(chunks[..i + 1]) == Flatten(chunks[..i]) + chunks[i]
    ensures Flatten(chunks[..i + 1]) <= Flatten(chunks)
  {
    FlattenOne(chunks[i]);
    hide Flatten;
    FlattenSplit(chunks[..i + 1], i);
    assert chunks[..i + 1][..i] == chunks[..i] && chunks[..i + 1][i..] == [chunks[i]];
    FlattenSplit(chunks, i + 1);
  }

  /** The chunk loop of the HTTP broker: stop at the first chunk that does not fit. */
  method ReadChunks(chunks: seq<Bytes>, readLimit: nat) returns (bytes: Bytes, truncated: bool)
    ensures bytes == Take(Flatten(chunks), readLimit)
    ensures truncated <==> |Flatten(chunks)| > readLimit
  {
    bytes, truncated := [], false;
    var i := 0;
    while i < |chunks|
      invariant 0 <= i <= |chunks| && !truncated
      invariant bytes == Flatten(chunks[..i]) && |bytes| <= readLimit
    {
      var chunk := chunks[i];
      var remaining := readLimit - |bytes|;
      FlattenNext(chunks, i);
      if |chunk| > remaining {
        assert Flatten(chunks[..i + 1])[..readLimit] == bytes + chunk[..remaining];
        bytes := bytes + chunk[..remaining];
        truncated := true;
        return;
      }
      bytes := bytes + chunk;
      i := i + 1;
    }
    assert chunks[..i] == chunks;
  }

  /** The results of reading up to the first empty one, which is the end of the stream. */
  function Delivered(pieces: seq<Bytes>): (r: seq<Bytes>)
    ensures r <= pieces
  {
    if pieces == [] || pieces[0] == [] then [] else [pieces[0]] + Delivered(pieces[1..])
  }

  lemma {:induction false} DeliveredIs(pieces: seq<Bytes>, i: nat)
    requires i <= |pieces| && (forall k :: 0 <= k < i ==> pieces[k] != []) && (i < |pieces| ==> pieces[i] == [])
    ensures Delivered(pieces) == pieces[..i]
  {
    if i > 0 {
      DeliveredIs(pieces[1..], i - 1);
      assert [pieces[0]] + pieces[1..][..i - 1] == pieces[..i];
    }
  }

  /**
   The loop of the SSH broker over the results of its successive reads: it goes on to the end of
   the stream, and what does not fit is dropped and flagged.
   */
  method ReadLimited(pieces: seq<Bytes>, limit: nat) returns (kept: Bytes, truncated: bool)
    ensures kept == Take(Flatten(Delivered(pieces)), limit)
    ensures truncated <==> |Flatten(Delivered(pieces))| > limit
  {
    kept, truncated := [], false;
    var i := 0;
    while i < |pieces|
      invariant 0 <= i <= |pieces| && forall k :: 0 <= k < i ==> pieces[k] != []
      invariant kept == Take(Flatten(pieces[..i]), limit)
      invariant truncated <==> |Flatten(pieces[..i])| > limit
    {
      var buffer := pieces[i];
      if |buffer| == 0 {
        break;
      }
      var remaining := limit - |kept|;
      FlattenNext(pieces, i);
      kept := kept + buffer[..Min(|buffer|, remaining)];
      if |buffer| > remaining {
        truncated := true;
      }
      i := i + 1;
    }
    DeliveredIs(pieces, i);
  }

  /** Boundaries and empty chunks are invisible: the two loops agree on equal streams. */
  method ReadersAgree(chunks: seq<Bytes>, pieces: seq<Bytes>, limit: nat)
    returns (http: Bytes, httpFlag: bool, ssh: Bytes, sshFlag: bool)
    requires Flatten(chunks) == Flatten(Delivered(pieces))
    ensures http == ssh && (httpFlag <==> sshFlag)
    ensures http == Flatten(chunks) <==> !httpFlag
  {
    http, httpFlag := ReadChunks(chunks, limit);
    ssh, sshFlag := ReadLimited(pieces, limit);
  }
}
