/** Basic authentication (section 2 of RFC 7617): the derived token never reaches the caller. */
module BasicAuth {
  import opened Bytes
  import opened Utf8
  import opened Redact
  import opened Base64
  import ResponseBody

  const COLON: byte := 0x3A

  function Credentials(username: Bytes, password: Bytes): Bytes {
    username + [COLON] + password
  }

  function BasicToken(username: Bytes, password: Bytes): Bytes {
    Encode(Credentials(username, password))
  }

  /** The token decodes to the name, a colon and the password. */
  lemma TokenDecodes(username: Bytes, password: Bytes)
    ensures Decode(BasicToken(username, password)) == Valid(username + [0x3A] + password)
  {
    DecodeEncode(Credentials(username, password));
  }

  /** The groups of four letters inside the marker, decoded. */
  lemma MarkerGroups(g: Bytes)
    requires g in {[0x52, 0x45, 0x44, 0x41], [0x45, 0x44, 0x41, 0x43], [0x44, 0x41, 0x43, 0x54],
                   [0x41, 0x43, 0x54, 0x45], [0x43, 0x54, 0x45, 0x44]}
    ensures Group(g).Valid? && |Group(g).bytes| == 3 && COLON !in Group(g).bytes
  {
  }

  lemma TokenBracketFree(b: Bytes)
    ensures BracketFree(Encode(b))
  {
    forall i | 0 <= i < |Encode(b)| ensures Encode(b)[i] != OPEN && Encode(b)[i] != CLOSE {
      Alphabet(b, i);
    }
  }

  lemma MarkerGroupAt(g: Bytes, i: nat)
    requires |g| == 4 && 1 <= i <= 5 && forall k :: 0 <= k < 4 ==> g[k] == REDACTED[i + k]
    ensures Group(g).Valid? && |Group(g).bytes| == 3 && COLON !in Group(g).bytes
  {
    assert g == [REDACTED[i], REDACTED[i + 1], REDACTED[i + 2], REDACTED[i + 3]];
    MarkerGroups(g);
  }

  lemma MarkerSpan(t: Bytes, i: nat)
    requires OccursAt(t, REDACTED, i) && |t| % 4 == 0 && t != [] && BracketFree(t)
    ensures 1 <= i && i + |t| <= 9 && (|t| == 4 || |t| == 8)
    ensures forall k :: 0 <= k < |t| ==> t[k] == REDACTED[i + k]
  {
    assert forall k :: 0 <= k < |t| ==> t[k] == REDACTED[i + k];
    assert t[0] != OPEN && t[|t| - 1] != CLOSE;
  }

  /** Whole groups of letters inside the marker decode to bytes without a colon. */
  lemma {:induction false} MarkerFactorDecodes(t: Bytes, i: nat)
    requires OccursAt(t, REDACTED, i) && |t| % 4 == 0 && t != [] && BracketFree(t)
    ensures Decode(t).Valid? && COLON !in Decode(t).bytes
  {
    MarkerSpan(t, i);
    hide OccursAt, BracketFree, Group, REDACTED;
    MarkerGroupAt(t[..4], i);
    if |t| == 8 {
      MarkerGroupAt(t[4..], i + 4);
    } else {
      assert t == t[..4];
    }
  }

  /** The derived token can always be hidden by the marker. */
  lemma TokenRedactable(username: Bytes, password: Bytes)
    ensures Redactable(BasicToken(username, password))
  {
    var b := Credentials(username, password);
    assert b[|username|] == COLON;
    TokenBracketFree(b);
    BracketFreeRedactable(Encode(b));
    if Contains(REDACTED, Encode(b)) {
      var i :| OccursAt(Encode(b), REDACTED, i);
      MarkerFactorDecodes(Encode(b), i);
      DecodeEncode(b);
    }
  }

  /**
   For every username, password and response: neither the body, cut anywhere, nor the content
   type the broker returns contains the derived token.
   */
  lemma TokenNeverReturned(username: Bytes, password: Bytes, stream: Bytes, contentType: Bytes, limit: nat, max: nat)
    ensures var token := BasicToken(username, password);
            var secrets := ResponseBody.Redactions(password, ResponseBody.Token(token));
            && !Contains(Truncate(ResponseBody.Redacted(stream, secrets, limit), max), token)
            && !Contains(RedactAll(contentType, secrets), token)
  {
    var token := BasicToken(username, password);
    var secrets := ResponseBody.Redactions(password, ResponseBody.Token(token));
    assert secrets[1] == token;
    TokenRedactable(username, password);
    SecretAbsentAfterCut(Lossy(Take(stream, limit)), secrets, token, max);
    SecretAbsent(contentType, secrets, token);
  }

  /** The same holds of the password itself whenever the marker can hide it. */
  lemma PasswordNeverReturned(username: Bytes, password: Bytes, stream: Bytes, contentType: Bytes, limit: nat, max: nat)
    requires Redactable(password)
    ensures var secrets := ResponseBody.Redactions(password, ResponseBody.Token(BasicToken(username, password)));
            && !Contains(Truncate(ResponseBody.Redacted(stream, secrets, limit), max), password)
            && !Contains(RedactAll(contentType, secrets), password)
  {
    var secrets := ResponseBody.Redactions(password, ResponseBody.Token(BasicToken(username, password)));
    assert secrets[0] == password;
    SecretAbsentAfterCut(Lossy(Take(stream, limit)), secrets, password, max);
    SecretAbsent(contentType, secrets, password);
  }
}
