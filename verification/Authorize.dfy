/** Authorising a request: validation of the path, the join with the base, the origin test and the rules. */
module Authorize {
  import opened Bytes
  import opened Policy
  import opened DotSegments

  const LF: byte := 0x0A
  const CR: byte := 0x0D

  datatype Option<T> = None | Some(value: T)

  datatype Scheme = Http | Https

  /** Host and port of a URL; the scheme's default port is left out. */
  datatype Authority = Authority(host: Bytes, port: Option<nat>)

  datatype Url = Url(scheme: Scheme, authority: Authority, path: Bytes, query: Option<Bytes>)

  datatype Capability = Capability(methods: seq<Bytes>, rules: seq<Bytes>, base: Url)

  datatype Reason = MethodNotAllowed | BadPath | BadUrl | OriginEscape | PathNotAllowed

  datatype Outcome = Authorized(verb: Bytes, url: Url) | Denied(reason: Reason)

  /** How the URL parser reads the text between `//` and the next slash. */
  type HostParser = Bytes -> Option<Authority>

  // ----- joining -----

  /** The parser drops control characters and spaces at both ends of its input. */
  function Trimmed(t: Bytes): Bytes {
    if t == [] then []
    else if t[0] <= SPACE then Trimmed(t[1..])
    else TrimmedEnd(t)
  }

  function TrimmedEnd(t: Bytes): (r: Bytes)
    ensures r <= t && (r != [] ==> r[|r| - 1] > SPACE)
    ensures forall k :: |r| <= k < |t| ==> t[k] <= SPACE
  {
    if t != [] && t[|t| - 1] <= SPACE then TrimmedEnd(t[..|t| - 1]) else t
  }

  predicate TabOrNewline(b: byte) {
    b == TAB || b == LF || b == CR
  }

  /** It drops tabs and newlines everywhere. */
  function Untabbed(t: Bytes): Bytes {
    if t == [] then [] else if TabOrNewline(t[0]) then Untabbed(t[1..]) else [t[0]] + Untabbed(t[1..])
  }

  predicate IsSlash(b: byte) {
    b == SLASH || b == BACKSLASH
  }

  function SkipSlashes(t: Bytes): Bytes {
    if t != [] && IsSlash(t[0]) then SkipSlashes(t[1..]) else t
  }

  function HostEnd(t: Bytes): (n: nat)
    ensures n <= |t|
  {
    if t == [] || IsSlash(t[0]) || t[0] == QUESTION then 0 else 1 + HostEnd(t[1..])
  }

  function Query(t: Bytes): Option<Bytes> {
    var head := BeforeQuery(t);
    if |head| < |t| then Some(t[|head| + 1..]) else None
  }

  /** The text after an authority, whose first slash is optional. */
  function AfterAuthority(t: Bytes): Bytes {
    if t != [] && IsSlash(t[0]) then t[1..] else t
  }

  /** `base.join(request)` for a request that starts with a slash; none when the host does not parse. */
  function Join(base: Url, request: Bytes, parse: HostParser): Option<Url> {
    var t := Untabbed(Trimmed(request));
    if NamesAuthority(request) then
      var rest := SkipSlashes(t);
      var n := HostEnd(rest);
      match parse(rest[..n])
      case None => None
      case Some(authority) => Some(Url(base.scheme, authority, NormalPath(AfterAuthority(rest[n..])), Query(rest[n..])))
    else Some(Url(base.scheme, base.authority, NormalPath(AfterAuthority(t)), Query(t)))
  }

  /** What the parser reads starts with two slashes, so that a host follows. */
  predicate NamesAuthority(request: Bytes) {
    var t := Untabbed(Trimmed(request));
    |t| > 1 && IsSlash(t[0]) && IsSlash(t[1])
  }

  // ----- authorising -----

  /** `validate_requested_path`. */
  ghost predicate ValidRequest(path: Bytes) {
    && StartsWith(path, [SLASH])
    && !StartsWith(path, [SLASH, SLASH])
    && BACKSLASH !in path && HASH !in path
    && !Contains(path, [COLON, SLASH, SLASH])
    && !HasDotSegment(BeforeQuery(path))
  }

  function Port(u: Url): nat {
    match u.authority.port
    case Some(n) => n
    case None => if u.scheme == Https then 443 else 80
  }

  predicate SameOrigin(a: Url, b: Url) {
    a.scheme == b.scheme && a.authority.host == b.authority.host && Port(a) == Port(b)
  }

  function Upper(t: Bytes): Bytes {
    seq(|t|, i requires 0 <= i < |t| => if 0x61 <= t[i] < 0x7B then t[i] - 0x20 else t[i])
  }

  predicate AnyMatches(rules: seq<Bytes>, path: Bytes) {
    exists rule :: rule in rules && PathMatches(rule, path)
  }

  ghost function AuthorizeHttp(c: Capability, verb: Bytes, path: Bytes, parse: HostParser): Outcome {
    if Upper(verb) !in c.methods then Denied(MethodNotAllowed)
    else if !ValidRequest(path) then Denied(BadPath)
    else
      var resolved := Join(c.base, path, parse);
      if resolved.None? then Denied(BadUrl)
      else if !SameOrigin(c.base, resolved.value) then Denied(OriginEscape)
      else if !AnyMatches(c.rules, resolved.value.path) then Denied(PathNotAllowed)
      else Authorized(Upper(verb), resolved.value)
  }

  // ----- the origin -----

  lemma {:induction false} UntabbedConcat(a: Bytes, b: Bytes)
    ensures Untabbed(a + b) == Untabbed(a) + Untabbed(b)
  {
    if a == [] {
      assert a + b == b;
    } else {
      assert (a + b)[1..] == a[1..] + b;
      UntabbedConcat(a[1..], b);
    }
  }

  lemma {:induction false} UntabbedLow(t: Bytes)
    requires forall k :: 0 <= k < |t| ==> t[k] <= SPACE
    ensures forall k :: 0 <= k < |Untabbed(t)| ==> Untabbed(t)[k] <= SPACE
  {
    if t != [] { UntabbedLow(t[1..]); }
  }

  /** What trimming takes from the end of an absolute path never reaches its slashes. */
  lemma UntabbedTrimmed(path: Bytes) returns (tail: Bytes)
    requires path != [] && path[0] == SLASH
    ensures Untabbed(path) == Untabbed(Trimmed(path)) + tail
    ensures forall k :: 0 <= k < |tail| ==> tail[k] <= SPACE
    ensures Untabbed(Trimmed(path)) != [] && Untabbed(Trimmed(path))[0] == SLASH
  {
    var kept := TrimmedEnd(path);
    assert Trimmed(path) == kept && kept != [];
    var rest := path[|kept|..];
    assert path == kept + rest;
    UntabbedConcat(kept, rest);
    UntabbedLow(rest);
    tail := Untabbed(rest);
  }

  /** A request names a host of its own exactly when it starts with `//` once tabs and newlines are out. */
  lemma NamesAuthorityExactly(path: Bytes)
    requires ValidRequest(path)
    ensures NamesAuthority(path) <==> StartsWith(Untabbed(path), [SLASH, SLASH])
  {
    var tail := UntabbedTrimmed(path);
    NoBackslash(path);
    var t := Untabbed(Trimmed(path));
    assert |t| > 1 ==> Untabbed(path)[1] == t[1];
    hide Untabbed, Trimmed;
    assert |t| == 1 && |Untabbed(path)| > 1 ==> Untabbed(path)[1] == tail[0];
  }

  lemma {:induction false} NoBackslash(t: Bytes)
    requires BACKSLASH !in t
    ensures BACKSLASH !in Untabbed(t)
  {
    if t != [] { NoBackslash(t[1..]); }
  }

  lemma {:induction false} NothingToUntab(t: Bytes)
    requires forall k :: 0 <= k < |t| ==> !TabOrNewline(t[k])
    ensures Untabbed(t) == t
  {
    if t != [] { NothingToUntab(t[1..]); }
  }

  /** Without tabs and newlines, the join keeps scheme, host and port: the origin test never fails. */
  lemma JoinKeepsOrigin(base: Url, path: Bytes, parse: HostParser)
    requires ValidRequest(path) && forall k :: 0 <= k < |path| ==> !TabOrNewline(path[k])
    ensures Join(base, path, parse).Some?
    ensures var u := Join(base, path, parse).value; u.scheme == base.scheme && u.authority == base.authority
  {
    NothingToUntab(path);
    NamesAuthorityExactly(path);
    hide Trimmed, Untabbed, NormalPath, NamesAuthority;
  }

  // ----- what an authorised request can reach -----

  /** Segment containment: below the stem of a prefix rule, or the path of an exact rule. */
  predicate Reaches(rule: Bytes, path: Bytes) {
    if IsPrefixRule(rule) then Segments(Stem(rule)) <= Segments(path) else Segments(rule) == Segments(path)
  }

  lemma JoinedPathClean(base: Url, path: Bytes, parse: HostParser)
    requires Join(base, path, parse).Some?
    ensures CleanPath(Join(base, path, parse).value.path)
  {
    var t := Untabbed(Trimmed(path));
    var rest := SkipSlashes(t);
    NormalPathClean(AfterAuthority(rest[HostEnd(rest)..]));
    NormalPathClean(AfterAuthority(t));
    hide NormalPath, CleanPath, Untabbed, Trimmed, SkipSlashes, HostEnd;
  }

  /**
   Every authorised URL, for any request, has the capability's origin and a path in normal form,
   free of dot segments in any spelling, inside the subtree or at the path of one of the rules.
   */
  lemma {:induction false} AuthorizedSound(c: Capability, verb: Bytes, path: Bytes, parse: HostParser)
    ensures var a := AuthorizeHttp(c, verb, path, parse);
            a.Authorized? ==>
              && a.verb == Upper(verb) && a.verb in c.methods && SameOrigin(c.base, a.url)
              && CleanPath(a.url.path) && (forall s :: s in Segments(a.url.path) ==> !DotSegment(s))
              && exists rule :: rule in c.rules && Reaches(rule, a.url.path)
  {
    hide Join, CleanPath, DotSegment, PathMatches, ValidRequest, Reaches;
    if AuthorizeHttp(c, verb, path, parse).Authorized? {
      var u := AuthorizeHttp(c, verb, path, parse).url;
      JoinedPathClean(c.base, path, parse);
      CleanHasNoDots(u.path);
      var rule :| rule in c.rules && PathMatches(rule, u.path);
      ReachesIs(rule, u.path);
    }
  }

  lemma ReachesIs(rule: Bytes, path: Bytes)
    ensures Reaches(rule, path) <==> PathMatches(rule, path)
  {
    MatchesIsContainment(rule, path);
  }

  lemma CleanHasNoDots(p: Bytes)
    requires CleanPath(p)
    ensures forall s :: s in Segments(p) ==> !DotSegment(s)
  {
    forall s | s in Segments(p) ensures !DotSegment(s) {
      assert CleanSegment(s);
    }
  }

  /** A server that resolves the path once more ends at the same path: nothing is left to resolve. */
  lemma {:induction false} AuthorizedStable(c: Capability, verb: Bytes, path: Bytes, parse: HostParser)
    ensures var a := AuthorizeHttp(c, verb, path, parse);
            a.Authorized? ==> a.url.path != [] && NormalPath(a.url.path[1..]) == a.url.path
  {
    hide Join, NormalPath, CleanPath, PathMatches, ValidRequest;
    if AuthorizeHttp(c, verb, path, parse).Authorized? {
      JoinedPathClean(c.base, path, parse);
      StartOfClean(AuthorizeHttp(c, verb, path, parse).url.path);
      NormalPathIdentity(AuthorizeHttp(c, verb, path, parse).url.path);
    }
  }

  /** A valid request whose path is in normal form is matched as it stands. */
  lemma CleanRequestUnchanged(base: Url, path: Bytes, parse: HostParser)
    requires ValidRequest(path) && CleanPath(path)
    ensures Join(base, path, parse) == Some(Url(base.scheme, base.authority, path, None))
  {
    CleanBytes(path);
    ClearOfMarks(path);
    NoLowBytes(path);
    NothingToUntab(path);
    NamesAuthorityExactly(path);
    NormalPathIdentity(path);
    hide NormalPath, NamesAuthority, CleanPath, BeforeQuery, Untabbed;
    assert BeforeQuery(path) == path;
  }

  lemma {:induction false} QueryParts(p: Bytes, q: Bytes)
    requires QUESTION !in p
    ensures BeforeQuery(p + [QUESTION] + q) == p && Query(p + [QUESTION] + q) == Some(q)
    decreases |p|
  {
    var t := p + [QUESTION] + q;
    if p == [] {
      assert t[1..] == q;
    } else {
      assert t[1..] == p[1..] + [QUESTION] + q;
      QueryParts(p[1..], q);
    }
    assert t[|p| + 1..] == q;
  }

  /** The same with a query, which plays no part in the match and is passed on. */
  lemma {:induction false} QueryPassedOn(base: Url, path: Bytes, q: Bytes, parse: HostParser)
    requires ValidRequest(path + [QUESTION] + q) && CleanPath(path)
    requires forall k :: 0 <= k < |q| ==> q[k] > SPACE
    ensures Join(base, path + [QUESTION] + q, parse) == Some(Url(base.scheme, base.authority, path, Some(q)))
  {
    hide CleanPath, PathByte, BeforeQuery, Query, NormalPath, ValidRequest, NamesAuthority, Untabbed, Trimmed, TabOrNewline;
    var t := path + [QUESTION] + q;
    assert path != [] && path[0] == SLASH by { StartOfClean(path); }
    CleanBytes(path);
    ClearOfMarks(path);
    NoLowBytes(path);
    NothingTrimmed(t);
    NothingToUntab(t);
    NamesAuthorityExactly(t);
    ValidStart(t);
    QueryParts(path, q);
    PathWithQuery(path, q);
  }

  lemma StartOfClean(p: Bytes)
    requires CleanPath(p)
    ensures p != [] && p[0] == SLASH
  {
  }

  lemma PathWithQuery(path: Bytes, q: Bytes)
    requires CleanPath(path) && QUESTION !in path
    ensures NormalPath((path + [QUESTION] + q)[1..]) == path
  {
    hide BeforeQuery, NormalPath, Query, AllClean, Segments;
    var rest := path[1..];
    assert (path + [QUESTION] + q)[1..] == rest + [QUESTION] + q;
    QueryParts(rest, q);
    NormalPathIdentity(path);
    NoQuery(rest);
    SameNormalPath(rest, rest + [QUESTION] + q);
  }

  lemma NoQuery(t: Bytes)
    requires QUESTION !in t
    ensures BeforeQuery(t) == t
  {
  }

  lemma ValidStart(t: Bytes)
    requires ValidRequest(t)
    ensures t != [] && t[0] == SLASH && !StartsWith(t, [SLASH, SLASH])
  {
  }

  lemma SameNormalPath(a: Bytes, b: Bytes)
    requires BeforeQuery(a) == BeforeQuery(b)
    ensures NormalPath(a) == NormalPath(b)
  {
  }

  lemma NothingTrimmed(t: Bytes)
    requires t != [] && forall k :: 0 <= k < |t| ==> t[k] > SPACE
    ensures Trimmed(t) == t
    ensures forall k :: 0 <= k < |t| ==> !TabOrNewline(t[k])
  {
  }

  lemma NoLowBytes(p: Bytes)
    requires p != [] && forall k :: 0 <= k < |p| ==> PathByte(p[k])
    ensures forall k :: 0 <= k < |p| ==> p[k] > SPACE
    ensures Trimmed(p) == p
    ensures forall k :: 0 <= k < |p| ==> !TabOrNewline(p[k])
  {
    assert PathByte(p[0]) && PathByte(p[|p| - 1]);
  }

  // ----- which rules can ever match -----

  /** The request gets past every test on the strength of this rule. */
  ghost predicate Grants(rule: Bytes, base: Url, path: Bytes, parse: HostParser) {
    && ValidRequest(path)
    && var u := Join(base, path, parse);
       u.Some? && SameOrigin(base, u.value) && PathMatches(rule, u.value.path)
  }

  /** A tab after every byte: the parser drops them, and no two bytes of `p` stand side by side. */
  function Tabbed(p: Bytes): Bytes {
    if p == [] then [] else [p[0], TAB] + Tabbed(p[1..])
  }

  /** Of two neighbours, one is a tab. */
  lemma {:induction false} TabbedNeighbours(p: Bytes)
    ensures |Tabbed(p)| == 2 * |p|
    ensures forall k :: 0 <= k < |Tabbed(p)| ==> Tabbed(p)[k] in p || Tabbed(p)[k] == TAB
    ensures forall k :: 0 <= k < |Tabbed(p)| - 1 ==> Tabbed(p)[k] == TAB || Tabbed(p)[k + 1] == TAB
  {
    if p != [] {
      TabbedNeighbours(p[1..]);
      var t, rest := Tabbed(p), Tabbed(p[1..]);
      assert t[0] == p[0] && t[1] == TAB;
      forall k | 2 <= k < |t| ensures t[k] == rest[k - 2] {}
    }
  }

  lemma {:induction false} TabbedUntabbed(p: Bytes)
    requires forall k :: 0 <= k < |p| ==> !TabOrNewline(p[k])
    ensures Untabbed(Tabbed(p)) == p
  {
    if p != [] {
      TabbedUntabbed(p[1..]);
      var t := Tabbed(p);
      assert t[1..][1..] == Tabbed(p[1..]);
    }
  }

  lemma {:induction false} TabbedSegments(p: Bytes)
    ensures forall s :: s in Segments(Tabbed(p)) ==> s == [] || TAB in s
  {
    if p != [] {
      TabbedSegments(p[1..]);
      var t, rest := Tabbed(p), Segments(Tabbed(p[1..]));
      assert t[1..][1..] == Tabbed(p[1..]);
      assert Segments(t[1..]) == [[TAB] + rest[0]] + rest[1..];
      if p[0] != SLASH {
        assert Segments(t)[0] == [p[0]] + ([TAB] + rest[0]);
        assert Segments(t)[0][1] == TAB;
        assert Segments(t)[1..] == rest[1..];
      } else {
        assert Segments(t)[1][0] == TAB;
        assert Segments(t)[2..] == rest[1..];
      }
    }
  }

  /** No byte but a tab or a byte of `p`. */
  lemma TabbedBytes(p: Bytes, b: byte)
    requires b != TAB && b !in p
    ensures b !in Tabbed(p)
  {
    TabbedNeighbours(p);
  }

  lemma TabbedApart(p: Bytes)
    ensures !Contains(Tabbed(p), [COLON, SLASH, SLASH])
  {
    var t := Tabbed(p);
    TabbedNeighbours(p);
    hide Tabbed;
    forall i ensures !OccursAt([COLON, SLASH, SLASH], t, i) {
      if 0 <= i <= |t| - 3 {
        var w := t[i..i + 3];
        assert w[1] == t[i + 1] && w[2] == t[i + 2];
      }
    }
  }

  lemma TabbedStart(p: Bytes)
    requires p != []
    ensures |Tabbed(p)| > 1 && Tabbed(p)[0] == p[0] && Tabbed(p)[1] == TAB
  {
  }

  lemma TabbedNoDots(p: Bytes)
    ensures [DOT] !in Segments(Tabbed(p)) && [DOT, DOT] !in Segments(Tabbed(p))
  {
    hide Segments, Tabbed;
    TabbedSegments(p);
    assert TAB !in [DOT] && TAB !in [DOT, DOT];
  }

  lemma TabbedValid(p: Bytes)
    requires p != [] && p[0] == SLASH && forall k :: 0 <= k < |p| ==> PathByte(p[k])
    ensures ValidRequest(Tabbed(p))
  {
    hide Tabbed, Segments, ValidRequest, Contains, PathByte;
    TabbedStart(p);
    ClearOfMarks(p);
    TabbedBytes(p, QUESTION);
    TabbedBytes(p, BACKSLASH);
    TabbedBytes(p, HASH);
    TabbedApart(p);
    TabbedNoDots(p);
    ValidIf(Tabbed(p));
  }

  lemma ValidIf(t: Bytes)
    requires |t| > 1 && t[0] == SLASH && t[1] != SLASH
    requires BACKSLASH !in t && HASH !in t && QUESTION !in t && !Contains(t, [COLON, SLASH, SLASH])
    requires [DOT] !in Segments(t) && [DOT, DOT] !in Segments(t)
    ensures ValidRequest(t)
  {
    hide Segments, Contains, BeforeQuery;
    assert BeforeQuery(t) == t;
  }

  lemma NoTail(p: Bytes, kept: Bytes, tail: Bytes)
    requires p != [] && p == kept + tail && p[|p| - 1] > SPACE
    requires forall k :: 0 <= k < |tail| ==> tail[k] <= SPACE
    ensures kept == p
  {
  }

  lemma TabbedJoin(base: Url, p: Bytes, parse: HostParser)
    requires CleanPath(p) && !StartsWith(p, [SLASH, SLASH])
    ensures ValidRequest(Tabbed(p))
    ensures Join(base, Tabbed(p), parse) == Some(Url(base.scheme, base.authority, p, None))
  {
    hide Untabbed, Trimmed, NormalPath, BeforeQuery, AllClean, Segments, ValidRequest, NamesAuthority;
    CleanBytes(p);
    ClearOfMarks(p);
    NoLowBytes(p);
    TabbedUntabbed(p);
    TabbedValid(p);
    var tail := UntabbedTrimmed(Tabbed(p));
    assert PathByte(p[|p| - 1]);
    NoTail(p, Untabbed(Trimmed(Tabbed(p))), tail);
    assert Untabbed(Trimmed(Tabbed(p))) == p;
    NamesAuthorityExactly(Tabbed(p));
    NormalPathIdentity(p);
  }

  lemma LiveStemClean(rule: Bytes, q: Bytes)
    requires ValidRule(rule) && PathMatches(rule, q) && CleanPath(q)
    ensures CleanPath(Stem(rule))
  {
    MatchesIsContainment(rule, q);
    hide PathMatches, Segments, CleanSegment;
  }

  /** A validated rule can ever match a request exactly when its stem is written in normal form. */
  lemma RuleLiveExactly(rule: Bytes, base: Url, parse: HostParser)
    requires ValidRule(rule)
    ensures (exists path :: Grants(rule, base, path, parse)) <==> CleanPath(Stem(rule))
  {
    hide Join, ValidRequest, CleanPath, PathMatches;
    var p := Stem(rule);
    if path :| Grants(rule, base, path, parse) {
      JoinedPathClean(base, path, parse);
      LiveStemClean(rule, Join(base, path, parse).value.path);
    }
    if CleanPath(p) {
      TabbedJoin(base, p, parse);
      StemMatches(rule);
      assert Grants(rule, base, Tabbed(p), parse);
    }
  }

  lemma StemMatches(rule: Bytes)
    ensures PathMatches(rule, Stem(rule))
  {
  }

  // ----- inputs -----

  /** Requests that pass validation and name any host of plain bytes: with a tab after every byte. */
  lemma TabbedNamesHost(host: Bytes)
    requires forall k :: 0 <= k < |host| ==> PathByte(host[k])
    ensures var path := Tabbed([SLASH, SLASH] + host); ValidRequest(path) && NamesAuthority(path)
  {
    hide ValidRequest, NamesAuthority, Tabbed;
    var p := [SLASH, SLASH] + host;
    assert PathByte(SLASH);
    TabbedValid(p);
    NoLowBytes(p);
    TabbedUntabbed(p);
    NamesAuthorityExactly(Tabbed(p));
  }

  lemma HostText(host: Bytes)
    requires host != [] && forall k :: 0 <= k < |host| ==> PathByte(host[k]) && host[k] != SLASH
    ensures SkipSlashes([SLASH, SLASH] + host) == host && HostEnd(host) == |host| && host[HostEnd(host)..] == []
  {
    hide HostEnd, SkipSlashes;
    assert forall k :: 0 <= k < |host| ==> PathByte(host[k]) && !Separator(host[k]) && host[k] != 0x3F;
    SkipsAll([SLASH, SLASH], host);
    HostEndsAt(host, []);
    assert host + [] == host;
  }

  lemma RootPath()
    ensures NormalPath(AfterAuthority([])) == [SLASH] && Query([]) == None
  {
    assert Segments(Slashed(BeforeQuery([]))) == [[]];
    assert Encoded([]) == [];
  }

  /** The host that such a request names is the one that is joined, and the origin test decides on it. */
  lemma NamedHostJudged(c: Capability, verb: Bytes, host: Bytes, parse: HostParser)
    requires host != [] && forall k :: 0 <= k < |host| ==> PathByte(host[k]) && host[k] != SLASH
    requires Upper(verb) in c.methods
    ensures var path := Tabbed([SLASH, SLASH] + host);
            var a := AuthorizeHttp(c, verb, path, parse);
            match parse(host)
            case None => a == Denied(BadUrl)
            case Some(named) =>
              var u := Url(c.base.scheme, named, [SLASH], None);
              Join(c.base, path, parse) == Some(u)
              && (named.host != c.base.authority.host || Port(u) != Port(c.base) ==> a == Denied(OriginEscape))
  {
    var p := [SLASH, SLASH] + host;
    var path := Tabbed(p);
    hide ValidRequest, Tabbed, NormalPath, Trimmed, Untabbed, SkipSlashes, HostEnd, Query, PathByte, Upper;
    TabbedNamesHost(host);
    SlashedBytes(host);
    TabbedReads(p);
    HostText(host);
    RootPath();
    assert host[..|host|] == host;
  }

  lemma SlashedBytes(host: Bytes)
    requires forall k :: 0 <= k < |host| ==> PathByte(host[k])
    ensures forall k :: 0 <= k < |host| + 2 ==> PathByte(([SLASH, SLASH] + host)[k])
  {
  }

  lemma TabbedReads(p: Bytes)
    requires p != [] && p[0] == SLASH && forall k :: 0 <= k < |p| ==> PathByte(p[k])
    ensures Untabbed(Trimmed(Tabbed(p))) == p
  {
    hide Untabbed, Trimmed, Tabbed, ValidRequest;
    NoLowBytes(p);
    TabbedUntabbed(p);
    TabbedStart(p);
    var tail := UntabbedTrimmed(Tabbed(p));
    NoTail(p, Untabbed(Trimmed(Tabbed(p))), tail);
  }

  /** Rules that pass validation and match nothing: those with a space, for instance. */
  lemma RuleWithSpaceDead(rule: Bytes, base: Url, path: Bytes, parse: HostParser)
    requires ValidRule(rule) && SPACE in Stem(rule)
    ensures !Grants(rule, base, path, parse)
  {
    hide Grants, ValidRule;
    assert !PathByte(SPACE);
    if CleanPath(Stem(rule)) {
      CleanBytes(Stem(rule));
    }
    RuleLiveExactly(rule, base, parse);
  }

  // ----- the host a text names -----

  /** No control character and no space: the parser reads the request as it stands. */
  predicate Visible(t: Bytes) {
    forall k :: 0 <= k < |t| ==> t[k] > SPACE
  }

  /** A slash or a backslash. */
  predicate Separator(b: byte) {
    b == 0x2F || b == 0x5C
  }

  lemma {:induction false} SkipsAll(m: Bytes, t: Bytes)
    requires (forall k :: 0 <= k < |m| ==> Separator(m[k])) && t != [] && !Separator(t[0])
    ensures SkipSlashes(m + t) == t
  {
    if m == [] {
      assert m + t == t;
    } else {
      assert (m + t)[1..] == m[1..] + t;
      SkipsAll(m[1..], t);
    }
  }

  lemma {:induction false} HostEndsAt(host: Bytes, tail: Bytes)
    requires forall k :: 0 <= k < |host| ==> !Separator(host[k]) && host[k] != 0x3F
    requires tail != [] ==> Separator(tail[0]) || tail[0] == 0x3F
    ensures HostEnd(host + tail) == |host|
  {
    if host == [] {
      assert host + tail == tail;
    } else {
      assert (host + tail)[1..] == host[1..] + tail;
      HostEndsAt(host[1..], tail);
    }
  }

  /**
   Two or more slashes or backslashes, then the host up to the next one or a question mark: the rest is
   the path, whose first slash is optional, and the query.
   */
  lemma HostJoined(base: Url, m: Bytes, host: Bytes, tail: Bytes, parse: HostParser)
    requires |m| >= 2 && (forall k :: 0 <= k < |m| ==> Separator(m[k])) && host != []
    requires forall k :: 0 <= k < |host| ==> !Separator(host[k]) && host[k] != 0x3F
    requires tail != [] ==> Separator(tail[0]) || tail[0] == 0x3F
    requires Visible(m + (host + tail))
    ensures Join(base, m + (host + tail), parse) ==
            match parse(host)
            case None => None
            case Some(named) =>
              var path := if tail != [] && tail[0] != 0x3F then tail[1..] else tail;
              Some(Url(base.scheme, named, NormalPath(path), Query(tail)))
  {
    hide NormalPath, Query, Untabbed, Trimmed, SkipSlashes, HostEnd;
    var t := m + (host + tail);
    NothingTrimmed(t);
    NothingToUntab(t);
    SkipsAll(m, host + tail);
    HostEndsAt(host, tail);
    assert t[0] == m[0] && t[1] == m[1];
    assert (host + tail)[..|host|] == host && (host + tail)[|host|..] == tail;
  }

  lemma {:induction false} TrimsFront(l: Bytes, t: Bytes)
    requires (forall k :: 0 <= k < |l| ==> l[k] <= 0x20) && t != [] && t[0] > 0x20
    ensures Trimmed(l + t) == TrimmedEnd(t)
  {
    if l == [] {
      assert l + t == t;
    } else {
      assert (l + t)[1..] == l[1..] + t;
      TrimsFront(l[1..], t);
    }
  }

  /** A slash alone goes to the host of the base: the rest is the path and the query. */
  lemma PathJoined(base: Url, t: Bytes, parse: HostParser)
    requires Visible(t) && t != [] && Separator(t[0]) && (|t| > 1 ==> !Separator(t[1]))
    ensures Join(base, t, parse) == Some(Url(base.scheme, base.authority, NormalPath(t[1..]), Query(t)))
  {
    hide NormalPath, Query, Untabbed, Trimmed;
    NothingTrimmed(t);
    NothingToUntab(t);
  }

  // ----- what the parser drops -----

  lemma DropsExactly(a: Bytes, b: byte, c: Bytes)
    ensures Untabbed(a + [b] + c) == Untabbed(a) + (if b == 0x09 || b == 0x0A || b == 0x0D then [] else [b]) + Untabbed(c)
  {
    UntabbedConcat(a + [b], c);
    UntabbedConcat(a, [b]);
    assert [b][1..] == [];
  }

  lemma {:induction false} TrimsEnd(t: Bytes, r: Bytes)
    requires t != [] && t[|t| - 1] > 0x20 && forall k :: 0 <= k < |r| ==> r[k] <= 0x20
    ensures TrimmedEnd(t + r) == t
    decreases |r|
  {
    if r == [] {
      assert t + r == t;
    } else {
      assert (t + r)[..|t + r| - 1] == t + r[..|r| - 1];
      TrimsEnd(t, r[..|r| - 1]);
    }
  }

  /** A tab, line feed or carriage return inside a request, and control characters and spaces around it, are not read. */
  lemma JoinDrops(base: Url, a: Bytes, b: byte, c: Bytes, l: Bytes, r: Bytes, parse: HostParser)
    requires a != [] && a[0] > 0x20 && c != [] && c[|c| - 1] > 0x20 && b in [0x09, 0x0A, 0x0D]
    requires (forall k :: 0 <= k < |l| ==> l[k] <= 0x20) && forall k :: 0 <= k < |r| ==> r[k] <= 0x20
    ensures Join(base, a + [b] + c, parse) == Join(base, a + c, parse)
    ensures Join(base, l + (a + c + r), parse) == Join(base, a + c, parse)
  {
    hide *;
    DropsExactly(a, b, c);
    UntabbedConcat(a, c);
    TrimmedWhole([], a + [b] + c, []);
    TrimmedWhole([], a + c, []);
    TrimmedWhole(l, a + c, r);
    assert [] + (a + [b] + c + []) == a + [b] + c && [] + (a + c + []) == a + c;
    JoinReads(base, a + [b] + c, a + c, parse);
    JoinReads(base, l + (a + c + r), a + c, parse);
  }

  lemma TrimmedWhole(l: Bytes, t: Bytes, r: Bytes)
    requires t != [] && t[0] > 0x20 && t[|t| - 1] > 0x20
    requires (forall k :: 0 <= k < |l| ==> l[k] <= 0x20) && forall k :: 0 <= k < |r| ==> r[k] <= 0x20
    ensures Trimmed(l + (t + r)) == t
  {
    hide TrimmedEnd, Trimmed;
    TrimsFront(l, t + r);
    TrimsEnd(t, r);
  }

  /** The join depends on what is read alone. */
  lemma JoinReads(base: Url, p: Bytes, q: Bytes, parse: HostParser)
    requires Untabbed(Trimmed(p)) == Untabbed(Trimmed(q))
    ensures Join(base, p, parse) == Join(base, q, parse)
  {
    hide Untabbed, Trimmed, NormalPath, SkipSlashes, HostEnd, Query, AfterAuthority, IsSlash;
  }

  // ----- exactly which requests are authorised -----

  lemma VisibleJoin(base: Url, path: Bytes, parse: HostParser)
    requires ValidRequest(path) && Visible(path)
    ensures path != []
    ensures Join(base, path, parse) == Some(Url(base.scheme, base.authority, NormalPath(path[1..]), Query(path)))
  {
    hide NormalPath, Query, NamesAuthority, Untabbed, Trimmed, TabOrNewline, ValidRequest;
    ValidStart(path);
    NothingTrimmed(path);
    NothingToUntab(path);
    NamesAuthorityExactly(path);
  }

  /** What becomes of a request without control characters and spaces, told from its text and the rules. */
  lemma {:induction false} AuthorizedExactly(c: Capability, verb: Bytes, path: Bytes, parse: HostParser)
    requires Visible(path)
    ensures var a := AuthorizeHttp(c, verb, path, parse);
            if Upper(verb) !in c.methods then a == Denied(MethodNotAllowed)
            else if !ValidRequest(path) then a == Denied(BadPath)
            else
              path != [] &&
              var normal := NormalPath(path[1..]);
              if exists rule :: rule in c.rules && Reaches(rule, normal)
              then a == Authorized(Upper(verb), Url(c.base.scheme, c.base.authority, normal, Query(path)))
              else a == Denied(PathNotAllowed)
  {
    hide Join, NormalPath, ValidRequest, Reaches, PathMatches, Visible, Query;
    if ValidRequest(path) {
      VisibleJoin(c.base, path, parse);
      forall rule ensures Reaches(rule, NormalPath(path[1..])) <==> PathMatches(rule, NormalPath(path[1..])) {
        ReachesIs(rule, NormalPath(path[1..]));
      }
    }
  }

  lemma UpperExactly(t: Bytes, u: Bytes)
    ensures Upper(t) == u <==>
            |u| == |t| && forall k :: 0 <= k < |t| ==>
              !(0x61 <= u[k] <= 0x7A) && (u[k] == t[k] || (0x61 <= t[k] <= 0x7A && u[k] == t[k] - 0x20))
  {
    if |u| == |t| && Upper(t) != u {
      var k :| 0 <= k < |t| && Upper(t)[k] != u[k];
    }
  }

  lemma QueryConcat(a: Bytes, b: Bytes)
    requires QUESTION !in a
    ensures Query(a + b) == Query(b)
  {
    BeforeQueryConcat(a, b);
    hide BeforeQuery;
    assert |BeforeQuery(b)| < |b| ==> (a + b)[|a + BeforeQuery(b)| + 1..] == b[|BeforeQuery(b)| + 1..];
  }

  /** Requests with the same normal path and query are judged alike. */
  lemma SameVerdict(c: Capability, verb: Bytes, p: Bytes, q: Bytes, parse: HostParser)
    requires ValidRequest(p) && ValidRequest(q) && Visible(p) && Visible(q)
    requires p != [] && q != [] && NormalPath(p[1..]) == NormalPath(q[1..]) && Query(p) == Query(q)
    ensures AuthorizeHttp(c, verb, p, parse) == AuthorizeHttp(c, verb, q, parse)
  {
    hide *;
    VisibleJoin(c.base, p, parse);
    VisibleJoin(c.base, q, parse);
    JoinDecides(c, verb, p, q, parse);
  }

  lemma JoinDecides(c: Capability, verb: Bytes, p: Bytes, q: Bytes, parse: HostParser)
    requires ValidRequest(p) && ValidRequest(q) && Join(c.base, p, parse) == Join(c.base, q, parse)
    ensures AuthorizeHttp(c, verb, p, parse) == AuthorizeHttp(c, verb, q, parse)
  {
    hide Join, ValidRequest, AnyMatches, SameOrigin, Upper;
  }

  /** A request that goes down a segment and up again is judged exactly as the one that does neither. */
  lemma UpRequest(c: Capability, verb: Bytes, front: Bytes, x: Bytes, d: Bytes, rest: Bytes, parse: HostParser)
    requires UpToSlash(front) && QUESTION !in front && BACKSLASH !in front
    requires Plain(x) && !OneDot(x) && !TwoDots(x) && TwoDots(d)
    requires var p, q := [SLASH] + (front + (x + [SLASH] + (d + [SLASH] + rest))), [SLASH] + (front + rest);
             ValidRequest(p) && ValidRequest(q) && Visible(p) && Visible(q)
    ensures AuthorizeHttp(c, verb, [SLASH] + (front + (x + [SLASH] + (d + [SLASH] + rest))), parse)
         == AuthorizeHttp(c, verb, [SLASH] + (front + rest), parse)
  {
    hide NormalPath, ValidRequest, Visible, Query, TwoDots, OneDot, AuthorizeHttp;
    SpelledPlain(d);
    var a, b := x + [SLASH] + (d + [SLASH]), front + (x + [SLASH] + (d + [SLASH] + rest));
    var p, q := [SLASH] + b, [SLASH] + (front + rest);
    assert p[1..] == b && q[1..] == front + rest;
    assert p == [SLASH] + front + a + rest && q == [SLASH] + front + rest;
    QueryConcat([SLASH] + front + a, rest);
    QueryConcat([SLASH] + front, rest);
    UpCancels(front, x, d, rest);
    SameVerdict(c, verb, p, q, parse);
  }

  // ----- one such request -----

  const API: Bytes := [0x61, 0x70, 0x69]
  const UP: Bytes := [0x25, 0x32, 0x65, 0x25, 0x32, 0x65]
  const ADMIN: Bytes := [0x61, 0x64, 0x6D, 0x69, 0x6E]

  lemma UpIsTwoDots()
    ensures TwoDots(UP) && !OneDot(API) && !TwoDots(API)
  {
    assert OneDot(UP[..3]) && OneDot(UP[3..]);
    assert API[0] == 0x61;
    forall n | 0 <= n <= |API| ensures !OneDot(API[..n]) || !OneDot(API[n..]) {
      if 0 < n { assert API[..n][0] == 0x61; }
    }
  }

  lemma NoColon(t: Bytes)
    requires COLON !in t
    ensures !Contains(t, [COLON, SLASH, SLASH])
  {
    forall i ensures !OccursAt([COLON, SLASH, SLASH], t, i) {
      if 0 <= i <= |t| - 3 { assert t[i..i + 3][0] == t[i]; }
    }
  }

  lemma UpSegments()
    ensures Segments([SLASH] + (API + [SLASH] + (UP + [SLASH] + ADMIN))) == [[], API, UP, ADMIN]
    ensures Segments([SLASH] + ADMIN) == [[], ADMIN]
  {
    hide Segments;
    SegmentAlone(ADMIN);
    SegmentFirst(UP, ADMIN);
    SegmentFirst(API, UP + [SLASH] + ADMIN);
    SegmentFirst([], API + [SLASH] + (UP + [SLASH] + ADMIN));
    SegmentFirst([], ADMIN);
    assert [] + [SLASH] + (API + [SLASH] + (UP + [SLASH] + ADMIN)) == [SLASH] + (API + [SLASH] + (UP + [SLASH] + ADMIN));
    assert [] + [SLASH] + ADMIN == [SLASH] + ADMIN;
  }

  lemma UpValid()
    ensures var p, q := [SLASH] + (API + [SLASH] + (UP + [SLASH] + ADMIN)), [SLASH] + ADMIN;
            ValidRequest(p) && ValidRequest(q) && Visible(p) && Visible(q)
  {
    var p, q := [SLASH] + (API + [SLASH] + (UP + [SLASH] + ADMIN)), [SLASH] + ADMIN;
    hide Segments, ValidRequest, Contains;
    UpSegments();
    assert |API| == 3 && |UP| == 6 && |ADMIN| == 5;
    NoColon(p);
    NoColon(q);
    ValidIf(p);
    ValidIf(q);
  }

  lemma AdminClean()
    ensures CleanPath([SLASH] + ADMIN)
  {
    hide Segments;
    UpSegments();
    assert CleanSegment([]) && CleanSegment(ADMIN);
  }

  lemma ApiMisses()
    ensures !PathMatches(PrefixRule([SLASH] + API), [SLASH] + ADMIN)
  {
    var stem, plain := [SLASH] + API, [SLASH] + ADMIN;
    StemOfPrefixRule(stem);
    assert stem[2] == 0x70 && plain[2] == 0x64;
    assert (stem + [SLASH])[2] == 0x70;
  }

  /** `/api/%2e%2e/admin` passes validation and is judged as `/admin`, which the rule for `/api` does not reach. */
  lemma EncodedUpRefused(c: Capability, verb: Bytes, parse: HostParser)
    requires Upper(verb) in c.methods && c.rules == [PrefixRule([SLASH] + API)]
    ensures var path := [SLASH] + (API + [SLASH] + (UP + [SLASH] + ADMIN));
            ValidRequest(path) && AuthorizeHttp(c, verb, path, parse) == Denied(PathNotAllowed)
  {
    hide *;
    var path, plain := [SLASH] + (API + [SLASH] + (UP + [SLASH] + ADMIN)), [SLASH] + ADMIN;
    UpIsTwoDots();
    UpValid();
    AdminClean();
    ApiMisses();
    ApiPlain();
    assert [] + (API + [SLASH] + (UP + [SLASH] + ADMIN)) == API + [SLASH] + (UP + [SLASH] + ADMIN) && [] + ADMIN == ADMIN;
    UpRequest(c, verb, [], API, UP, ADMIN, parse);
    CleanRequestUnchanged(c.base, plain, parse);
    NoneReached(c, verb, plain, parse);
  }

  lemma ApiPlain()
    ensures Plain(API) && UpToSlash([])
  {
  }

  lemma NoneReached(c: Capability, verb: Bytes, path: Bytes, parse: HostParser)
    requires Upper(verb) in c.methods && ValidRequest(path)
    requires Join(c.base, path, parse) == Some(Url(c.base.scheme, c.base.authority, path, None))
    requires forall rule :: rule in c.rules ==> !PathMatches(rule, path)
    ensures AuthorizeHttp(c, verb, path, parse) == Denied(PathNotAllowed)
  {
    hide Join, ValidRequest, PathMatches, Upper;
  }

  // ----- what validation refuses and accepts -----

  lemma {:induction false} SegmentWithin(a: Bytes, d: Bytes, b: Bytes)
    requires SLASH !in d && (b == [] || b[0] == SLASH)
    ensures d in Segments(a + [SLASH] + (d + b))
  {
    hide Segments;
    SegmentsConcat(a, d + b);
    if b == [] {
      assert d + b == d;
      SegmentAlone(d);
    } else {
      assert d + b == d + [SLASH] + b[1..];
      SegmentFirst(d, b[1..]);
    }
    assert d in Segments(d + b);
  }

  /** A plain dot segment in the path, wherever it stands, is refused. */
  lemma DotRequestRefused(a: Bytes, d: Bytes, b: Bytes)
    requires QUESTION !in a && d in [[0x2E], [0x2E, 0x2E]] && (b == [] || b[0] == SLASH || b[0] == QUESTION)
    ensures !ValidRequest(a + [SLASH] + (d + b))
  {
    hide *;
    DotPlain(d);
    EndsOrGoesOn(b);
    HeadText(a, d, b);
    SegmentWithin(a, d, BeforeQuery(b));
    HasDot(a + [SLASH] + (d + b), d);
  }

  lemma DotPlain(d: Bytes)
    requires d in [[0x2E], [0x2E, 0x2E]]
    ensures QUESTION !in d && SLASH !in d
  {
  }

  lemma HeadText(a: Bytes, d: Bytes, b: Bytes)
    requires QUESTION !in a && QUESTION !in d
    ensures BeforeQuery(a + [SLASH] + (d + b)) == a + [SLASH] + (d + BeforeQuery(b))
  {
    hide BeforeQuery;
    BeforeQueryConcat(d, b);
    BeforeQueryConcat([SLASH], d + b);
    BeforeQueryConcat(a, [SLASH] + (d + b));
    assert a + [SLASH] + (d + b) == a + ([SLASH] + (d + b));
  }

  lemma EndsOrGoesOn(b: Bytes)
    requires b == [] || b[0] == SLASH || b[0] == QUESTION
    ensures BeforeQuery(b) == [] || BeforeQuery(b)[0] == SLASH
  {
  }

  lemma HasDot(path: Bytes, d: Bytes)
    requires d in Segments(BeforeQuery(path)) && d in [[0x2E], [0x2E, 0x2E]]
    ensures !ValidRequest(path)
  {
    hide Segments, BeforeQuery, Contains;
  }

  /** So is a path that is not absolute, names an authority or a scheme, or holds a backslash or a number sign. */
  lemma ForeignRequestRefused(path: Bytes)
    requires path == [] || path[0] != 0x2F || (|path| > 1 && path[1] == 0x2F) || 0x5C in path || 0x23 in path
             || Contains(path, [0x3A, 0x2F, 0x2F])
    ensures !ValidRequest(path)
  {
    hide Contains, Segments, BeforeQuery;
  }

  /** Every path in normal form passes that holds neither of the two. */
  lemma CleanRequestValid(p: Bytes)
    requires CleanPath(p) && !(|p| > 1 && p[1] == 0x2F) && !Contains(p, [0x3A, 0x2F, 0x2F])
    ensures ValidRequest(p)
  {
    CleanBytes(p);
    ClearOfMarks(p);
    CleanHasNoDots(p);
    hide Contains, Segments, CleanPath, PathByte;
    assert BeforeQuery(p) == p by { NoQuery(p); }
    assert SingleDot([DOT]) && DoubleDot([DOT, DOT]);
  }

  /** A path rule is refused for a dot segment, a star elsewhere, and where it is not an absolute plain path. */
  lemma RuleRefused(rule: Bytes, a: Bytes, d: Bytes, b: Bytes)
    ensures d in [[0x2E], [0x2E, 0x2E]] && (b == [] || b[0] == SLASH) && Stem(rule) == a + [SLASH] + (d + b) ==> !ValidRule(rule)
    ensures 0x2A in rule && (|rule| < 2 || rule[|rule| - 2..] != [0x2F, 0x2A]) ==> !ValidRule(rule)
    ensures rule == [0x2F, 0x2A] || rule == [] || rule[0] != 0x2F ==> !ValidRule(rule)
    ensures 0x5C in Stem(rule) || 0x3F in Stem(rule) || 0x23 in Stem(rule) ==> !ValidRule(rule)
  {
    hide Segments;
    if d in [[0x2E], [0x2E, 0x2E]] && (b == [] || b[0] == SLASH) {
      SegmentWithin(a, d, b);
    }
  }

  /** Every path in normal form is an exact rule and the stem of a prefix rule, but for a second slash. */
  lemma CleanRuleValid(p: Bytes)
    requires CleanPath(p) && !(|p| > 1 && p[1] == 0x2F)
    ensures ValidRule(PrefixRule(p))
    ensures 0x2A !in p ==> ValidRule(p)
  {
    CleanBytes(p);
    ClearOfMarks(p);
    CleanHasNoDots(p);
    StemOfPrefixRule(p);
    hide Segments, CleanPath, PathByte;
    assert SingleDot([DOT]) && DoubleDot([DOT, DOT]);
  }
}
