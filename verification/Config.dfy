/** The configuration: its validation, and looking a capability up by id. */
module Config {
  import opened Bytes
  import opened Policy
  import opened Authorize

  datatype SchemeText = HttpScheme | HttpsScheme | OtherScheme

  /** What parsing a base URL gives. */
  datatype BaseUrl =
    | NotAUrl
    | BaseUrl(scheme: SchemeText, credentials: bool, host: Option<Bytes>, port: Option<nat>, path: Bytes, query: bool,
              fragment: bool)

  datatype Limits = Limits(timeoutSeconds: nat, maxResponseBytes: nat, maxRequestsPerMinute: nat)

  datatype HttpCapability = HttpCapability(id: Bytes, credential: Bytes, base: BaseUrl, allowInsecureHttp: bool,
                                           methods: seq<Bytes>, paths: seq<Bytes>, limits: Limits)

  datatype SshOperation = SshOperation(id: Bytes, command: seq<Bytes>, readOnly: bool)

  datatype SshCapability = SshCapability(id: Bytes, user: Bytes, port: nat, operations: seq<SshOperation>, limits: Limits)

  datatype VaultConfig = System | EncryptedFile(path: Bytes, keyFile: Bytes)

  datatype Config = Config(version: nat, vault: VaultConfig, http: seq<HttpCapability>, ssh: seq<SshCapability>)

  // ----- one capability -----

  predicate IdentifierByte(b: byte) {
    0x30 <= b < 0x3A || 0x41 <= b < 0x5B || 0x61 <= b < 0x7B || b in [0x2D, 0x5F, 0x2E]
  }

  predicate ValidIdentifier(t: Bytes) {
    0 < |t| <= 128 && forall k :: 0 <= k < |t| ==> IdentifierByte(t[k])
  }

  const GET: Bytes := [0x47, 0x45, 0x54]
  const HEAD: Bytes := [0x48, 0x45, 0x41, 0x44]
  const POST: Bytes := [0x50, 0x4F, 0x53, 0x54]
  const PUT: Bytes := [0x50, 0x55, 0x54]
  const PATCH: Bytes := [0x50, 0x41, 0x54, 0x43, 0x48]
  const DELETE: Bytes := [0x44, 0x45, 0x4C, 0x45, 0x54, 0x45]

  predicate ValidMethod(t: Bytes) {
    t == Upper(t) && t in [GET, HEAD, POST, PUT, PATCH, DELETE]
  }

  predicate ValidLimits(l: Limits) {
    && 1 <= l.timeoutSeconds <= 300
    && 1 <= l.maxResponseBytes <= 4 * 1024 * 1024
    && 1 <= l.maxRequestsPerMinute <= 60_000
  }

  predicate ValidBase(u: BaseUrl, allowInsecureHttp: bool) {
    && u.BaseUrl? && !u.credentials && !u.query && !u.fragment && u.host.Some?
    && (u.scheme.HttpsScheme? || (u.scheme.HttpScheme? && allowInsecureHttp))
  }

  predicate ValidHttp(c: HttpCapability) {
    && ValidIdentifier(c.id) && ValidIdentifier(c.credential)
    && c.methods != [] && c.paths != []
    && (forall i :: 0 <= i < |c.methods| ==> ValidMethod(c.methods[i]))
    && (forall i :: 0 <= i < |c.paths| ==> ValidRule(c.paths[i]))
    && ValidLimits(c.limits) && ValidBase(c.base, c.allowInsecureHttp)
  }

  predicate ValidOperation(o: SshOperation) {
    && ValidIdentifier(o.id) && o.command != []
    && forall i :: 0 <= i < |o.command| ==> o.command[i] != [] && 0 !in o.command[i]
  }

  /** No id occurs twice. */
  predicate Distinct(ids: seq<Bytes>) {
    forall i, j :: 0 <= i < j < |ids| ==> ids[i] != ids[j]
  }

  function OperationIds(os: seq<SshOperation>): (ids: seq<Bytes>)
    ensures |ids| == |os| && forall i :: 0 <= i < |os| ==> ids[i] == os[i].id
  {
    seq(|os|, i requires 0 <= i < |os| => os[i].id)
  }

  predicate ValidSsh(c: SshCapability) {
    && ValidIdentifier(c.id) && ValidIdentifier(c.user) && c.port != 0
    && c.operations != [] && ValidLimits(c.limits)
    && (forall i :: 0 <= i < |c.operations| ==> ValidOperation(c.operations[i]))
    && Distinct(OperationIds(c.operations))
  }

  /** The set holds exactly the first `n` ids, and these are distinct. */
  ghost predicate Seen(ids: set<Bytes>, all: seq<Bytes>, n: nat) {
    n <= |all| && Distinct(all[..n]) && (forall x :: x in ids <==> x in all[..n])
  }

  lemma SeenEnds(ids: set<Bytes>, all: seq<Bytes>)
    ensures Seen({}, all, 0)
    ensures Seen(ids, all, |all|) ==> Distinct(all)
  {
    assert all[..|all|] == all && all[..0] == [];
  }

  lemma SeeNext(ids: set<Bytes>, all: seq<Bytes>, n: nat)
    requires Seen(ids, all, n) && n < |all|
    ensures all[n] in ids ==> !Distinct(all)
    ensures all[n] !in ids ==> Seen(ids + {all[n]}, all, n + 1)
  {
    assert all[..n + 1] == all[..n] + [all[n]];
  }

  method ValidateSsh(c: SshCapability) returns (ok: bool)
    ensures ok <==> ValidSsh(c)
  {
    if !ValidIdentifier(c.id) || !ValidIdentifier(c.user) || c.port == 0 || c.operations == [] {
      return false;
    }
    var operationIds: set<Bytes> := {};
    var i := 0;
    ghost var all := OperationIds(c.operations);
    while i < |c.operations|
      invariant Seen(operationIds, all, i)
      invariant forall k :: 0 <= k < i ==> ValidOperation(c.operations[k])
    {
      var operation := c.operations[i];
      SeeNext(operationIds, all, i);
      if !ValidIdentifier(operation.id) || operation.id in operationIds || !ValidOperation(operation) {
        return false;
      }
      operationIds := operationIds + {operation.id};
      i := i + 1;
    }
    assert all[..i] == all;
    ok := ValidLimits(c.limits);
  }

  // ----- the whole configuration -----

  function HttpIds(cs: seq<HttpCapability>): (ids: seq<Bytes>)
    ensures |ids| == |cs| && forall i :: 0 <= i < |cs| ==> ids[i] == cs[i].id
  {
    seq(|cs|, i requires 0 <= i < |cs| => cs[i].id)
  }

  function SshIds(cs: seq<SshCapability>): (ids: seq<Bytes>)
    ensures |ids| == |cs| && forall i :: 0 <= i < |cs| ==> ids[i] == cs[i].id
  {
    seq(|cs|, i requires 0 <= i < |cs| => cs[i].id)
  }

  /** The ids of all capabilities, of both kinds. */
  function Ids(c: Config): seq<Bytes> {
    HttpIds(c.http) + SshIds(c.ssh)
  }

  predicate ValidVault(v: VaultConfig) {
    v.EncryptedFile? ==> v.path != v.keyFile
  }

  predicate ValidConfig(c: Config) {
    && c.version == 1 && ValidVault(c.vault)
    && (forall i :: 0 <= i < |c.http| ==> ValidHttp(c.http[i]))
    && (forall i :: 0 <= i < |c.ssh| ==> ValidSsh(c.ssh[i]))
    && Distinct(Ids(c))
  }

  datatype Problem = NoProblem | BadVersion | BadVault | BadCapability(id: Bytes) | DuplicateId(id: Bytes)

  lemma ConfigExactly(c: Config)
    ensures ValidConfig(c) <==>
            && c.version == 1 && ValidVault(c.vault)
            && (forall h :: h in c.http ==> ValidHttp(h)) && (forall s :: s in c.ssh ==> ValidSsh(s)) && Distinct(Ids(c))
    ensures Distinct(Ids(c)) <==> forall i, j :: 0 <= i < j < |Ids(c)| ==> Ids(c)[i] != Ids(c)[j]
    ensures ValidVault(c.vault) <==> (c.vault.EncryptedFile? ==> c.vault.path != c.vault.keyFile)
  {
    hide ValidHttp, ValidSsh, Ids;
  }

  /** One set of ids for both lists: it passes exactly when everything is valid and no id occurs twice. */
  method Validate(c: Config) returns (problem: Problem)
    ensures problem == NoProblem <==>
            && c.version == 1 && (c.vault.EncryptedFile? ==> c.vault.path != c.vault.keyFile)
            && (forall h :: h in c.http ==> ValidHttp(h)) && (forall s :: s in c.ssh ==> ValidSsh(s))
            && (forall i, j :: 0 <= i < j < |Ids(c)| ==> Ids(c)[i] != Ids(c)[j])
    ensures problem == NoProblem <==> ValidConfig(c)
    ensures problem.DuplicateId? ==> exists i, j :: 0 <= i < j < |Ids(c)| && Ids(c)[i] == Ids(c)[j] == problem.id
  {
    hide ValidHttp, ValidSsh, ValidVault, Distinct, Seen, ValidConfig;
    ConfigExactly(c);
    if c.version != 1 {
      return BadVersion;
    }
    if !ValidVault(c.vault) {
      return BadVault;
    }
    var ids: set<Bytes> := {};
    var i := 0;
    ghost var all := Ids(c);
    SeenEnds(ids, all);
    while i < |c.http|
      invariant i <= |c.http|
      invariant Seen(ids, all, i)
      invariant forall k :: 0 <= k < i ==> ValidHttp(c.http[k])
    {
      var capability := c.http[i];
      if !ValidHttp(capability) {
        return BadCapability(capability.id);
      }
      assert all[i] == capability.id;
      if capability.id in ids {
        Repeated(ids, all, i);
        return DuplicateId(capability.id);
      }
      SeeNext(ids, all, i);
      ids := ids + {capability.id};
      i := i + 1;
    }
    var j := 0;
    while j < |c.ssh|
      invariant j <= |c.ssh|
      invariant Seen(ids, all, |c.http| + j)
      invariant forall k :: 0 <= k < j ==> ValidSsh(c.ssh[k])
    {
      var capability := c.ssh[j];
      var ok := ValidateSsh(capability);
      if !ok {
        return BadCapability(capability.id);
      }
      assert all[|c.http| + j] == capability.id;
      if capability.id in ids {
        Repeated(ids, all, |c.http| + j);
        return DuplicateId(capability.id);
      }
      SeeNext(ids, all, |c.http| + j);
      ids := ids + {capability.id};
      j := j + 1;
    }
    SeenEnds(ids, all);
    problem := NoProblem;
  }

  lemma Repeated(ids: set<Bytes>, all: seq<Bytes>, n: nat)
    requires Seen(ids, all, n) && n < |all| && all[n] in ids
    ensures !Distinct(all) && exists i, j :: 0 <= i < j < |all| && all[i] == all[j] == all[n]
  {
    var i :| 0 <= i < |all[..n]| && all[..n][i] == all[n];
    assert all[i] == all[n];
  }

  // ----- what passes, in plain terms -----

  lemma IdentifierExactly(t: Bytes)
    ensures ValidIdentifier(t) <==>
            1 <= |t| <= 128 && forall k :: 0 <= k < |t| ==>
              (var c := t[k] as char; 'a' <= c <= 'z' || 'A' <= c <= 'Z' || '0' <= c <= '9' || c == '-' || c == '_' || c == '.')
  {
  }

  /** The six methods, in upper case only. */
  lemma MethodExactly(t: Bytes)
    ensures ValidMethod(t) <==>
            Spells(t, "GET") || Spells(t, "HEAD") || Spells(t, "POST") || Spells(t, "PUT") || Spells(t, "PATCH") || Spells(t, "DELETE")
    ensures t == GET <==> Spells(t, "GET")
    ensures t == HEAD <==> Spells(t, "HEAD")
  {
    UpperAlready(t);
    NamesSpelled(t);
    hide Upper, Spells, GET, HEAD, POST, PUT, PATCH, DELETE;
  }

  lemma NamesSpelled(t: Bytes)
    ensures t == GET <==> Spells(t, "GET")
    ensures t == HEAD <==> Spells(t, "HEAD")
    ensures t == POST <==> Spells(t, "POST")
    ensures t == PUT <==> Spells(t, "PUT")
    ensures t == PATCH <==> Spells(t, "PATCH")
    ensures t == DELETE <==> Spells(t, "DELETE")
  {
  }

  lemma UpperAlready(t: Bytes)
    ensures t in [GET, HEAD, POST, PUT, PATCH, DELETE] ==> t == Upper(t)
  {
  }

  /** What is asked of an HTTP capability, and no more. */
  lemma HttpExactly(h: HttpCapability)
    ensures ValidHttp(h) <==>
            && ValidIdentifier(h.id) && ValidIdentifier(h.credential)
            && h.methods != [] && (forall m :: m in h.methods ==> ValidMethod(m))
            && h.paths != [] && (forall p :: p in h.paths ==> ValidRule(p))
            && 1 <= h.limits.timeoutSeconds <= 300 && 1 <= h.limits.maxResponseBytes <= 4194304
            && 1 <= h.limits.maxRequestsPerMinute <= 60000
            && h.base.BaseUrl? && h.base.host.Some? && !h.base.credentials && !h.base.query && !h.base.fragment
            && (h.base.scheme.HttpsScheme? || (h.base.scheme.HttpScheme? && h.allowInsecureHttp))
  {
    hide ValidIdentifier, ValidMethod, ValidRule;
  }

  /** And of an SSH capability. */
  lemma SshExactly(s: SshCapability)
    ensures ValidSsh(s) <==>
            && ValidIdentifier(s.id) && ValidIdentifier(s.user) && s.port != 0 && s.operations != []
            && 1 <= s.limits.timeoutSeconds <= 300 && 1 <= s.limits.maxResponseBytes <= 4194304
            && 1 <= s.limits.maxRequestsPerMinute <= 60000
            && (forall o :: o in s.operations ==> Runnable(o))
            && (forall i, j :: 0 <= i < j < |s.operations| ==> s.operations[i].id != s.operations[j].id)
  {
    hide ValidIdentifier;
    DistinctOperations(s.operations);
    hide ValidOperation, Distinct;
    forall o ensures ValidOperation(o) <==> Runnable(o) {
      OperationExactly(o);
    }
  }

  predicate Runnable(o: SshOperation) {
    ValidIdentifier(o.id) && o.command != [] && forall part :: part in o.command ==> part != [] && 0 !in part
  }

  lemma OperationExactly(o: SshOperation)
    ensures ValidOperation(o) <==> Runnable(o)
  {
    hide ValidIdentifier;
    assert forall i :: 0 <= i < |o.command| ==> o.command[i] in o.command;
  }

  lemma DistinctOperations(os: seq<SshOperation>)
    ensures Distinct(OperationIds(os)) <==> forall i, j :: 0 <= i < j < |os| ==> os[i].id != os[j].id
  {
    var ids := OperationIds(os);
    assert forall i :: 0 <= i < |os| ==> ids[i] == os[i].id;
  }

  // ----- lookup -----

  /** The first HTTP capability with this id. */
  function FindHttp(cs: seq<HttpCapability>, id: Bytes): Option<HttpCapability> {
    if cs == [] then None else if cs[0].id == id then Some(cs[0]) else FindHttp(cs[1..], id)
  }

  function FindSsh(cs: seq<SshCapability>, id: Bytes): Option<SshCapability> {
    if cs == [] then None else if cs[0].id == id then Some(cs[0]) else FindSsh(cs[1..], id)
  }

  function FindOperation(os: seq<SshOperation>, id: Bytes): Option<SshOperation> {
    if os == [] then None else if os[0].id == id then Some(os[0]) else FindOperation(os[1..], id)
  }

  lemma {:induction false} HttpFinds(cs: seq<HttpCapability>, id: Bytes)
    ensures FindHttp(cs, id).Some? ==> FindHttp(cs, id).value in cs && FindHttp(cs, id).value.id == id
    ensures forall c :: c in cs && c.id == id ==> FindHttp(cs, id).Some?
  {
    if cs != [] { HttpFinds(cs[1..], id); }
  }

  lemma {:induction false} SshFinds(cs: seq<SshCapability>, id: Bytes)
    ensures FindSsh(cs, id).Some? ==> FindSsh(cs, id).value in cs && FindSsh(cs, id).value.id == id
    ensures forall c :: c in cs && c.id == id ==> FindSsh(cs, id).Some?
  {
    if cs != [] { SshFinds(cs[1..], id); }
  }

  lemma {:induction false} OperationFinds(os: seq<SshOperation>, id: Bytes)
    ensures FindOperation(os, id).Some? ==> FindOperation(os, id).value in os && FindOperation(os, id).value.id == id
    ensures forall o :: o in os && o.id == id ==> FindOperation(os, id).Some?
  {
    if os != [] { OperationFinds(os[1..], id); }
  }

  /** In a valid configuration an id finds every capability that carries it, and names one kind only. */
  lemma LookupUnique(c: Config, id: Bytes, h: HttpCapability, s: SshCapability)
    requires ValidConfig(c)
    ensures h in c.http && h.id == id <==> FindHttp(c.http, id) == Some(h)
    ensures s in c.ssh && s.id == id <==> FindSsh(c.ssh, id) == Some(s)
    ensures FindHttp(c.http, id).None? || FindSsh(c.ssh, id).None?
  {
    HttpFinds(c.http, id);
    SshFinds(c.ssh, id);
    hide ValidHttp, ValidSsh;
    DistinctAcross(c);
  }

  lemma DistinctAcross(c: Config)
    requires Distinct(Ids(c))
    ensures forall a, b :: a in c.http && b in c.http && a.id == b.id ==> a == b
    ensures forall a, b :: a in c.ssh && b in c.ssh && a.id == b.id ==> a == b
    ensures forall a, b :: a in c.http && b in c.ssh ==> a.id != b.id
  {
    var ids, n := Ids(c), |c.http|;
    forall a, b | a in c.http && b in c.http && a.id == b.id ensures a == b {
      var i :| 0 <= i < n && c.http[i] == a;
      var j :| 0 <= j < n && c.http[j] == b;
      assert ids[i] == ids[j];
    }
    forall a, b | a in c.ssh && b in c.ssh && a.id == b.id ensures a == b {
      var i :| 0 <= i < |c.ssh| && c.ssh[i] == a;
      var j :| 0 <= j < |c.ssh| && c.ssh[j] == b;
      assert ids[n + i] == ids[n + j];
    }
    forall a, b | a in c.http && b in c.ssh ensures a.id != b.id {
      var i :| 0 <= i < n && c.http[i] == a;
      var j :| 0 <= j < |c.ssh| && c.ssh[j] == b;
      assert ids[i] != ids[n + j];
    }
  }

  /** No path rule of a valid configuration matches every absolute path. */
  lemma NoOpenRule(c: Config, h: HttpCapability, rule: Bytes) returns (path: Bytes)
    requires ValidConfig(c) && h in c.http && rule in h.paths
    ensures StartsWith(path, [SLASH]) && CleanPath(path) && !PathMatches(rule, path)
  {
    assert ValidRule(rule) by { assert ValidHttp(h); }
    NoRuleMatchesAll(rule);
    hide PathMatches, ValidConfig, ValidRule;
    path := if PathMatches(rule, [SLASH]) then [SLASH, 0x61] else [SLASH];
    PlainClean();
  }

  lemma PlainClean()
    ensures CleanPath([SLASH]) && CleanPath([SLASH, 0x61])
  {
    assert [] + [SLASH] + [] == [SLASH] && [] + [SLASH] + [0x61] == [SLASH, 0x61] && [0x61][1..] == [];
    SegmentsConcat([], []);
    SegmentsConcat([], [0x61]);
    assert Segments([0x61]) == [[0x61] + []] + [[]][1..];
    assert CleanSegment([]) && CleanSegment([0x61]);
  }
}
