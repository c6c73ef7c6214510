/**
 Any number of concurrent HTTP and SSH calls on one configuration and one limiter. Each call looks
 up and authorises, reads the clock, passes the limiter under its mutex, and then sends or spawns.
 */
module Broker {
  import opened Bytes
  import opened Authorize
  import opened Config
  import opened Policy
  import opened RateLimit

  /** A call of one of the four tools; `readOnly` is set by `http_read` and `ssh_read`. */
  datatype Request =
    | HttpRequest(id: Bytes, verb: Bytes, path: Bytes, readOnly: bool)
    | SshRequest(id: Bytes, operation: Bytes, readOnly: bool)

  /** What a cleared call will do: send a request or spawn an SSH client. */
  datatype Target = Send(verb: Bytes, url: Url, readOnly: bool) | Spawn(operation: SshOperation, readOnly: bool)

  datatype Phase =
    | Asked(request: Request)
    | Cleared(id: Bytes, target: Target, maximum: nat)                // to read the clock
    | Stamped(id: Bytes, target: Target, maximum: nat, now: Time)     // to take the limiter's mutex
    | Admitted(id: Bytes, target: Target, ticket: nat)                // to send or spawn
    | Ended

  /** A send or a spawn; `ticket` is the position of the call's own check in the order of the mutex. */
  datatype Launch = Launch(id: Bytes, target: Target, ticket: nat)

  datatype State = State(calls: Calls, history: seq<Event>, launches: seq<Launch>, tasks: map<nat, Phase>)

  /** A step of call `c`, with the clock as it stands; `Fail` is any error or abandonment. */
  datatype Action = Arrive(c: nat, request: Request) | Advance(c: nat, clock: Time) | Fail(c: nat)

  function Base(u: BaseUrl): Option<Url> {
    if !u.BaseUrl? || u.host.None? || u.scheme.OtherScheme? then None
    else Some(Url(if u.scheme.HttpScheme? then Http else Https, Authority(u.host.value, u.port), u.path, None))
  }

  function PolicyOf(c: HttpCapability, base: Url): Capability {
    Capability(c.methods, c.paths, base)
  }

  /** Everything a call checks before it reads the clock. */
  ghost function Clear(config: Config, request: Request, parse: HostParser): Phase {
    match request
    case HttpRequest(id, verb, path, readOnly) =>
      var found := FindHttp(config.http, id);
      if readOnly && Upper(verb) !in [GET, HEAD] then Ended
      else if found.None? || Base(found.value.base).None? then Ended
      else
        var outcome := AuthorizeHttp(PolicyOf(found.value, Base(found.value.base).value), verb, path, parse);
        if outcome.Denied? then Ended
        else Cleared(id, Send(outcome.verb, outcome.url, readOnly), found.value.limits.maxRequestsPerMinute)
    case SshRequest(id, operation, readOnly) =>
      var found := FindSsh(config.ssh, id);
      if found.None? || FindOperation(found.value.operations, operation).None? then Ended
      else
        var o := FindOperation(found.value.operations, operation).value;
        if readOnly != o.readOnly then Ended
        else Cleared(id, Spawn(o, readOnly), found.value.limits.maxRequestsPerMinute)
  }

  ghost function Next(config: Config, parse: HostParser, s: State, a: Action): State {
    match a
    case Arrive(c, request) => if c in s.tasks && !s.tasks[c].Ended? then s else s.(tasks := s.tasks[c := Asked(request)])
    case Fail(c) => s.(tasks := s.tasks[c := Ended])
    case Advance(c, clock) =>
      if c !in s.tasks then s
      else
        match s.tasks[c]
        case Asked(request) => s.(tasks := s.tasks[c := Clear(config, request, parse)])
        case Cleared(id, target, maximum) => s.(tasks := s.tasks[c := Stamped(id, target, maximum, clock)])
        case Stamped(id, target, maximum, now) =>
          var verdict := Checked(s.calls, id, now, maximum);
          State(verdict.calls, s.history + [Event(id, now, maximum)], s.launches,
                s.tasks[c := if verdict.admitted then Admitted(id, target, |s.history|) else Ended])
        case Admitted(id, target, ticket) =>
          s.(launches := s.launches + [Launch(id, target, ticket)], tasks := s.tasks[c := Ended])
        case Ended => s
  }

  ghost function Run(config: Config, parse: HostParser, actions: seq<Action>): State
    decreases |actions|
  {
    if actions == [] then State(map[], [], [], map[])
    else Next(config, parse, Run(config, parse, actions[..|actions| - 1]), actions[|actions| - 1])
  }

  // ----- the invariant -----

  /** The check at this position of the mutex order was admitted. */
  predicate AdmittedAt(h: seq<Event>, i: nat) {
    i < |h| && Last(h[..i + 1]).admitted
  }

  /** What a validated configuration lets a call with this id do. */
  ghost predicate Permitted(config: Config, id: Bytes, target: Target) {
    match target
    case Send(verb, url, readOnly) =>
      var found := FindHttp(config.http, id);
      && (readOnly ==> verb in [GET, HEAD])
      && found.Some? && found.value.base.BaseUrl? && found.value.base.host.Some?
      && var base := found.value.base;
         && (if url.scheme == Https then base.scheme.HttpsScheme?
             else base.scheme.HttpScheme? && found.value.allowInsecureHttp)
         && url.authority.host == base.host.value
         && Port(url) == (if base.port.Some? then base.port.value else if url.scheme == Https then 443 else 80)
         && verb in found.value.methods && CleanPath(url.path)
         && exists rule :: rule in found.value.paths && Reaches(rule, url.path)
    case Spawn(operation, readOnly) =>
      var found := FindSsh(config.ssh, id);
      found.Some? && operation in found.value.operations && operation.readOnly == readOnly
  }

  /** The limit of the one capability with this id, of either kind. */
  function LimitOf(config: Config, id: Bytes): nat {
    var h := FindHttp(config.http, id);
    var s := FindSsh(config.ssh, id);
    if h.Some? then h.value.limits.maxRequestsPerMinute else if s.Some? then s.value.limits.maxRequestsPerMinute else 0
  }

  /** The ticket is an admitted check of this id. */
  predicate Covered(h: seq<Event>, id: Bytes, ticket: nat) {
    AdmittedAt(h, ticket) && h[ticket].id == id
  }

  ghost predicate PhaseOk(config: Config, s: State, p: Phase) {
    match p
    case Cleared(id, target, maximum) => Permitted(config, id, target) && maximum == LimitOf(config, id)
    case Stamped(id, target, maximum, _) => Permitted(config, id, target) && maximum == LimitOf(config, id)
    case Admitted(id, target, ticket) =>
      && Permitted(config, id, target) && Covered(s.history, id, ticket)
      && forall k :: 0 <= k < |s.launches| ==> s.launches[k].ticket != ticket
    case _ => true
  }

  predicate TicketsDistinct(s: State) {
    && (forall i, j :: 0 <= i < j < |s.launches| ==> s.launches[i].ticket != s.launches[j].ticket)
    && (forall c, e :: c in s.tasks && e in s.tasks && c != e && s.tasks[c].Admitted? && s.tasks[e].Admitted? ==>
          s.tasks[c].ticket != s.tasks[e].ticket)
  }

  ghost predicate Inv(config: Config, s: State) {
    && s.calls == CallsAfter(s.history)
    && (forall i :: 0 <= i < |s.history| ==> s.history[i].maximum == LimitOf(config, s.history[i].id))
    && (forall c :: c in s.tasks ==> PhaseOk(config, s, s.tasks[c]))
    && (forall k :: 0 <= k < |s.launches| ==>
          Permitted(config, s.launches[k].id, s.launches[k].target) && Covered(s.history, s.launches[k].id, s.launches[k].ticket))
    && TicketsDistinct(s)
  }

  lemma ClearPermits(config: Config, request: Request, parse: HostParser)
    requires ValidConfig(config)
    ensures var p := Clear(config, request, parse);
            p.Cleared? ==> Permitted(config, p.id, p.target) && p.maximum == LimitOf(config, p.id)
    ensures var p := Clear(config, request, parse); p.Cleared? || p.Ended?
  {
    hide ValidConfig, AuthorizeHttp, CleanPath, Reaches, ValidHttp;
    match request
    case HttpRequest(id, verb, path, readOnly) =>
      var found := FindHttp(config.http, id);
      if found.Some? && Base(found.value.base).Some? {
        BaseAllowed(config, id);
        AuthorizedSound(PolicyOf(found.value, Base(found.value.base).value), verb, path, parse);
      }
    case SshRequest(id, operation, readOnly) =>
      var found := FindSsh(config.ssh, id);
      if found.Some? {
        LookupUnique(config, id, HttpCapability(id, [], NotAUrl, false, [], [], found.value.limits), found.value);
        OperationFinds(found.value.operations, operation);
      }
  }

  lemma BaseAllowed(config: Config, id: Bytes)
    requires ValidConfig(config) && FindHttp(config.http, id).Some?
    ensures var h := FindHttp(config.http, id).value;
            h.base.BaseUrl? && (h.base.scheme.HttpScheme? ==> h.allowInsecureHttp)
  {
    HttpFinds(config.http, id);
    assert ValidHttp(FindHttp(config.http, id).value);
  }

  /** The policy of a valid capability: its methods and rules, and the base it is configured with. */
  ghost function PolicyVerdict(h: HttpCapability, verb: Bytes, path: Bytes, parse: HostParser): Outcome
    requires ValidHttp(h)
  {
    var scheme := if h.base.scheme.HttpsScheme? then Https else Http;
    AuthorizeHttp(Capability(h.methods, h.paths, Url(scheme, Authority(h.base.host.value, h.base.port), h.base.path, None)),
                  verb, path, parse)
  }

  /** An HTTP call is cleared exactly if its capability's policy authorises it, and the tool may use the method. */
  lemma HttpClearedExactly(config: Config, h: HttpCapability, verb: Bytes, path: Bytes, readOnly: bool, parse: HostParser)
    requires ValidConfig(config) && h in config.http
    ensures ValidHttp(h)
    ensures Clear(config, HttpRequest(h.id, verb, path, readOnly), parse) ==
            (var a := PolicyVerdict(h, verb, path, parse);
             if a.Authorized? && (readOnly ==> Spells(Upper(verb), "GET") || Spells(Upper(verb), "HEAD"))
             then Cleared(h.id, Send(a.verb, a.url, readOnly), h.limits.maxRequestsPerMinute) else Ended)
  {
    hide ValidConfig, AuthorizeHttp, Upper, Spells, GET, HEAD, ValidIdentifier, ValidMethod, ValidRule, ValidLimits;
    HttpValid(config, h);
    NamesSpelled(Upper(verb));
    LookupUnique(config, h.id, h, SshCapability(h.id, [], 0, [], h.limits));
  }

  lemma HttpValid(config: Config, h: HttpCapability)
    requires ValidConfig(config) && h in config.http
    ensures ValidHttp(h)
  {
  }

  /** An SSH call is cleared exactly if the operation is configured with the read-only flag of the tool. */
  lemma SshClearedExactly(config: Config, c: SshCapability, o: SshOperation, readOnly: bool, parse: HostParser)
    requires ValidConfig(config) && c in config.ssh && o in c.operations
    ensures Clear(config, SshRequest(c.id, o.id, readOnly), parse) ==
            if o.readOnly == readOnly then Cleared(c.id, Spawn(o, readOnly), c.limits.maxRequestsPerMinute) else Ended
  {
    LookupUnique(config, c.id, HttpCapability(c.id, [], NotAUrl, false, [], [], c.limits), c);
    assert ValidSsh(c);
    OperationFinds(c.operations, o.id);
    SameOperation(c, o, FindOperation(c.operations, o.id).value);
    hide ValidConfig;
  }

  lemma SameOperation(c: SshCapability, o: SshOperation, p: SshOperation)
    requires ValidSsh(c) && o in c.operations && p in c.operations && o.id == p.id
    ensures o == p
  {
    DistinctOperations(c.operations);
    hide ValidIdentifier, ValidOperation;
  }

  /** A call for what the configuration does not name ends there. */
  lemma UnknownEnds(config: Config, request: Request, parse: HostParser)
    requires request.HttpRequest? ==> forall h :: h in config.http ==> h.id != request.id
    requires request.SshRequest? ==>
      forall c, o :: c in config.ssh && o in c.operations ==> c.id != request.id || o.id != request.operation
    ensures Clear(config, request, parse) == Ended
  {
    hide AuthorizeHttp;
    HttpFinds(config.http, request.id);
    SshFinds(config.ssh, request.id);
    if request.SshRequest? && FindSsh(config.ssh, request.id).Some? {
      OperationFinds(FindSsh(config.ssh, request.id).value.operations, request.operation);
    }
  }

  /**
   A call that meets no error sends or spawns what it was cleared for exactly if it is cleared and its
   check is admitted; it uses up one check if it is cleared and none otherwise.
   */
  lemma UndisturbedCall(config: Config, parse: HostParser, s: State, c: nat, request: Request, clock: Time)
    requires ValidConfig(config) && c !in s.tasks
    ensures var s1 := Next(config, parse, s, Arrive(c, request));
            var s2 := Next(config, parse, s1, Advance(c, clock));
            var s3 := Next(config, parse, s2, Advance(c, clock));
            var s4 := Next(config, parse, s3, Advance(c, clock));
            var s5 := Next(config, parse, s4, Advance(c, clock));
            var p := Clear(config, request, parse);
            && s5.tasks == s.tasks[c := Ended]
            && if p.Cleared? then
                 && s5.history == s.history + [Event(p.id, clock, p.maximum)]
                 && s5.launches == s.launches + if Checked(s.calls, p.id, clock, p.maximum).admitted
                                               then [Launch(p.id, p.target, |s.history|)] else []
               else s5.history == s.history && s5.launches == s.launches && s5.calls == s.calls
  {
    hide ValidConfig, Clear, Checked, Permitted, LimitOf;
    ClearPermits(config, request, parse);
  }

  lemma CoveredLater(h: seq<Event>, e: Event, id: Bytes, ticket: nat)
    requires Covered(h, id, ticket)
    ensures Covered(h + [e], id, ticket) && ticket < |h|
  {
    assert (h + [e])[..ticket + 1] == h[..ticket + 1];
  }

  lemma CheckedIsLast(h: seq<Event>, e: Event)
    ensures CallsAfter(h + [e]) == Checked(CallsAfter(h), e.id, e.now, e.maximum).calls
    ensures AdmittedAt(h + [e], |h|) == Checked(CallsAfter(h), e.id, e.now, e.maximum).admitted
  {
    assert (h + [e])[..|h|] == h && (h + [e])[..|h| + 1] == h + [e];
  }

  lemma StepKeeps(config: Config, parse: HostParser, s: State, a: Action)
    requires ValidConfig(config) && Inv(config, s)
    ensures Inv(config, Next(config, parse, s, a))
  {
    hide ValidConfig, Clear, CallsAfter, Checked, Covered, Permitted, LimitOf;
    if a.Advance? && a.c in s.tasks {
      match s.tasks[a.c]
      case Asked(request) => ClearPermits(config, request, parse);
      case Stamped(id, target, maximum, now) => CheckKeeps(config, parse, s, a.c, a.clock);
      case _ =>
    }
  }

  lemma CheckKeeps(config: Config, parse: HostParser, s: State, c: nat, clock: Time)
    requires Inv(config, s) && c in s.tasks && s.tasks[c].Stamped?
    ensures Inv(config, Next(config, parse, s, Advance(c, clock)))
  {
    hide CallsAfter, Checked, Permitted, LimitOf, AdmittedAt;
    var p := s.tasks[c];
    var e := Event(p.id, p.now, p.maximum);
    CheckedIsLast(s.history, e);
    forall id, ticket: nat | Covered(s.history, id, ticket)
      ensures Covered(s.history + [e], id, ticket) && ticket < |s.history|
    {
      CoveredLater(s.history, e, id, ticket);
    }
    assert PhaseOk(config, s, p);
  }

  lemma {:induction false} RunKeeps(config: Config, parse: HostParser, actions: seq<Action>)
    requires ValidConfig(config)
    ensures Inv(config, Run(config, parse, actions))
    decreases |actions|
  {
    hide Next, ValidConfig;
    if actions != [] {
      var front := actions[..|actions| - 1];
      RunKeeps(config, parse, front);
      hide Inv;
      StepKeeps(config, parse, Run(config, parse, front), actions[|actions| - 1]);
    }
  }

  // ----- what holds in every run -----

  /**
   Every send and every spawn comes after a check of its own: an admitted one, of the same
   capability, that no other send or spawn uses.
   */
  lemma OwnAdmission(config: Config, parse: HostParser, actions: seq<Action>, i: nat)
    requires ValidConfig(config)
    requires i < |Run(config, parse, actions).launches|
    ensures var s := Run(config, parse, actions);
            && Covered(s.history, s.launches[i].id, s.launches[i].ticket)
            && forall j :: 0 <= j < |s.launches| && j != i ==> s.launches[j].ticket != s.launches[i].ticket
  {
    RunKeeps(config, parse, actions);
    hide Run, ValidConfig, Covered;
  }

  /** Every request sent and every command spawned is one that the capability's policy permits. */
  lemma OnlyPermitted(config: Config, parse: HostParser, actions: seq<Action>, i: nat)
    requires ValidConfig(config) && i < |Run(config, parse, actions).launches|
    ensures var l := Run(config, parse, actions).launches[i]; Permitted(config, l.id, l.target)
  {
    RunKeeps(config, parse, actions);
    hide Run, ValidConfig, Permitted;
  }

  /** The admitted checks of `id` with a stamp from `a` to `b`. */
  function AdmittedIn(h: seq<Event>, id: Bytes, a: Time, b: Time): set<nat> {
    set i: nat | i < |h| && AdmittedAt(h, i) && h[i].id == id && a <= h[i].now <= b
  }

  lemma {:induction false} AdmittedAreStamps(h: seq<Event>, id: Bytes, a: Time, b: Time)
    ensures |AdmittedIn(h, id, a, b)| == CountIn(Stamps(h, id), a, b)
    decreases |h|
  {
    if h != [] {
      var e, h' := h[|h| - 1], h[..|h| - 1];
      AdmittedAreStamps(h', id, a, b);
      assert h == h' + [e];
      AdmittedGrow(h', e, id, a, b);
      hide *;
      AfterCheck(h, id);
      CountInSplit(Stamps(h', id), [e.now], a, b);
      CountInOne(e.now, a, b);
    }
  }

  lemma AdmittedKept(h: seq<Event>, e: Event, i: nat)
    ensures i < |h| ==> AdmittedAt(h + [e], i) == AdmittedAt(h, i)
    ensures AdmittedAt(h + [e], |h|) == Last(h + [e]).admitted
  {
    hide Last, CallsAfter, Checked;
    if i < |h| {
      assert (h + [e])[..i + 1] == h[..i + 1];
    }
    assert (h + [e])[..|h| + 1] == h + [e];
  }

  lemma AdmittedGrow(h: seq<Event>, e: Event, id: Bytes, a: Time, b: Time)
    ensures |AdmittedIn(h + [e], id, a, b)|
         == |AdmittedIn(h, id, a, b)| + if Last(h + [e]).admitted && e.id == id && a <= e.now <= b then 1 else 0
  {
    hide AdmittedAt, Last;
    var g := h + [e];
    forall i: nat ensures i < |h| ==> AdmittedAt(g, i) == AdmittedAt(h, i) {
      AdmittedKept(h, e, i);
    }
    AdmittedKept(h, e, |h|);
    var last: set<nat> := if Last(g).admitted && e.id == id && a <= e.now <= b then {|h|} else {};
    assert AdmittedIn(g, id, a, b) == AdmittedIn(h, id, a, b) + last;
  }

  /** The sends and spawns of `id`, dated by their admission, from `a` to `b`. */
  function LaunchesIn(s: State, id: Bytes, a: Time, b: Time): set<nat> {
    set k: nat | k < |s.launches| && s.launches[k].id == id && s.launches[k].ticket < |s.history|
              && a <= s.history[s.launches[k].ticket].now <= b
  }

  lemma {:induction false} InjectiveBound(launches: seq<Launch>, ks: set<nat>, tickets: set<nat>)
    requires forall i, j :: 0 <= i < j < |launches| ==> launches[i].ticket != launches[j].ticket
    requires forall k :: k in ks ==> k < |launches| && launches[k].ticket in tickets
    ensures |ks| <= |tickets|
    decreases |ks|
  {
    if ks != {} {
      var k :| k in ks;
      InjectiveBound(launches, ks - {k}, tickets - {launches[k].ticket});
    }
  }

  /**
   The sends and spawns of a capability obey its limit in every window shorter than a minute less
   the clock skew, over any interleaving of HTTP and SSH calls.
   */
  lemma LaunchLimit(config: Config, parse: HostParser, actions: seq<Action>, id: Bytes, d: nat, a: Time, b: Time)
    requires ValidConfig(config)
    requires ClockReady(Run(config, parse, actions).history, id) && SkewAtMost(Run(config, parse, actions).history, id, d)
    requires b - a < WINDOW - d
    ensures |LaunchesIn(Run(config, parse, actions), id, a, b)| <= LimitOf(config, id)
  {
    RunKeeps(config, parse, actions);
    hide Run, ValidConfig, LimitOf, Permitted, AdmittedAt, CountIn, Stamps, ClockReady, SkewAtMost;
    var s := Run(config, parse, actions);
    LimiterSafety(s.history, id, LimitOf(config, id), d, a, b);
    AdmittedAreStamps(s.history, id, a, b);
    InjectiveBound(s.launches, LaunchesIn(s, id, a, b), AdmittedIn(s.history, id, a, b));
  }

  /** The limit that `LaunchLimit` speaks of belongs to the one capability that carries the id. */
  lemma LimitIsOwn(config: Config, h: HttpCapability, s: SshCapability)
    requires ValidConfig(config)
    ensures h in config.http ==> LimitOf(config, h.id) == h.limits.maxRequestsPerMinute
    ensures s in config.ssh ==> LimitOf(config, s.id) == s.limits.maxRequestsPerMinute
  {
    LookupUnique(config, h.id, h, s);
    LookupUnique(config, s.id, h, s);
  }
}
