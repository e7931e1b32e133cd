/**
 Network authorization: rules filtered stage by stage against a request, and the decision built on
 them. Host names come normalized and already tried as an address; CIDR membership is a parameter of
 the rule.
 */
module NetworkPolicy {
  import opened Basics
  import opened Sorting
  import C = ControlMachine

  // ---- Addresses ----

  datatype Address =
    | V4(a: nat, b: nat, c: nat, d: nat)
    | V6(s0: nat, s1: nat, s2: nat, s3: nat, s4: nat, s5: nat, s6: nat, s7: nat)

  /** The IPv4 address that an IPv4-mapped IPv6 address stands for. */
  function Mapped(ip: Address): Option<Address> {
    if ip.V6? && ip.s0 == ip.s1 == ip.s2 == ip.s3 == ip.s4 == 0 && ip.s5 == 0xffff
    then Some(V4(ip.s6 / 256, ip.s6 % 256, ip.s7 / 256, ip.s7 % 256)) else None
  }

  predicate IsPrivateV4(ip: Address) {
    ip.V4? && (ip.a == 10 || (ip.a == 172 && 16 <= ip.b <= 31) || (ip.a == 192 && ip.b == 168))
  }

  predicate IsOptInPrivate(ip: Address) {
    if ip.V4? then IsPrivateV4(ip) || ip.a == 127
    else if Mapped(ip).Some? then IsPrivateV4(Mapped(ip).value) || Mapped(ip).value.a == 127
    else (ip.s0 == ip.s1 == ip.s2 == ip.s3 == ip.s4 == ip.s5 == ip.s6 == 0 && ip.s7 == 1)
         || ip.s0 / 0x200 == 0xfc00 / 0x200
  }

  predicate IsPublicV4(ip: Address)
    requires ip.V4?
  {
    && ip.a != 0 && ip.a != 127 && !IsPrivateV4(ip)
    && !(ip.a == 169 && ip.b == 254)
    && !(224 <= ip.a <= 239)
    && !(ip.a == 255 && ip.b == 255 && ip.c == 255 && ip.d == 255)
    && !(ip.a == 100 && 64 <= ip.b <= 127)
    && !(ip.a == 192 && ip.b == 0 && ip.c == 0)
    && !(ip.a == 192 && ip.b == 0 && ip.c == 2)
    && !(ip.a == 198 && 18 <= ip.b <= 19)
    && !(ip.a == 198 && ip.b == 51 && ip.c == 100)
    && !(ip.a == 203 && ip.b == 0 && ip.c == 113)
    && ip.a < 240
  }

  predicate IsPublicEgress(ip: Address) {
    if ip.V4? then IsPublicV4(ip)
    else if Mapped(ip).Some? then IsPublicV4(Mapped(ip).value)
    else
      && ip.s0 / 0x2000 == 1
      && !(ip.s0 == 0x2001 && ip.s1 <= 0x01ff)
      && !(ip.s0 == 0x2001 && ip.s1 == 0x0db8)
      && ip.s0 != 0x2002
      && !(ip.s0 == 0x3fff && ip.s1 / 0x1000 == 0)
  }

  // ---- Rules ----

  datatype Transport = Http | Https | TcpTunnel

  datatype HostRule =
    | Exact(host: string)
    | WildcardSuffix(suffix: string)
    | Ip(address: Address)
    | Cidr(contains: Address -> bool)

  datatype Rule = Rule(host: HostRule, ports: seq<int>, transports: seq<Transport>, allowPrivate: bool)

  datatype Request = Request(host: string, hostIp: Option<Address>, port: Option<int>, transport: Transport,
                             resolved: Option<Address>)

  predicate MatchesHost(rule: Rule, request: Request) {
    match rule.host
    case Exact(allowed) => request.host == allowed
    case WildcardSuffix(suffix) =>
      var n := |request.host| - |suffix|;
      n > 0 && request.host[n..] == suffix && request.host[n - 1] == '.'
    case Ip(allowed) => request.hostIp == Some(allowed) || request.resolved == Some(allowed)
    case Cidr(contains) =>
      if request.hostIp.Some? then contains(request.hostIp.value)
      else request.resolved.Some? && contains(request.resolved.value)
  }

  predicate MatchesPort(rule: Rule, request: Request) {
    rule.ports == [] || (request.port.Some? && request.port.value in rule.ports)
  }

  predicate MatchesTransport(rule: Rule, request: Request) {
    rule.transports == [] || request.transport in rule.transports
  }

  predicate AllowsResolved(rule: Rule, request: Request) {
    request.resolved.None? ||
    var ip := request.resolved.value;
    match rule.host
    case Ip(allowed) => ip == allowed
    case Cidr(contains) => contains(ip)
    case _ => IsPublicEgress(ip) || (rule.allowPrivate && IsOptInPrivate(ip))
  }

  datatype Failure = Empty | HostFailure | PortFailure | TransportFailure | AddressFailure

  function Select(rules: seq<Rule>, keep: Rule -> bool): seq<Rule> {
    if rules == [] then [] else (if keep(rules[0]) then [rules[0]] else []) + Select(rules[1..], keep)
  }

  /** The staged filters of the source. */
  function Evaluate(rules: seq<Rule>, request: Request, enforce: bool): Option<Failure> {
    if rules == [] then Some(Empty)
    else
      var hosts := Select(rules, rule => MatchesHost(rule, request));
      if hosts == [] then Some(if request.resolved.Some? then AddressFailure else HostFailure)
      else
        var ports := Select(hosts, rule => MatchesPort(rule, request));
        if ports == [] then Some(PortFailure)
        else
          var transports := Select(ports, rule => MatchesTransport(rule, request));
          if transports == [] then Some(TransportFailure)
          else if && enforce && request.resolved.Some?
                  && Select(transports, rule => AllowsResolved(rule, request)) == [] then Some(AddressFailure)
          else None
  }

  lemma {:induction false} SelectMembers(rules: seq<Rule>, keep: Rule -> bool, rule: Rule)
    ensures rule in Select(rules, keep) <==> rule in rules && keep(rule)
  {
    if rules != [] {
      SelectMembers(rules[1..], keep, rule);
      assert rules == [rules[0]] + rules[1..];
    }
  }

  /** Some member of the list satisfies the stages up to a level. */
  ghost predicate Reaches(rules: seq<Rule>, request: Request, level: nat) {
    exists rule :: rule in rules
      && MatchesHost(rule, request)
      && (level >= 2 ==> MatchesPort(rule, request))
      && (level >= 3 ==> MatchesTransport(rule, request))
      && (level >= 4 ==> AllowsResolved(rule, request))
  }

  /** The stages decide by what single rules satisfy, and the failure names the first stage no rule passes. */
  lemma EvaluateIsStaged(rules: seq<Rule>, request: Request, enforce: bool)
    ensures Evaluate(rules, request, enforce) ==
            if rules == [] then Some(Empty)
            else if !Reaches(rules, request, 1) then
              Some(if request.resolved.Some? then AddressFailure else HostFailure)
            else if !Reaches(rules, request, 2) then Some(PortFailure)
            else if !Reaches(rules, request, 3) then Some(TransportFailure)
            else if enforce && !Reaches(rules, request, 4) then Some(AddressFailure)
            else None
  {
    var byHost := (rule: Rule) => MatchesHost(rule, request);
    var byPort := (rule: Rule) => MatchesPort(rule, request);
    var byTransport := (rule: Rule) => MatchesTransport(rule, request);
    var byAddress := (rule: Rule) => AllowsResolved(rule, request);
    var hosts := Select(rules, byHost);
    var ports := Select(hosts, byPort);
    var transports := Select(ports, byTransport);
    var addresses := Select(transports, byAddress);
    forall rule
      ensures rule in hosts <==> rule in rules && MatchesHost(rule, request)
      ensures rule in ports <==> rule in hosts && MatchesPort(rule, request)
      ensures rule in transports <==> rule in ports && MatchesTransport(rule, request)
      ensures rule in addresses <==> rule in transports && AllowsResolved(rule, request)
    {
      SelectMembers(rules, byHost, rule);
      SelectMembers(hosts, byPort, rule);
      SelectMembers(ports, byTransport, rule);
      SelectMembers(transports, byAddress, rule);
    }
    NonEmpty(hosts);
    NonEmpty(ports);
    NonEmpty(transports);
    NonEmpty(addresses);
  }

  lemma NonEmpty(rules: seq<Rule>)
    ensures rules != [] <==> exists rule :: rule in rules
  {
    if rules != [] {
      assert rules[0] in rules;
    }
  }

  /** A request passes exactly when one single rule satisfies every stage; never by rules that each satisfy some. */
  lemma PassesByOneRule(rules: seq<Rule>, request: Request, enforce: bool)
    ensures Evaluate(rules, request, enforce).None? <==>
            exists rule :: rule in rules && MatchesHost(rule, request) && MatchesPort(rule, request)
                           && MatchesTransport(rule, request) && (enforce ==> AllowsResolved(rule, request))
  {
    EvaluateIsStaged(rules, request, enforce);
    if rule :| rule in rules && MatchesHost(rule, request) && MatchesPort(rule, request)
               && MatchesTransport(rule, request) && (enforce ==> AllowsResolved(rule, request)) {
      assert Reaches(rules, request, 1) && Reaches(rules, request, 2) && Reaches(rules, request, 3);
    }
  }

  /** Order and repetition of rules do not matter, not even to which failure is reported. */
  lemma OrderIsIrrelevant(a: seq<Rule>, b: seq<Rule>, request: Request, enforce: bool)
    requires forall rule :: rule in a <==> rule in b
    ensures Evaluate(a, request, enforce) == Evaluate(b, request, enforce)
  {
    EvaluateIsStaged(a, request, enforce);
    EvaluateIsStaged(b, request, enforce);
    NonEmpty(a);
    NonEmpty(b);
    forall level: nat
      ensures Reaches(a, request, level) <==> Reaches(b, request, level)
    {
    }
  }

  /** A rule more never makes a passing request fail. */
  lemma MoreRulesPassMore(rules: seq<Rule>, more: seq<Rule>, request: Request, enforce: bool)
    requires forall rule :: rule in rules ==> rule in more
    requires Evaluate(rules, request, enforce).None?
    ensures Evaluate(more, request, enforce).None?
  {
    PassesByOneRule(rules, request, enforce);
    PassesByOneRule(more, request, enforce);
  }

  /** Host-name rules without the private opt-in only ever let publicly routed addresses through. */
  lemma HostRulesStayPublic(rules: seq<Rule>, request: Request)
    requires forall rule :: rule in rules ==> (rule.host.Exact? || rule.host.WildcardSuffix?) && !rule.allowPrivate
    requires request.resolved.Some? && Evaluate(rules, request, true).None?
    ensures IsPublicEgress(request.resolved.value) && !IsOptInPrivate(request.resolved.value)
  {
    PassesByOneRule(rules, request, true);
  }

  // ---- Compiling a rule ----

  /** `Vec::dedup`: drops repeats that stand next to each other. */
  function Dedup<T(==)>(s: seq<T>): seq<T> {
    if |s| < 2 then s else if s[0] == s[1] then Dedup(s[1..]) else [s[0]] + Dedup(s[1..])
  }

  lemma {:induction false} DedupKeepsMembers<T>(s: seq<T>, x: T)
    ensures x in Dedup(s) <==> x in s
    ensures Dedup(s) == [] <==> s == []
  {
    if |s| >= 2 {
      DedupKeepsMembers(s[1..], x);
      assert s == [s[0]] + s[1..];
    }
  }

  /** A rule as written, with ports and transports in any order and with repeats. */
  function Compile(host: HostRule, ports: seq<int>, transports: seq<Transport>, allowPrivate: bool): Option<Rule> {
    if 0 in ports then None else Some(Rule(host, Dedup(Sorted(ports)), Dedup(transports), allowPrivate))
  }

  lemma CompiledPorts(ports: seq<int>, port: int)
    ensures Dedup(Sorted(ports)) == [] <==> ports == []
    ensures port in Dedup(Sorted(ports)) <==> port in ports
  {
    SortedSorts(ports);
    SameMembers(Sorted(ports), ports);
    assert |multiset(Sorted(ports))| == |multiset(ports)|;
    DedupKeepsMembers(Sorted(ports), port);
  }

  lemma {:induction false} DedupAscends(s: seq<int>)
    requires Ascending(s)
    ensures StrictlyAscending(Dedup(s))
    ensures s != [] ==> Dedup(s) != [] && Dedup(s)[0] == s[0]
  {
    if |s| >= 2 {
      DedupAscends(s[1..]);
    }
  }

  lemma PortsAscend(ports: seq<int>)
    ensures StrictlyAscending(Dedup(Sorted(ports)))
  {
    SortedSorts(ports);
    DedupAscends(Sorted(ports));
  }

  /** Compiling fails exactly on port zero; otherwise it normalizes the ports and matches the same requests. */
  lemma CompileKeepsMatches(host: HostRule, ports: seq<int>, transports: seq<Transport>, allowPrivate: bool,
                            request: Request)
    ensures Compile(host, ports, transports, allowPrivate).Some? <==> 0 !in ports
    ensures 0 !in ports ==>
              var compiled := Compile(host, ports, transports, allowPrivate).value;
              var written := Rule(host, ports, transports, allowPrivate);
              && StrictlyAscending(compiled.ports)
              && (MatchesHost(compiled, request) <==> MatchesHost(written, request))
              && (MatchesPort(compiled, request) <==> MatchesPort(written, request))
              && (MatchesTransport(compiled, request) <==> MatchesTransport(written, request))
              && (AllowsResolved(compiled, request) <==> AllowsResolved(written, request))
  {
    CompiledPorts(ports, if request.port.Some? then request.port.value else 0);
    PortsAscend(ports);
    DedupKeepsMembers(transports, request.transport);
  }

  // ---- The decision ----

  datatype Capability = Ambient | DenyAll | AllowList | PolicyDefaultAllow | PolicyDefaultDeny

  datatype Guard = Guard(capability: Capability, rules: seq<Rule>, denyRules: seq<Rule>, trusted: seq<string>)

  function Allowed(reason: C.Reason): C.Transition {
    C.Transition(C.Requested, C.Allowed, reason)
  }

  function Denied(reason: C.Reason): C.Transition {
    C.Transition(C.Requested, C.Denied, reason)
  }

  function ReasonFor(outcome: Option<Failure>): C.Reason {
    match outcome
    case None => C.NetworkAllowList
    case Some(Empty) => C.NetworkAllowListEmpty
    case Some(HostFailure) => C.HostNotAllowed
    case Some(PortFailure) => C.PortNotAllowed
    case Some(TransportFailure) => C.TransportNotAllowed
    case Some(AddressFailure) => C.ResolvedAddressNotAllowed
  }

  function ByRules(guard: Guard, request: Request): C.Transition {
    var outcome := Evaluate(guard.rules, request, true);
    if outcome.None? then Allowed(ReasonFor(outcome)) else Denied(ReasonFor(outcome))
  }

  function Authorize(guard: Guard, request: Request): C.Transition {
    if Evaluate(guard.denyRules, request, false).None? then Denied(C.ExplicitlyDenied)
    else if request.host in guard.trusted then Allowed(C.TrustedLocal)
    else match guard.capability
      case Ambient => Allowed(C.AmbientNetwork)
      case DenyAll => Denied(C.NetworkDenied)
      case AllowList => ByRules(guard, request)
      case PolicyDefaultAllow => Allowed(C.AmbientNetwork)
      case PolicyDefaultDeny => ByRules(guard, request)
  }

  /** Whether a request is let through, said without stages: denies win, then trust, then the capability. */
  ghost predicate Admitted(guard: Guard, request: Request) {
    && (forall rule :: rule in guard.denyRules ==>
          !(MatchesHost(rule, request) && MatchesPort(rule, request) && MatchesTransport(rule, request)))
    && (|| request.host in guard.trusted
        || guard.capability.Ambient? || guard.capability.PolicyDefaultAllow?
        || (!guard.capability.DenyAll? &&
            exists rule :: rule in guard.rules && MatchesHost(rule, request) && MatchesPort(rule, request)
                           && MatchesTransport(rule, request) && AllowsResolved(rule, request)))
  }

  lemma AuthorizeAdmits(guard: Guard, request: Request)
    ensures C.IsDecision(Authorize(guard, request))
    ensures Authorize(guard, request).to.Allowed? <==> Admitted(guard, request)
  {
    PassesByOneRule(guard.denyRules, request, false);
    PassesByOneRule(guard.rules, request, true);
  }

  predicate RulesDecide(guard: Guard, request: Request) {
    request.host !in guard.trusted && (guard.capability.AllowList? || guard.capability.PolicyDefaultDeny?)
  }

  /** Explicit denial is given as the reason exactly when one deny rule matches host, port and transport. */
  lemma DeniedByOneRule(guard: Guard, request: Request)
    ensures Authorize(guard, request).reason == C.ExplicitlyDenied <==> Reaches(guard.denyRules, request, 3)
  {
    DenyMatches(guard.denyRules, request);
    OnlyDenialIsExplicit(guard, request);
  }

  lemma DenyMatches(rules: seq<Rule>, request: Request)
    ensures Evaluate(rules, request, false).None? <==> Reaches(rules, request, 3)
  {
    EvaluateIsStaged(rules, request, false);
    LevelsNest(rules, request);
  }

  lemma OnlyDenialIsExplicit(guard: Guard, request: Request)
    ensures Authorize(guard, request).reason == C.ExplicitlyDenied <==>
            Evaluate(guard.denyRules, request, false).None?
  {
  }

  lemma RulesGiveReason(guard: Guard, request: Request)
    requires RulesDecide(guard, request) && Authorize(guard, request).reason != C.ExplicitlyDenied
    ensures Authorize(guard, request).reason == ReasonFor(Evaluate(guard.rules, request, true))
  {
  }

  /** Where the rules decide, the reason given names the first stage that no single rule passes. */
  lemma ReasonNamesStage(guard: Guard, request: Request, reason: C.Reason)
    requires RulesDecide(guard, request) && reason == Authorize(guard, request).reason != C.ExplicitlyDenied
    ensures reason == C.NetworkAllowListEmpty <==> guard.rules == []
    ensures reason == C.HostNotAllowed <==>
            guard.rules != [] && !Reaches(guard.rules, request, 1) && request.resolved.None?
    ensures reason == C.PortNotAllowed <==> Reaches(guard.rules, request, 1) && !Reaches(guard.rules, request, 2)
    ensures reason == C.TransportNotAllowed <==> Reaches(guard.rules, request, 2) && !Reaches(guard.rules, request, 3)
    ensures reason == C.ResolvedAddressNotAllowed <==>
            || (guard.rules != [] && !Reaches(guard.rules, request, 1) && request.resolved.Some?)
            || (Reaches(guard.rules, request, 3) && !Reaches(guard.rules, request, 4))
    ensures reason == C.NetworkAllowList <==> Reaches(guard.rules, request, 4)
  {
    RulesGiveReason(guard, request);
    StageOf(guard.rules, request, Evaluate(guard.rules, request, true));
  }

  lemma StageOf(rules: seq<Rule>, request: Request, outcome: Option<Failure>)
    requires outcome == Evaluate(rules, request, true)
    ensures outcome == Some(Empty) <==> rules == []
    ensures outcome == Some(HostFailure) <==> rules != [] && !Reaches(rules, request, 1) && request.resolved.None?
    ensures outcome == Some(PortFailure) <==> Reaches(rules, request, 1) && !Reaches(rules, request, 2)
    ensures outcome == Some(TransportFailure) <==> Reaches(rules, request, 2) && !Reaches(rules, request, 3)
    ensures outcome == Some(AddressFailure) <==>
            || (rules != [] && !Reaches(rules, request, 1) && request.resolved.Some?)
            || (Reaches(rules, request, 3) && !Reaches(rules, request, 4))
    ensures outcome == None <==> Reaches(rules, request, 4)
  {
    EvaluateIsStaged(rules, request, true);
    LevelsNest(rules, request);
  }

  lemma LevelsNest(rules: seq<Rule>, request: Request)
    ensures Reaches(rules, request, 4) ==> Reaches(rules, request, 3)
    ensures Reaches(rules, request, 3) ==> Reaches(rules, request, 2)
    ensures Reaches(rules, request, 2) ==> Reaches(rules, request, 1)
    ensures Reaches(rules, request, 1) ==> rules != []
  {
  }

  /** Adding allow rules never turns an allow into a deny, and adding deny rules never a deny into an allow. */
  lemma RulesAreMonotone(guard: Guard, allow: seq<Rule>, deny: seq<Rule>, request: Request)
    ensures Authorize(guard, request).to.Allowed? ==>
              Authorize(guard.(rules := guard.rules + allow), request).to.Allowed?
    ensures Authorize(guard, request).to.Denied? ==>
              Authorize(guard.(denyRules := guard.denyRules + deny), request).to.Denied?
  {
    AuthorizeAdmits(guard, request);
    AuthorizeAdmits(guard.(rules := guard.rules + allow), request);
    AuthorizeAdmits(guard.(denyRules := guard.denyRules + deny), request);
  }
}
