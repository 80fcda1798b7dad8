/**
 * From the user's configuration to a routing decision (processor/config/routing_schema.go,
 * processor/config/types.go, processor/routing/snapshot.go, processor/routing/decision_engine.go).
 */
module Routing {
  import opened Wrappers
  import opened RoutingRules

  // ---------------------------------------------------------------- canonical schema

  datatype Rule = Rule(rtype: string, condition: string, enabled: bool, target: string)

  datatype Schema = Schema(
    mode: string, direct: bool, toAliang: bool, toSocks: bool, upstreamType: string,
    rules: seq<Rule>, defaultEgress: string)

  datatype SchemaError =
    | InvalidMode | DirectRequired | InvalidUpstream | DisabledTarget(index: nat) | UnknownTarget(index: nat)
    | UnresolvableDefault | UnknownDefault

  predicate IsTarget(target: string) {
    target == "direct" || target == "toAliang" || target == "toSocks"
  }

  /** Whether the branch that a target names is switched on. */
  predicate IsEnabledTarget(s: Schema, target: string) {
    (target == "direct" && s.direct) || (target == "toAliang" && s.toAliang) || (target == "toSocks" && s.toSocks)
  }

  function ValidateRules(s: Schema, from: nat): Option<SchemaError>
    requires from <= |s.rules|
    decreases |s.rules| - from
  {
    if from == |s.rules| then None
    else if !IsTarget(s.rules[from].target) then Some(UnknownTarget(from))
    else if !IsEnabledTarget(s, s.rules[from].target) then Some(DisabledTarget(from))
    else ValidateRules(s, from + 1)
  }

  /** The first complaint, if any. */
  function Validate(s: Schema): Option<SchemaError> {
    if s.mode != "tun" && s.mode != "http" then Some(InvalidMode)
    else if !s.direct then Some(DirectRequired)
    else if s.upstreamType != "socks" && s.upstreamType != "http" && (s.toSocks || s.upstreamType != "") then
      Some(InvalidUpstream)
    else
      var e := ValidateRules(s, 0);
      if e.Some? then e
      else if s.defaultEgress == "" then None
      else if !IsTarget(s.defaultEgress) then Some(UnknownDefault)
      else if !IsEnabledTarget(s, s.defaultEgress) then Some(UnresolvableDefault)
      else None
  }

  lemma {:induction false} ValidateRulesMeaning(s: Schema, from: nat)
    requires from <= |s.rules|
    ensures ValidateRules(s, from).None? <==>
      forall i :: from <= i < |s.rules| ==> IsEnabledTarget(s, s.rules[i].target)
    decreases |s.rules| - from
  {
    if from < |s.rules| {
      ValidateRulesMeaning(s, from + 1);
    }
  }

  /** A valid schema leaves every target that a decision can take available. */
  lemma ValidateMeaning(s: Schema)
    ensures Validate(s).None? <==>
      && (s.mode == "tun" || s.mode == "http")
      && s.direct
      && (s.upstreamType == "socks" || s.upstreamType == "http" || (s.upstreamType == "" && !s.toSocks))
      && (forall i :: 0 <= i < |s.rules| ==> IsEnabledTarget(s, s.rules[i].target))
      && (s.defaultEgress == "" || IsEnabledTarget(s, s.defaultEgress))
  {
    ValidateRulesMeaning(s, 0);
  }

  /** Everything before the `i`-th rule is in order: the complaint about a rule is about the first one at fault. */
  ghost predicate FirstAtFault(s: Schema, i: nat) {
    i < |s.rules| && !IsEnabledTarget(s, s.rules[i].target)
    && forall j :: 0 <= j < i ==> IsEnabledTarget(s, s.rules[j].target)
  }

  lemma {:induction false} ValidateRulesComplaint(s: Schema, from: nat)
    requires from <= |s.rules| && forall j :: 0 <= j < from ==> IsEnabledTarget(s, s.rules[j].target)
    ensures ValidateRules(s, from).None? ==> forall i: nat :: !FirstAtFault(s, i)
    ensures forall i: nat :: FirstAtFault(s, i) ==>
      ValidateRules(s, from) == Some(
        if s.rules[i].target in {"direct", "toAliang", "toSocks"} then DisabledTarget(i) else UnknownTarget(i))
    decreases |s.rules| - from
  {
    if from < |s.rules| && IsEnabledTarget(s, s.rules[from].target) {
      ValidateRulesComplaint(s, from + 1);
    }
  }

  /** What is complained of, in the order of the checks; of several rules at fault, the first. */
  lemma ComplaintMeaning(s: Schema, i: nat)
    ensures var upstream := s.upstreamType == "socks" || s.upstreamType == "http" || (s.upstreamType == "" && !s.toSocks);
      && (s.mode != "tun" && s.mode != "http" <==> Validate(s) == Some(InvalidMode))
      && ((s.mode == "tun" || s.mode == "http") ==>
            && (!s.direct <==> Validate(s) == Some(DirectRequired))
            && (s.direct ==>
                  && (!upstream <==> Validate(s) == Some(InvalidUpstream))
                  && (upstream && FirstAtFault(s, i) ==>
                        Validate(s) == Some(if s.rules[i].target in {"direct", "toAliang", "toSocks"}
                                            then DisabledTarget(i) else UnknownTarget(i)))
                  && (upstream && (forall j: nat :: !FirstAtFault(s, j)) && s.defaultEgress != "" ==>
                        && (s.defaultEgress !in {"direct", "toAliang", "toSocks"} <==> Validate(s) == Some(UnknownDefault))
                        && ((s.defaultEgress in {"direct", "toAliang", "toSocks"} && !IsEnabledTarget(s, s.defaultEgress))
                              <==> Validate(s) == Some(UnresolvableDefault)))))
  {
    hide IsEnabledTarget;
    ValidateRulesComplaint(s, 0);
    FaultIsFound(s, 0);
  }

  lemma {:induction false} FaultIsFound(s: Schema, from: nat)
    requires from <= |s.rules| && forall j :: 0 <= j < from ==> IsEnabledTarget(s, s.rules[j].target)
    ensures ValidateRules(s, from).Some? ==> exists i: nat :: FirstAtFault(s, i)
    ensures ValidateRules(s, from).Some? ==> ValidateRules(s, from).value.DisabledTarget? || ValidateRules(s, from).value.UnknownTarget?
    decreases |s.rules| - from
  {
    if from < |s.rules| {
      if IsEnabledTarget(s, s.rules[from].target) {
        FaultIsFound(s, from + 1);
      } else {
        assert FirstAtFault(s, from);
      }
    }
  }

  // ---------------------------------------------------------------- snapshot and decision

  datatype Action = ActDirect | ActToAliang | ActToSocks | ActDeny | ActUnknown

  datatype Decision = RouteToAliang | RouteToSocks | RouteDirect | RouteDeny

  datatype Capabilities = Capabilities(direct: bool, toAliang: bool, toSocks: bool)

  datatype SnapshotRule = SnapshotRule(rtype: string, condition: string, enabled: bool, target: Action)

  datatype Snapshot = Snapshot(mode: string, caps: Capabilities, rules: seq<SnapshotRule>, default: Action, strictDeny: bool)

  /** What is known of a connection; `inPrefix` is netip's parsing and containment. */
  datatype Context = Context(domain: string, ip: string, inPrefix: (string, string) -> bool)

  function ToAction(target: string): Action {
    if target == "direct" then ActDirect
    else if target == "toAliang" then ActToAliang
    else if target == "toSocks" then ActToSocks
    else if target == "deny" then ActDeny
    else ActUnknown
  }

  predicate IsAvailable(a: Action, caps: Capabilities) {
    match a
    case ActToAliang => caps.toAliang
    case ActToSocks => caps.toSocks
    case ActDirect => caps.direct
    case ActDeny => true
    case ActUnknown => false
  }

  /** GeoIP rules match nothing yet. */
  predicate Matches(rtype: string, condition: string, ctx: Context) {
    if rtype == "domain" then MatchDomain(condition, ctx.domain)
    else if rtype == "ip" then condition != "" && ctx.ip != "" && ctx.inPrefix(condition, ctx.ip)
    else false
  }

  /** A rule matches by its domain or its prefix; a rule of any other type matches nothing. */
  lemma MatchesExactlyWhen(rtype: string, condition: string, ctx: Context)
    ensures Matches(rtype, condition, ctx) <==>
      || (&& rtype == "domain" && condition != "" && ctx.domain != ""
          && (condition == ctx.domain
              || (|condition| > 2 && condition[..2] == "*." && IsSubdomain(ctx.domain, condition[1..]))))
      || (rtype == "ip" && condition != "" && ctx.ip != "" && ctx.inPrefix(condition, ctx.ip))
  {
    hide MatchDomain;
    MatchDomainMeaning(condition, ctx.domain);
  }

  /** What targets stand for, and which of them a connection can take. */
  lemma TargetsMeaning(target: string, caps: Capabilities)
    ensures ToAction(target) == ActDirect <==> target == "direct"
    ensures ToAction(target) == ActToAliang <==> target == "toAliang"
    ensures ToAction(target) == ActToSocks <==> target == "toSocks"
    ensures ToAction(target) == ActDeny <==> target == "deny"
    ensures IsAvailable(ToAction(target), caps) <==>
      || (target == "direct" && caps.direct) || (target == "toAliang" && caps.toAliang)
      || (target == "toSocks" && caps.toSocks) || target == "deny"
  {
  }

  /** The first rule that matches and whose branch is available; a strict snapshot denies when it is not. */
  function ChosenAction(rules: seq<SnapshotRule>, caps: Capabilities, strictDeny: bool, otherwise: Action, ctx: Context): Action {
    if rules == [] then otherwise
    else
      var r := rules[0];
      if r.enabled && Matches(r.rtype, r.condition, ctx) then
        if IsAvailable(r.target, caps) then r.target
        else if strictDeny then ActDeny
        else ChosenAction(rules[1..], caps, strictDeny, otherwise, ctx)
      else ChosenAction(rules[1..], caps, strictDeny, otherwise, ctx)
  }

  /** The last check of the branch, and the decision's name. */
  function Resolve(s: Snapshot, a: Action): Decision {
    var unavailable := if s.strictDeny then ActDeny else ActDirect;
    var resolved := match a
      case ActToAliang => if s.caps.toAliang then a else unavailable
      case ActToSocks => if s.caps.toSocks then a else unavailable
      case ActDirect => if s.caps.direct then a else unavailable
      case ActDeny => a
      case ActUnknown => a;
    match resolved
    case ActToAliang => RouteToAliang
    case ActToSocks => RouteToSocks
    case ActDeny => RouteDeny
    case ActDirect => RouteDirect
    case ActUnknown => RouteDirect
  }

  function Decide(s: Option<Snapshot>, ctx: Option<Context>): Decision {
    if s.None? || ctx.None? then RouteDirect
    else
      Resolve(s.value, ChosenAction(s.value.rules, s.value.caps, s.value.strictDeny, s.value.default, ctx.value))
  }

  method DecideRouteFromSnapshot(snapshot: Option<Snapshot>, ctx: Option<Context>) returns (d: Decision)
    ensures d == Decide(snapshot, ctx)
  {
    hide Matches, IsAvailable;
    if snapshot.None? || ctx.None? {
      return RouteDirect;
    }
    var s := snapshot.value;
    var action := s.default;
    var i := 0;
    ghost var chosen := ChosenAction(s.rules, s.caps, s.strictDeny, s.default, ctx.value);
    while i < |s.rules|
      invariant i <= |s.rules| && action == s.default
      invariant chosen == ChosenAction(s.rules[i..], s.caps, s.strictDeny, s.default, ctx.value)
    {
      var rule := s.rules[i];
      assert s.rules[i..][0] == rule && s.rules[i..][1..] == s.rules[i + 1..];
      i := i + 1;
      if !rule.enabled {
        continue;
      }
      if Matches(rule.rtype, rule.condition, ctx.value) {
        if IsAvailable(rule.target, s.caps) {
          action := rule.target;
          break;
        }
        if s.strictDeny {
          action := ActDeny;
          break;
        }
      }
    }
    return Resolve(s, action);
  }

  /** The rule ends the search: it matches, and its branch is available or its absence denies. */
  predicate Stops(s: Snapshot, r: SnapshotRule, ctx: Context) {
    r.enabled && Matches(r.rtype, r.condition, ctx) && (IsAvailable(r.target, s.caps) || s.strictDeny)
  }

  /** The first rule that ends the search, if there is one. */
  ghost predicate IsFirstStop(s: Snapshot, i: nat, ctx: Context) {
    i < |s.rules| && Stops(s, s.rules[i], ctx) && forall j :: 0 <= j < i ==> !Stops(s, s.rules[j], ctx)
  }

  lemma {:induction false} ChosenAtFirstStop(s: Snapshot, from: nat, i: nat, ctx: Context)
    requires from <= i <= |s.rules| && forall j :: from <= j < i ==> !Stops(s, s.rules[j], ctx)
    requires i < |s.rules| ==> Stops(s, s.rules[i], ctx)
    ensures ChosenAction(s.rules[from..], s.caps, s.strictDeny, s.default, ctx) ==
      if i == |s.rules| then s.default
      else if IsAvailable(s.rules[i].target, s.caps) then s.rules[i].target
      else ActDeny
    decreases i - from
  {
    hide Matches, IsAvailable;
    if from < i {
      ChosenAtFirstStop(s, from + 1, i, ctx);
      assert s.rules[from..][1..] == s.rules[from + 1..];
    }
  }

  /**
   * A decision denies exactly when the first rule to end the search does, by its target or because its branch
   * is absent, or when no rule ends it and the default is a denial or, under the strict rule, an absent branch.
   */
  lemma DeniesExactlyWhen(s: Snapshot, ctx: Context)
    ensures Decide(Some(s), Some(ctx)) == RouteDeny <==>
      || (exists i: nat :: IsFirstStop(s, i, ctx)
            && (s.rules[i].target == ActDeny || !IsAvailable(s.rules[i].target, s.caps)))
      || ((forall j :: 0 <= j < |s.rules| ==> !Stops(s, s.rules[j], ctx))
            && (s.default == ActDeny
                || (s.strictDeny && s.default != ActUnknown && !IsAvailable(s.default, s.caps))))
  {
    hide ChosenAction, Stops, FirstStop;
    var i := FirstStop(s, 0, ctx);
    ChosenAtFirstStop(s, 0, i, ctx);
    assert s.rules[0..] == s.rules;
    if i < |s.rules| {
      assert IsFirstStop(s, i, ctx);
      StopIsAvailable(s, s.rules[i], ctx);
      forall k: nat | IsFirstStop(s, k, ctx)
        ensures k == i
      {
        OneFirstStop(s, i, k, ctx);
      }
    } else {
      assert forall k: nat :: !IsFirstStop(s, k, ctx);
    }
  }

  lemma OneFirstStop(s: Snapshot, i: nat, k: nat, ctx: Context)
    requires IsFirstStop(s, i, ctx) && IsFirstStop(s, k, ctx)
    ensures i == k
  {
    hide Stops;
  }

  lemma StopIsAvailable(s: Snapshot, r: SnapshotRule, ctx: Context)
    requires Stops(s, r, ctx)
    ensures IsAvailable(r.target, s.caps) || s.strictDeny
  {
  }

  ghost function FirstStop(s: Snapshot, from: nat, ctx: Context): (i: nat)
    requires from <= |s.rules|
    ensures from <= i <= |s.rules| && forall j :: from <= j < i ==> !Stops(s, s.rules[j], ctx)
    ensures i < |s.rules| ==> Stops(s, s.rules[i], ctx)
    decreases |s.rules| - from
  {
    if from == |s.rules| || Stops(s, s.rules[from], ctx) then from else FirstStop(s, from + 1, ctx)
  }

  // ---------------------------------------------------------------- compiling the schema

  function SnapshotRules(rules: seq<Rule>): seq<SnapshotRule> {
    seq(|rules|, i requires 0 <= i < |rules| =>
      SnapshotRule(Normalized(rules[i].rtype), Normalized(rules[i].condition), rules[i].enabled, ToAction(rules[i].target)))
  }

  datatype Compiled<+T> = Ok(value: T) | Invalid(error: SchemaError)

  function CompiledSnapshot(s: Schema): Compiled<Snapshot> {
    if Validate(s).Some? then Invalid(Validate(s).value)
    else
      Ok(Snapshot(Normalized(s.mode), Capabilities(s.direct, s.toAliang, s.toSocks), SnapshotRules(s.rules),
                  if s.defaultEgress == "" then ActDirect else ToAction(s.defaultEgress), true))
  }

  method CompileRuntimeSnapshot(s: Schema) returns (r: Compiled<Snapshot>)
    ensures r == CompiledSnapshot(s)
  {
    var e := Validate(s);
    if e.Some? {
      return Invalid(e.value);
    }
    var rules: seq<SnapshotRule> := [];
    for i := 0 to |s.rules|
      invariant rules == SnapshotRules(s.rules)[..i]
    {
      var rule := s.rules[i];
      rules := rules + [SnapshotRule(Normalized(rule.rtype), Normalized(rule.condition), rule.enabled, ToAction(rule.target))];
    }
    assert rules == SnapshotRules(s.rules);
    var default := if s.defaultEgress == "" then ActDirect else ToAction(s.defaultEgress);
    return Ok(Snapshot(Normalized(s.mode), Capabilities(s.direct, s.toAliang, s.toSocks), rules, default, true));
  }

  // ---------------------------------------------------------------- the user's inputs

  datatype AIRule = AIRule(enabled: Option<bool>, domains: seq<string>)

  datatype ProxyConfig = ProxyConfig(enable: Option<bool>, ptype: string)

  datatype Customer = Customer(proxy: Option<ProxyConfig>, aiRules: map<string, Option<AIRule>>, proxyRules: seq<string>)

  datatype Config = Config(customer: Option<Customer>)

  datatype Switches = Switches(aliang: bool, socks: bool)

  /** An enumeration of the providers; the code takes the sorted one. */
  ghost predicate Enumerates(providers: seq<string>, c: Option<Config>) {
    forall p :: p in providers <==> c.Some? && c.value.customer.Some? && p in c.value.customer.value.aiRules
  }

  function AIRules(c: Option<Config>): map<string, Option<AIRule>> {
    if c.Some? && c.value.customer.Some? then c.value.customer.value.aiRules else map[]
  }

  lemma NoProviders(c: Option<Config>, providers: seq<string>)
    requires Enumerates(providers, c) && AIRules(c) == map[]
    ensures providers == []
  {
    SomeMember(providers);
  }

  lemma SomeMember(s: seq<string>)
    ensures s == [] || exists p :: p in s
  {
    assert s == [] || s[0] in s;
  }

  /** A rule counts only when it is switched on explicitly. */
  predicate IsOn(rule: Option<AIRule>) {
    rule.Some? && rule.value.enabled == Some(true)
  }

  function EnabledDomains(rules: map<string, Option<AIRule>>, providers: seq<string>): seq<string>
    requires forall p :: p in providers ==> p in rules
  {
    if providers == [] then []
    else
      var rule := rules[providers[0]];
      (if IsOn(rule) then rule.value.domains else []) + EnabledDomains(rules, providers[1..])
  }

  /** The loop that both collectors share. */
  method CollectEnabledDomains(rules: map<string, Option<AIRule>>, providers: seq<string>) returns (domains: seq<string>)
    requires forall p :: p in providers ==> p in rules
    ensures domains == EnabledDomains(rules, providers)
  {
    domains := [];
    for i := 0 to |providers|
      invariant EnabledDomains(rules, providers) == domains + EnabledDomains(rules, providers[i..])
    {
      assert providers[i..][0] == providers[i] && providers[i..][1..] == providers[i + 1..];
      var rule := rules[providers[i]];
      ghost var later := EnabledDomains(rules, providers[i + 1..]);
      if !IsOn(rule) {
        assert domains + ([] + later) == domains + later;
        continue;
      }
      assert domains + (rule.value.domains + later) == (domains + rule.value.domains) + later;
      domains := domains + rule.value.domains;
    }
  }

  method EffectiveAIAllowlist(c: Option<Config>, providers: seq<string>) returns (allowlist: seq<string>)
    requires Enumerates(providers, c)
    ensures allowlist == Dedupe(EnabledDomains(AIRules(c), providers))
  {
    if c.None? || c.value.customer.None? || AIRules(c) == map[] {
      NoProviders(c, providers);
      return [];
    }
    var domains := CollectEnabledDomains(AIRules(c), providers);
    allowlist := DedupeNormalizedDomains(domains);
  }

  /** The AI domains are gathered twice, and come out as if gathered once. */
  method CollectAIDomains(c: Option<Config>, providers: seq<string>) returns (domains: seq<string>)
    requires Enumerates(providers, c)
    ensures domains == Dedupe(EnabledDomains(AIRules(c), providers))
  {
    if c.None? {
      NoProviders(c, providers);
      return [];
    }
    var gathered: seq<string> := [];
    if AIRules(c) != map[] {
      gathered := CollectEnabledDomains(AIRules(c), providers);
    } else {
      NoProviders(c, providers);
    }
    var effective := EffectiveAIAllowlist(c, providers);
    DedupeWithOwnNormalForm(gathered);
    domains := DedupeNormalizedDomains(gathered + effective);
  }

  function SplitAtCommas(s: string): (parts: seq<string>)
    ensures |parts| >= 1
  {
    if s == "" then [""]
    else
      var rest := SplitAtCommas(s[1..]);
      if s[0] == ',' then [""] + rest else [[s[0]] + rest[0]] + rest[1..]
  }

  /** The domain a proxy rule names: alone, after "domain", or last, before a closing "proxy". */
  function ParseProxyRule(raw: string): Option<string> {
    var rule := TrimSpace(raw);
    if rule == "" then None
    else
      var parts := SplitAtCommas(rule);
      var n := |parts|;
      var d :=
        if n == 1 then Normalized(parts[0])
        else if Normalized(parts[0]) == "domain" || Normalized(parts[0]) == "domains" then Normalized(parts[1])
        else if Normalized(parts[n - 1]) == "proxy" then Normalized(parts[n - 2])
        else Normalized(parts[n - 1]);
      if d == "" then None else Some(d)
  }

  function JoinedByCommas(parts: seq<string>): string {
    if parts == [] then "" else if |parts| == 1 then parts[0] else parts[0] + "," + JoinedByCommas(parts[1..])
  }

  lemma {:induction false} SplitJoined(parts: seq<string>)
    requires parts != [] && forall i :: 0 <= i < |parts| ==> ',' !in parts[i]
    ensures SplitAtCommas(JoinedByCommas(parts)) == parts
    decreases |parts|
  {
    SplitPart(parts[0], if |parts| > 1 then JoinedByCommas(parts[1..]) else "");
    if |parts| > 1 {
      SplitJoined(parts[1..]);
      assert [parts[0]] + parts[1..] == parts;
    } else {
      assert [parts[0]] == parts;
    }
  }

  lemma {:induction false} SplitPart(part: string, rest: string)
    requires ',' !in part
    ensures SplitAtCommas(part) == [part]
    ensures SplitAtCommas(part + "," + rest) == [part] + SplitAtCommas(rest)
    decreases |part|
  {
    if part == "" {
      assert "" + "," + rest == "," + rest && ("," + rest)[1..] == rest;
      assert [""] + SplitAtCommas(rest) == [part] + SplitAtCommas(rest);
    } else {
      SplitPart(part[1..], rest);
      assert (part + "," + rest)[1..] == part[1..] + "," + rest;
      assert [part[0]] + part[1..] == part;
    }
  }

  /**
   * What a proxy rule names, by its parts between the commas, whatever their case and the blanks around the rule: a
   * rule of one part that part; a rule that begins with "domain" or "domains" the part behind it; any other rule its
   * last part, or the one before where the last is "proxy". A blank name is none.
   */
  lemma ProxyRuleNames(raw: string, parts: seq<string>)
    requires parts != [] && (forall i :: 0 <= i < |parts| ==> ',' !in parts[i])
    requires TrimSpace(raw) == JoinedByCommas(parts)
    ensures var n := |parts|;
      var byPrefix := n > 1 && (Normalized(parts[0]) == "domain" || Normalized(parts[0]) == "domains");
      && (n == 1 ==> Names(raw, parts[0]))
      && (byPrefix ==> Names(raw, parts[1]))
      && (n > 1 && !byPrefix && Normalized(parts[n - 1]) == "proxy" ==> Names(raw, parts[n - 2]))
      && (n > 1 && !byPrefix && Normalized(parts[n - 1]) != "proxy" ==> Names(raw, parts[n - 1]))
  {
    hide Normalized, TrimSpace;
    SplitJoined(parts);
    if TrimSpace(raw) == "" {
      assert parts[0] == "" && |parts| == 1;
      NothingNormal();
    }
  }

  lemma NothingNormal()
    ensures Normalized("") == ""
  {
  }

  /** The rule names the part's normal form, or nothing if that is blank. */
  predicate Names(raw: string, part: string) {
    ParseProxyRule(raw) == if Normalized(part) == "" then None else Some(Normalized(part))
  }

  lemma ClosingProxyIsNoDomain()
    ensures ParseProxyRule("domain,a.io,proxy") == Some("a.io")
  {
    hide *;
    RuleIsTrimmed();
    PartsAreNormal();
    ThreeParts("domain", "a.io", "proxy");
    ProxyRuleNames("domain,a.io,proxy", ["domain", "a.io", "proxy"]);
    assert Names("domain,a.io,proxy", "a.io");
    NamesMeans("domain,a.io,proxy", "a.io");
  }

  lemma RuleIsTrimmed()
    ensures TrimSpace("domain,a.io,proxy") == "domain" + "," + "a.io" + "," + "proxy"
  {
    TrimmedAlready("domain,a.io,proxy");
  }

  lemma PartsAreNormal()
    ensures Normalized("domain") == "domain" && Normalized("a.io") == "a.io"
    ensures forall i :: 0 <= i < 3 ==> ',' !in ["domain", "a.io", "proxy"][i]
  {
    LowerAlready("domain");
    LowerAlready("a.io");
  }

  lemma NamesMeans(raw: string, part: string)
    requires Names(raw, part) && Normalized(part) != ""
    ensures ParseProxyRule(raw) == Some(Normalized(part))
  {
  }

  lemma ThreeParts(a: string, b: string, c: string)
    ensures JoinedByCommas([a, b, c]) == a + "," + b + "," + c
  {
    assert [a, b, c][1..] == [b, c] && [b, c][1..] == [c];
    assert JoinedByCommas([b, c]) == b + "," + c;
  }

  lemma LowerAlready(s: string)
    requires IsTrimmed(s) && forall i :: 0 <= i < |s| ==> !('A' <= s[i] <= 'Z')
    ensures Normalized(s) == s
  {
    TrimmedAlready(s);
  }

  function ParsedProxyRules(rules: seq<string>): seq<string> {
    if rules == [] then []
    else
      var d := ParseProxyRule(rules[0]);
      (if d.Some? then [d.value] else []) + ParsedProxyRules(rules[1..])
  }

  function ProxyRules(c: Option<Config>): seq<string> {
    if c.Some? && c.value.customer.Some? then c.value.customer.value.proxyRules else []
  }

  method CollectProxyRuleDomains(c: Option<Config>) returns (domains: seq<string>)
    ensures domains == Dedupe(ParsedProxyRules(ProxyRules(c)))
  {
    hide ParseProxyRule;
    var rules := ProxyRules(c);
    if |rules| == 0 {
      assert ParsedProxyRules([]) == [];
      return [];
    }
    domains := [];
    for i := 0 to |rules|
      invariant ParsedProxyRules(rules) == domains + ParsedProxyRules(rules[i..])
    {
      assert rules[i..][0] == rules[i] && rules[i..][1..] == rules[i + 1..];
      var domain := ParseProxyRule(rules[i]);
      ghost var later := ParsedProxyRules(rules[i + 1..]);
      if domain.None? {
        assert domains + ([] + later) == domains + later;
        continue;
      }
      assert domains + ([domain.value] + later) == (domains + [domain.value]) + later;
      domains := domains + [domain.value];
    }
    assert rules[|rules|..] == [] && domains + [] == domains;
    domains := DedupeNormalizedDomains(domains);
  }

  /** A proxy without a switch is on. */
  predicate IsEnabled(proxy: Option<ProxyConfig>) {
    proxy.Some? && (proxy.value.enable.None? || proxy.value.enable.value)
  }

  /** The kind of upstream behind the SOCKS branch, if there is one. */
  function UpstreamType(c: Option<Config>): Option<string> {
    if c.None? || c.value.customer.None? || !IsEnabled(c.value.customer.value.proxy) then None
    else
      var t := Normalized(c.value.customer.value.proxy.value.ptype);
      if t == "http" then Some("http") else if t == "socks5" then Some("socks") else None
  }

  predicate SocksBranchOn(c: Option<Config>, switches: Switches) {
    switches.socks && UpstreamType(c).Some?
  }

  /** It is on with the switch, a proxy that is not switched off, and one of the two kinds of upstream. */
  lemma SocksBranchOnExactlyWhen(c: Option<Config>, switches: Switches)
    ensures SocksBranchOn(c, switches) <==>
      && switches.socks && c.Some? && c.value.customer.Some? && c.value.customer.value.proxy.Some?
      && var p := c.value.customer.value.proxy.value;
         p.enable != Some(false) && (Normalized(p.ptype) == "http" || Normalized(p.ptype) == "socks5")
    ensures UpstreamType(c).Some? ==>
      UpstreamType(c).value == if Normalized(c.value.customer.value.proxy.value.ptype) == "http" then "http" else "socks"
  {
    hide Normalized;
  }

  function DomainRules(domains: seq<string>, target: string): seq<Rule> {
    seq(|domains|, i requires 0 <= i < |domains| => Rule("domain", domains[i], true, target))
  }

  /** The canonical schema of the user's inputs, before validation. */
  function RuntimeSchema(c: Option<Config>, switches: Switches, providers: seq<string>): Schema
    requires Enumerates(providers, c)
  {
    var socks := SocksBranchOn(c, switches);
    Schema(
      "tun", true, switches.aliang, socks, if socks then UpstreamType(c).value else "",
      DomainRules(Dedupe(EnabledDomains(AIRules(c), providers)), "toAliang")
      + DomainRules(Dedupe(ParsedProxyRules(ProxyRules(c))), if socks then "toSocks" else "direct"),
      "direct")
  }

  method AppendRules(rules: seq<Rule>, domains: seq<string>, target: string) returns (out: seq<Rule>)
    ensures out == rules + DomainRules(domains, target)
  {
    out := rules;
    for i := 0 to |domains|
      invariant out == rules + DomainRules(domains, target)[..i]
    {
      out := out + [Rule("domain", domains[i], true, target)];
    }
  }

  method CompileCanonicalRouting(c: Option<Config>, switches: Switches, providers: seq<string>) returns (r: Compiled<Schema>)
    requires Enumerates(providers, c)
    ensures var s := RuntimeSchema(c, switches, providers);
      r == if Validate(s).Some? then Invalid(Validate(s).value) else Ok(s)
  {
    hide Validate, Dedupe, EnabledDomains, ParsedProxyRules, UpstreamType, DomainRules;
    var aiDomains := CollectAIDomains(c, providers);
    var proxyRuleDomains := CollectProxyRuleDomains(c);
    var upstream := UpstreamType(c);
    var toSocks := switches.socks && upstream.Some?;
    var rules := AppendRules([], aiDomains, "toAliang");
    rules := AppendRules(rules, proxyRuleDomains, if toSocks then "toSocks" else "direct");
    var s := Schema("tun", true, switches.aliang, toSocks, if toSocks then upstream.value else "", rules, "direct");
    assert [] + DomainRules(aiDomains, "toAliang") == DomainRules(aiDomains, "toAliang");
    var e := Validate(s);
    if e.Some? {
      return Invalid(e.value);
    }
    return Ok(s);
  }

  method CompileRuntimeSnapshotFromRuntimeInputs(c: Option<Config>, switches: Switches, providers: seq<string>)
    returns (r: Compiled<Snapshot>)
    requires Enumerates(providers, c)
    ensures r == CompiledSnapshot(RuntimeSchema(c, switches, providers))
  {
    hide Validate;
    var canonical := CompileCanonicalRouting(c, switches, providers);
    if canonical.Invalid? {
      return Invalid(canonical.error);
    }
    r := CompileRuntimeSnapshot(canonical.value);
  }

  // ---------------------------------------------------------------- what the runtime inputs mean

  /** Some enabled AI rule lists the normalised pattern. */
  ghost predicate ListsAIPattern(c: Option<Config>, pattern: string) {
    c.Some? && c.value.customer.Some? &&
    var rules := c.value.customer.value.aiRules;
    exists p :: p in rules && rules[p].Some? && rules[p].value.enabled == Some(true) && Occurs(pattern, rules[p].value.domains)
  }

  /** Some proxy rule names the normalised pattern. */
  ghost predicate ListsProxyPattern(c: Option<Config>, pattern: string) {
    c.Some? && c.value.customer.Some? &&
    var rules := c.value.customer.value.proxyRules;
    exists i :: 0 <= i < |rules| && ParseProxyRule(rules[i]) == Some(pattern)
  }

  ghost predicate AIMatches(c: Option<Config>, domain: string) {
    exists pattern :: ListsAIPattern(c, pattern) && MatchDomain(pattern, domain)
  }

  ghost predicate ProxyMatches(c: Option<Config>, domain: string) {
    exists pattern :: ListsProxyPattern(c, pattern) && MatchDomain(pattern, domain)
  }

  /** The decision the user asked for, said without rules, order or snapshot. */
  ghost function Intended(c: Option<Config>, switches: Switches, domain: string): Decision {
    if AIMatches(c, domain) then RouteToAliang
    else if ProxyMatches(c, domain) && SocksBranchOn(c, switches) then RouteToSocks
    else RouteDirect
  }

  lemma OccursInConcat(a: seq<string>, b: seq<string>, d: string)
    ensures Occurs(d, a + b) <==> Occurs(d, a) || Occurs(d, b)
  {
    hide Normalized;
    if Occurs(d, a) {
      var i :| 0 <= i < |a| && Normalized(a[i]) == d;
      assert (a + b)[i] == a[i];
    }
    if Occurs(d, b) {
      var i :| 0 <= i < |b| && Normalized(b[i]) == d;
      assert (a + b)[|a| + i] == b[i];
    }
  }

  lemma {:induction false} OccursInEnabled(rules: map<string, Option<AIRule>>, providers: seq<string>, d: string)
    requires forall p :: p in providers ==> p in rules
    ensures Occurs(d, EnabledDomains(rules, providers)) <==>
      exists p :: p in providers && IsOn(rules[p]) && Occurs(d, rules[p].value.domains)
    decreases |providers|
  {
    hide Occurs;
    if providers == [] {
      NothingOccurs(d);
    } else {
      var rule := rules[providers[0]];
      OccursInEnabled(rules, providers[1..], d);
      OccursInConcat(if IsOn(rule) then rule.value.domains else [], EnabledDomains(rules, providers[1..]), d);
      NothingOccurs(d);
      assert providers == [providers[0]] + providers[1..];
    }
  }

  lemma NothingOccurs(d: string)
    ensures !Occurs(d, [])
  {
  }

  lemma AIPatternsAreListed(c: Option<Config>, providers: seq<string>, d: string)
    requires Enumerates(providers, c)
    ensures d in Dedupe(EnabledDomains(AIRules(c), providers)) <==> ListsAIPattern(c, d)
  {
    hide Occurs;
    DedupeFromMembers(EnabledDomains(AIRules(c), providers), {}, d);
    OccursInEnabled(AIRules(c), providers, d);
  }

  lemma {:induction false} ParsedAre(rules: seq<string>, d: string)
    ensures d in ParsedProxyRules(rules) <==> exists i :: 0 <= i < |rules| && ParseProxyRule(rules[i]) == Some(d)
  {
    hide ParseProxyRule;
    if rules != [] {
      ParsedAre(rules[1..], d);
      assert forall i :: 0 <= i < |rules| - 1 ==> rules[1..][i] == rules[i + 1];
      if exists i :: 0 <= i < |rules| && ParseProxyRule(rules[i]) == Some(d) {
        var i :| 0 <= i < |rules| && ParseProxyRule(rules[i]) == Some(d);
        assert i > 0 ==> rules[1..][i - 1] == rules[i];
      }
    }
  }

  /** A parsed proxy rule is in normal form. */
  lemma ParsedIsNormal(raw: string)
    ensures ParseProxyRule(raw).Some? ==>
      ParseProxyRule(raw).value != "" && Normalized(ParseProxyRule(raw).value) == ParseProxyRule(raw).value
  {
    hide Normalized;
    var parts := SplitAtCommas(TrimSpace(raw));
    forall i | 0 <= i < |parts|
      ensures Normalized(Normalized(parts[i])) == Normalized(parts[i])
    {
      NormalizedIsIdempotent(parts[i]);
    }
  }

  lemma ProxyPatternsAreListed(c: Option<Config>, d: string)
    ensures d in Dedupe(ParsedProxyRules(ProxyRules(c))) <==> ListsProxyPattern(c, d)
  {
    hide ParseProxyRule, Normalized;
    var rules := ProxyRules(c);
    var parsed := ParsedProxyRules(rules);
    DedupeFromMembers(parsed, {}, d);
    ParsedAre(rules, d);
    if Occurs(d, parsed) {
      var j :| 0 <= j < |parsed| && Normalized(parsed[j]) == d;
      ParsedAre(rules, parsed[j]);
      var i :| 0 <= i < |rules| && ParseProxyRule(rules[i]) == Some(parsed[j]);
      ParsedIsNormal(rules[i]);
    }
    if ListsProxyPattern(c, d) {
      var i :| 0 <= i < |rules| && ParseProxyRule(rules[i]) == Some(d);
      ParsedIsNormal(rules[i]);
      var j :| 0 <= j < |parsed| && parsed[j] == d;
    }
  }

  /** Compilation fails exactly when the Aliang switch is off and some enabled AI rule lists a non-blank domain. */
  lemma CompilationFailsExactlyWhen(c: Option<Config>, switches: Switches, providers: seq<string>)
    requires Enumerates(providers, c)
    ensures CompiledSnapshot(RuntimeSchema(c, switches, providers)).Invalid? <==>
      !switches.aliang && exists pattern :: ListsAIPattern(c, pattern)
    ensures Dedupe(EnabledDomains(AIRules(c), providers)) != [] <==> exists pattern :: ListsAIPattern(c, pattern)
  {
    hide Dedupe, Normalized, EnabledDomains, ParsedProxyRules;
    var s := RuntimeSchema(c, switches, providers);
    ValidateMeaning(s);
    var ai := Dedupe(EnabledDomains(AIRules(c), providers));
    if ai != [] {
      assert ai[0] in ai;
      AIPatternsAreListed(c, providers, ai[0]);
      assert s.rules[0].target == "toAliang";
    } else {
      forall pattern
        ensures !ListsAIPattern(c, pattern)
      {
        AIPatternsAreListed(c, providers, pattern);
      }
    }
  }

  /** Rules of one target: the target if one of the patterns matches, and otherwise what the rest decides. */
  lemma {:induction false} ChosenAmongDomains(domains: seq<string>, target: string, rest: seq<SnapshotRule>,
                                              caps: Capabilities, otherwise: Action, ctx: Context)
    requires IsAvailable(ToAction(target), caps)
    requires forall i :: 0 <= i < |domains| ==> Normalized(domains[i]) == domains[i]
    ensures ChosenAction(SnapshotRules(DomainRules(domains, target)) + rest, caps, true, otherwise, ctx) ==
      if exists d :: d in domains && MatchDomain(d, ctx.domain) then ToAction(target)
      else ChosenAction(rest, caps, true, otherwise, ctx)
    decreases |domains|
  {
    hide Normalized, MatchDomain, ToAction, IsAvailable;
    var rules := SnapshotRules(DomainRules(domains, target));
    if domains == [] {
      assert rules + rest == rest;
    } else {
      DomainIsNormal();
      var tail := SnapshotRules(DomainRules(domains[1..], target));
      assert rules == [rules[0]] + tail;
      assert (rules + rest)[1..] == tail + rest;
      ChosenAmongDomains(domains[1..], target, rest, caps, otherwise, ctx);
      assert domains == [domains[0]] + domains[1..];
    }
  }

  lemma DomainIsNormal()
    ensures Normalized("domain") == "domain" && Normalized("tun") == "tun"
  {
    TrimmedAlready("domain");
    TrimmedAlready("tun");
  }

  lemma DedupedAreNormal(domains: seq<string>)
    ensures forall i :: 0 <= i < |Dedupe(domains)| ==> Normalized(Dedupe(domains)[i]) == Dedupe(domains)[i]
  {
    hide Normalized;
    var out := Dedupe(domains);
    forall i | 0 <= i < |out|
      ensures Normalized(out[i]) == out[i]
    {
      assert out[i] in out;
      DedupeFromMembers(domains, {}, out[i]);
      var j :| 0 <= j < |domains| && Normalized(domains[j]) == out[i];
      NormalizedIsIdempotent(domains[j]);
    }
  }

  /**
   * Where compilation succeeds, the decision is what the user asked for: Aliang if an AI pattern matches, else
   * SOCKS if a proxy rule matches and that branch is on, else direct. It is never a denial.
   */
  lemma RuntimeDecisionMeaning(c: Option<Config>, switches: Switches, providers: seq<string>, ctx: Context)
    requires Enumerates(providers, c)
    requires CompiledSnapshot(RuntimeSchema(c, switches, providers)).Ok?
    ensures Decide(Some(CompiledSnapshot(RuntimeSchema(c, switches, providers)).value), Some(ctx))
         == Intended(c, switches, ctx.domain)
  {
    hide Dedupe, Normalized, EnabledDomains, ParsedProxyRules, MatchDomain, Validate, ListsAIPattern, ListsProxyPattern,
         ChosenAction, Matches, SnapshotRules, DomainRules, UpstreamType;
    var schema := RuntimeSchema(c, switches, providers);
    var s := CompiledSnapshot(schema).value;
    var ai := Dedupe(EnabledDomains(AIRules(c), providers));
    var proxy := Dedupe(ParsedProxyRules(ProxyRules(c)));
    SnapshotRulesConcat(DomainRules(ai, "toAliang"), DomainRules(proxy, if schema.toSocks then "toSocks" else "direct"));
    PatternsMatch(c, providers, ctx.domain);
    DedupedAreNormal(EnabledDomains(AIRules(c), providers));
    DedupedAreNormal(ParsedProxyRules(ProxyRules(c)));
    CompilationFailsExactlyWhen(c, switches, providers);
    ChosenInOrder(ai, proxy, s.caps, schema.toSocks, ctx);
  }

  lemma SnapshotRulesConcat(a: seq<Rule>, b: seq<Rule>)
    ensures SnapshotRules(a + b) == SnapshotRules(a) + SnapshotRules(b)
  {
    hide Normalized;
  }

  /** The lists of patterns match what the user's rules match. */
  lemma PatternsMatch(c: Option<Config>, providers: seq<string>, domain: string)
    requires Enumerates(providers, c)
    ensures (exists d :: d in Dedupe(EnabledDomains(AIRules(c), providers)) && MatchDomain(d, domain)) <==> AIMatches(c, domain)
    ensures (exists d :: d in Dedupe(ParsedProxyRules(ProxyRules(c))) && MatchDomain(d, domain)) <==> ProxyMatches(c, domain)
  {
    hide Dedupe, EnabledDomains, ParsedProxyRules, MatchDomain, ListsAIPattern, ListsProxyPattern;
    forall d: string
      ensures d in Dedupe(EnabledDomains(AIRules(c), providers)) <==> ListsAIPattern(c, d)
      ensures d in Dedupe(ParsedProxyRules(ProxyRules(c))) <==> ListsProxyPattern(c, d)
    {
      AIPatternsAreListed(c, providers, d);
      ProxyPatternsAreListed(c, d);
    }
  }

  /** AI patterns before proxy patterns, then the default. */
  lemma ChosenInOrder(ai: seq<string>, proxy: seq<string>, caps: Capabilities, toSocks: bool, ctx: Context)
    requires caps.direct && caps.toSocks == toSocks && (ai != [] ==> caps.toAliang)
    requires forall i :: 0 <= i < |ai| ==> Normalized(ai[i]) == ai[i]
    requires forall i :: 0 <= i < |proxy| ==> Normalized(proxy[i]) == proxy[i]
    ensures var target := if toSocks then "toSocks" else "direct";
      ChosenAction(SnapshotRules(DomainRules(ai, "toAliang")) + SnapshotRules(DomainRules(proxy, target)), caps, true, ActDirect, ctx) ==
        if exists d :: d in ai && MatchDomain(d, ctx.domain) then ActToAliang
        else if exists d :: d in proxy && MatchDomain(d, ctx.domain) then ToAction(target)
        else ActDirect
  {
    hide Normalized, MatchDomain, Matches;
    var target := if toSocks then "toSocks" else "direct";
    var rest := SnapshotRules(DomainRules(proxy, target));
    assert rest + [] == rest;
    ChosenAmongDomains(proxy, target, [], caps, ActDirect, ctx);
    if ai != [] {
      ChosenAmongDomains(ai, "toAliang", rest, caps, ActDirect, ctx);
    } else {
      assert SnapshotRules(DomainRules(ai, "toAliang")) + rest == rest;
    }
  }

  // ---------------------------------------------------------------- legacy rules

  datatype LegacyRule = LegacyRule(rtype: string, condition: string, enabled: bool)

  datatype LegacyConfig = LegacyConfig(
    aliang: seq<LegacyRule>, toSocks: seq<LegacyRule>, direct: seq<LegacyRule>, aliangEnabled: bool, socksEnabled: bool)

  function LegacyRules(rules: seq<LegacyRule>, target: Action): seq<SnapshotRule> {
    seq(|rules|, i requires 0 <= i < |rules| =>
      SnapshotRule(Normalized(rules[i].rtype), Normalized(rules[i].condition), rules[i].enabled, target))
  }

  function LegacySnapshot(c: LegacyConfig): Snapshot {
    Snapshot("tun", Capabilities(true, c.aliangEnabled, c.socksEnabled),
             LegacyRules(c.aliang, ActToAliang) + LegacyRules(c.toSocks, ActToSocks) + LegacyRules(c.direct, ActDirect),
             ActDirect, false)
  }

  method AppendLegacyRules(rules: seq<SnapshotRule>, more: seq<LegacyRule>, target: Action) returns (out: seq<SnapshotRule>)
    ensures out == rules + LegacyRules(more, target)
  {
    out := rules;
    for i := 0 to |more|
      invariant out == rules + LegacyRules(more, target)[..i]
    {
      out := out + [SnapshotRule(Normalized(more[i].rtype), Normalized(more[i].condition), more[i].enabled, target)];
    }
  }

  method CompileRuntimeSnapshotFromLegacyConfig(c: LegacyConfig) returns (s: Snapshot)
    ensures s == LegacySnapshot(c)
  {
    hide Normalized;
    var rules := AppendLegacyRules([], c.aliang, ActToAliang);
    rules := AppendLegacyRules(rules, c.toSocks, ActToSocks);
    rules := AppendLegacyRules(rules, c.direct, ActDirect);
    assert rules == LegacyRules(c.aliang, ActToAliang) + LegacyRules(c.toSocks, ActToSocks) + LegacyRules(c.direct, ActDirect);
    return Snapshot("tun", Capabilities(true, c.aliangEnabled, c.socksEnabled), rules, ActDirect, false);
  }

  method DecideRoute(c: Option<LegacyConfig>, ctx: Option<Context>) returns (d: Decision)
    ensures d == if c.None? then RouteDirect else Decide(Some(LegacySnapshot(c.value)), ctx)
  {
    if c.None? || ctx.None? {
      return RouteDirect;
    }
    var s := CompileRuntimeSnapshotFromLegacyConfig(c.value);
    d := DecideRouteFromSnapshot(Some(s), ctx);
  }

  /** The older check of one rule set, rule by rule, without normalisation. */
  predicate CheckRuleSet(rules: seq<LegacyRule>, ctx: Context) {
    rules != [] &&
    ((rules[0].enabled && rules[0].condition != "" && Matches(rules[0].rtype, rules[0].condition, ctx))
     || CheckRuleSet(rules[1..], ctx))
  }

  /** The priority order in plain words: Aliang if on, SOCKS if on, else direct. */
  function Cascade(c: LegacyConfig, ctx: Context): Decision {
    if c.aliangEnabled && CheckRuleSet(c.aliang, ctx) then RouteToAliang
    else if c.socksEnabled && CheckRuleSet(c.toSocks, ctx) then RouteToSocks
    else RouteDirect
  }

  function NormalRules(rules: seq<LegacyRule>): seq<LegacyRule> {
    seq(|rules|, i requires 0 <= i < |rules| =>
      rules[i].(rtype := Normalized(rules[i].rtype), condition := Normalized(rules[i].condition)))
  }

  function NormalConfig(c: LegacyConfig): LegacyConfig {
    c.(aliang := NormalRules(c.aliang), toSocks := NormalRules(c.toSocks), direct := NormalRules(c.direct))
  }

  /** A rule without condition matches nothing, so the two ways of checking agree. */
  lemma {:induction false} ChosenAmongLegacy(rules: seq<LegacyRule>, target: Action, rest: seq<SnapshotRule>, caps: Capabilities, ctx: Context)
    ensures ChosenAction(LegacyRules(rules, target) + rest, caps, false, ActDirect, ctx) ==
      if IsAvailable(target, caps) && CheckRuleSet(NormalRules(rules), ctx) then target
      else ChosenAction(rest, caps, false, ActDirect, ctx)
    decreases |rules|
  {
    hide Normalized;
    var compiled := LegacyRules(rules, target);
    if rules == [] {
      assert compiled + rest == rest;
    } else {
      var tail := LegacyRules(rules[1..], target);
      assert (compiled + rest)[1..] == tail + rest;
      assert NormalRules(rules)[1..] == NormalRules(rules[1..]);
      ChosenAmongLegacy(rules[1..], target, rest, caps, ctx);
    }
  }

  /** The compiled loop decides as the cascade over the normalised rules, for every legacy configuration. */
  lemma LegacyDecisionIsCascade(c: LegacyConfig, ctx: Context)
    ensures Decide(Some(LegacySnapshot(c)), Some(ctx)) == Cascade(NormalConfig(c), ctx)
    ensures Decide(Some(LegacySnapshot(c)), Some(ctx)) != RouteDeny
  {
    hide ChosenAction, CheckRuleSet, LegacyRules, NormalRules;
    var caps := LegacySnapshot(c).caps;
    var socks := LegacyRules(c.toSocks, ActToSocks);
    var direct := LegacyRules(c.direct, ActDirect);
    assert LegacySnapshot(c).rules == LegacyRules(c.aliang, ActToAliang) + (socks + (direct + []));
    ChosenAmongLegacy(c.aliang, ActToAliang, socks + (direct + []), caps, ctx);
    ChosenAmongLegacy(c.toSocks, ActToSocks, direct + [], caps, ctx);
    ChosenAmongLegacy(c.direct, ActDirect, [], caps, ctx);
    NothingChosen(caps, ctx);
  }

  lemma NothingChosen(caps: Capabilities, ctx: Context)
    ensures ChosenAction([], caps, false, ActDirect, ctx) == ActDirect
  {
  }

  /** Switching a branch off changes only decisions that took it. */
  lemma SwitchingOffIsLocal(c: LegacyConfig, ctx: Context)
    ensures var d := Decide(Some(LegacySnapshot(c)), Some(ctx));
      && (d != RouteToAliang ==> Decide(Some(LegacySnapshot(c.(aliangEnabled := false))), Some(ctx)) == d)
      && (d != RouteToSocks ==> Decide(Some(LegacySnapshot(c.(socksEnabled := false))), Some(ctx)) == d)
  {
    hide Decide, CheckRuleSet, LegacySnapshot, NormalRules;
    LegacyDecisionIsCascade(c, ctx);
    LegacyDecisionIsCascade(c.(aliangEnabled := false), ctx);
    LegacyDecisionIsCascade(c.(socksEnabled := false), ctx);
  }
}
