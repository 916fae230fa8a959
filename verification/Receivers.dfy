// Alertmanager receivers from Slack routes: sanitised names made unique by a
// numeric suffix, one route and one secret per receiver.
module Receivers {
  import opened Seqs
  import opened Strings
  import opened Wrappers

  // ---- Sanitising ----

  type Lower = string -> string

  predicate IsPlain(c: char) {
    '0' <= c <= '9' || 'a' <= c <= 'z' || c == '-'
  }

  predicate AllPlain(s: string) {
    forall i :: 0 <= i < |s| ==> IsPlain(s[i])
  }

  // Each maximal run of other characters becomes one dash.
  function Dashed(s: string, inRun: bool): (r: string)
    ensures AllPlain(r)
  {
    if s == "" then ""
    else if IsPlain(s[0]) then [s[0]] + Dashed(s[1..], false)
    else (if inRun then "" else "-") + Dashed(s[1..], true)
  }

  function StripStart(s: string): (r: string)
    ensures r != "" ==> r[0] != '-'
    ensures AllPlain(s) ==> AllPlain(r)
  {
    if s != "" && s[0] == '-' then StripStart(s[1..]) else s
  }

  function StripEnd(s: string): (r: string)
    ensures r != "" ==> r[|r| - 1] != '-'
    ensures r <= s
    ensures AllPlain(s) ==> AllPlain(r)
  {
    if s != "" && s[|s| - 1] == '-' then StripEnd(s[..|s| - 1]) else s
  }

  function Sanitize(lower: Lower, value: string): string {
    var r := StripEnd(StripStart(Dashed(lower(value), false)));
    if r == "" then "slack-default" else r
  }

  predicate IsClean(s: string) {
    s != "" && AllPlain(s) && s[0] != '-' && s[|s| - 1] != '-'
  }

  // toLowerCase leaves lower-case letters, digits and dashes alone.
  ghost predicate FixesPlain(lower: Lower) {
    forall s :: AllPlain(s) ==> lower(s) == s
  }

  lemma {:induction false} DashedFixesPlain(s: string, inRun: bool)
    requires AllPlain(s)
    ensures Dashed(s, inRun) == s
  {
    if s == "" {
    } else {
      DashedFixesPlain(s[1..], false);
    }
  }

  // A sanitised name is never empty, holds only [0-9a-z-], and has no edge dash.
  lemma SanitizedIsClean(lower: Lower, value: string)
    ensures IsClean(Sanitize(lower, value))
  {
  }

  lemma StripsNothing(s: string)
    requires IsClean(s)
    ensures StripEnd(StripStart(s)) == s
  {
  }

  // Sanitising leaves exactly the clean names alone.
  lemma SanitizeFixpoints(lower: Lower, value: string)
    requires FixesPlain(lower)
    ensures Sanitize(lower, value) == value <==> IsClean(value)
  {
    SanitizedIsClean(lower, value);
    if IsClean(value) {
      assert lower(value) == value;
      DashedFixesPlain(value, false);
      StripsNothing(value);
    }
  }

  // So doing it twice is doing it once.
  lemma SanitizeIdempotent(lower: Lower, value: string)
    requires FixesPlain(lower)
    ensures Sanitize(lower, Sanitize(lower, value)) == Sanitize(lower, value)
  {
    SanitizedIsClean(lower, value);
    SanitizeFixpoints(lower, Sanitize(lower, value));
  }

  // ---- What sanitising yields ----

  ghost predicate AllForeign(s: string) {
    forall i :: 0 <= i < |s| ==> !IsPlain(s[i])
  }

  // Letters, digits and dashes are copied,
  lemma {:induction false} PlainIsCopied(plain: string, s: string, inRun: bool)
    requires AllPlain(plain) && plain != ""
    ensures Dashed(plain + s, inRun) == plain + Dashed(s, false)
  {
    var whole := plain + s;
    assert whole[0] == plain[0] && whole[1..] == plain[1..] + s;
    if |plain| == 1 {
      assert plain[1..] + s == s;
    } else {
      PlainIsCopied(plain[1..], s, false);
      assert [plain[0]] + (plain[1..] + Dashed(s, false)) == plain + Dashed(s, false);
    }
  }

  // and a run of other characters, however long, becomes one dash.
  lemma {:induction false} RunIsOneDash(run: string, s: string, inRun: bool)
    requires AllForeign(run) && run != "" && (s == "" || IsPlain(s[0]))
    ensures Dashed(run + s, inRun) == (if inRun then "" else "-") + Dashed(s, false)
  {
    var whole := run + s;
    assert whole[0] == run[0] && whole[1..] == run[1..] + s;
    if |run| == 1 {
      assert run[1..] + s == s;
    } else {
      RunIsOneDash(run[1..], s, true);
    }
  }

  ghost predicate AllDashes(s: string) {
    forall i :: 0 <= i < |s| ==> s[i] == '-'
  }

  lemma {:induction false} StripStartParts(s: string) returns (before: string)
    ensures s == before + StripStart(s) && AllDashes(before)
  {
    if s == "" || s[0] != '-' {
      before := "";
    } else {
      var rest := StripStartParts(s[1..]);
      before := "-" + rest;
    }
  }

  lemma {:induction false} StripEndParts(s: string) returns (after: string)
    ensures s == StripEnd(s) + after && AllDashes(after)
  {
    if s == "" || s[|s| - 1] != '-' {
      after := "";
    } else {
      var rest := StripEndParts(s[..|s| - 1]);
      after := rest + "-";
    }
  }

  // A sanitised name is the dashed lower-case text without the dashes at its ends, or
  // "slack-default" when nothing else is left.
  lemma SanitizeMeaning(lower: Lower, value: string) returns (before: string, core: string, after: string)
    ensures Dashed(lower(value), false) == before + core + after && AllDashes(before) && AllDashes(after)
    ensures core != "" ==> core[0] != '-' && core[|core| - 1] != '-'
    ensures Sanitize(lower, value) == if core == "" then "slack-default" else core
  {
    var text := Dashed(lower(value), false);
    before := StripStartParts(text);
    after := StripEndParts(StripStart(text));
    core := StripEnd(StripStart(text));
    assert before + (core + after) == before + core + after;
  }

  // ---- Unique names ----

  function Candidate(base: string, k: nat): string {
    if k <= 1 then base else base + "-" + Decimal(k)
  }

  lemma CandidatesDiffer(base: string, j: nat, k: nat)
    requires 1 <= j < k
    ensures Candidate(base, j) != Candidate(base, k)
  {
    if j == 1 {
      assert |Candidate(base, k)| > |base|;
    } else if Candidate(base, j) == Candidate(base, k) {
      NumberedNames(base + "-", j, k);
    }
  }

  ghost function FirstCandidates(base: string, k: nat): set<string> {
    if k <= 1 then {} else FirstCandidates(base, k - 1) + {Candidate(base, k - 1)}
  }

  lemma {:induction false} FirstCandidatesContent(base: string, k: nat, x: string)
    requires k >= 1
    ensures |FirstCandidates(base, k)| == k - 1
    ensures x in FirstCandidates(base, k) <==> exists j :: 1 <= j < k && Candidate(base, j) == x
  {
    if k > 1 {
      FirstCandidatesContent(base, k - 1, x);
      FirstCandidatesContent(base, k - 1, Candidate(base, k - 1));
      forall j | 1 <= j < k - 1 ensures Candidate(base, j) != Candidate(base, k - 1) {
        CandidatesDiffer(base, j, k - 1);
      }
    }
  }

  ghost predicate AllTaken(base: string, used: set<string>, k: nat) {
    forall j :: 1 <= j < k ==> Candidate(base, j) in used
  }

  // Pigeonhole: a finite set cannot take all of too many different candidates.
  lemma TakenBound(base: string, used: set<string>, k: nat)
    requires k >= 1 && AllTaken(base, used, k)
    ensures k - 1 <= |used|
  {
    var firsts := FirstCandidates(base, k);
    forall x | x in firsts ensures x in used { FirstCandidatesContent(base, k, x); }
    FirstCandidatesContent(base, k, base);
    assert used == firsts + (used - firsts);
  }

  // The first candidate that is not used, from k on.
  function FreeIndex(base: string, used: set<string>, k: nat): (r: nat)
    requires k >= 1 && AllTaken(base, used, k)
    ensures r >= k && Candidate(base, r) !in used && AllTaken(base, used, r)
    decreases |used| + 1 - k
  {
    TakenBound(base, used, k);
    if Candidate(base, k) in used then
      assert AllTaken(base, used, k + 1);
      TakenBound(base, used, k + 1);
      FreeIndex(base, used, k + 1)
    else k
  }

  function FreeName(base: string, used: set<string>): string {
    Candidate(base, FreeIndex(base, used, 1))
  }

  // ---- Routes ----

  datatype RouteConfig = RouteConfig(
    enabled: Option<bool>,
    id: Option<string>,
    webhookUrlEnv: Option<string>,
    channel: Option<string>,
    matchers: Option<seq<string>>)

  datatype Receiver = Receiver(name: string, channel: Option<string>)
  datatype Route = Route(receiverName: string, matchers: seq<string>)

  // Receivers, routes, secrets and the names in use.
  datatype Registry = Registry(
    receivers: seq<Receiver>,
    routes: seq<Route>,
    secrets: map<string, string>,
    used: set<string>)

  const EMPTY_REGISTRY := Registry([], [], map[], {})

  type Environment = map<string, string>

  const DEFAULT_SLACK_WEBHOOK_ENV := "ETHEREUM_HEAD_WATCHER_SLACK_WEBHOOK_URL"
  const DEFAULT_SLACK_CHANNEL_ENV := "ETHEREUM_HEAD_WATCHER_SLACK_CHANNEL"

  // The trimmed value, or the fallback when it is missing or blank.
  function TrimmedOr(value: Option<string>, fallback: string): string {
    if value.Some? && Trim(value.value) != "" then Trim(value.value) else fallback
  }

  function TrimmedOption(value: Option<string>): Option<string> {
    if value.Some? then Some(Trim(value.value)) else None
  }

  function Lookup(env: Environment, name: string): Option<string> {
    if name in env then Some(env[name]) else None
  }

  // The route's webhook; empty when unset or blank.
  function Webhook(env: Environment, rc: RouteConfig): string {
    TrimmedOr(Lookup(env, TrimmedOr(rc.webhookUrlEnv, DEFAULT_SLACK_WEBHOOK_ENV)), "")
  }

  predicate Eligible(env: Environment, rc: RouteConfig) {
    rc.enabled != Some(false) && Webhook(env, rc) != ""
  }

  function Matchers(rc: RouteConfig): seq<string> {
    Select((m: string) => m != "", (m: string) => m, Map((m: string) => Trim(m), rc.matchers.GetOr([])))
  }

  function SecretKey(receiverName: string): string {
    receiverName + ".url"
  }

  // What one eligible route contributes.
  datatype Registration = Registration(channel: Option<string>, matchers: seq<string>, url: string)

  function RegistrationOf(env: Environment, rc: RouteConfig): Registration {
    Registration(TrimmedOption(rc.channel), Matchers(rc), Webhook(env, rc))
  }

  function AddReceiver(reg: Registry, name: string, r: Registration): Registry {
    Registry(reg.receivers + [Receiver(name, r.channel)],
             reg.routes + [Route(name, r.matchers)],
             reg.secrets[SecretKey(name) := r.url],
             reg.used + {name})
  }

  function Register(lower: Lower, env: Environment, reg: Registry, rc: RouteConfig, fallbackId: string): Registry {
    if !Eligible(env, rc) then reg
    else AddReceiver(reg, FreeName(Sanitize(lower, TrimmedOr(rc.id, fallbackId)), reg.used), RegistrationOf(env, rc))
  }

  function RegisterAll(lower: Lower, env: Environment, rcs: seq<RouteConfig>): Registry {
    if rcs == [] then EMPTY_REGISTRY
    else
      var front, last := rcs[..|rcs| - 1], rcs[|rcs| - 1];
      Register(lower, env, RegisterAll(lower, env, front), last, "slack-route-" + Decimal(|rcs|))
  }

  // The whole configuration: without configured routes, one default route if
  // the default webhook is set; slack enabled but nothing resolved is an error.
  datatype SlackConfig = SlackConfig(enabled: Option<bool>, routes: seq<RouteConfig>)

  datatype BuildError = NoSlackRoutes

  function DefaultRoute(env: Environment): RouteConfig {
    RouteConfig(None, Some("default"), Some(DEFAULT_SLACK_WEBHOOK_ENV),
                TrimmedOption(Lookup(env, DEFAULT_SLACK_CHANNEL_ENV)), None)
  }

  function Build(lower: Lower, env: Environment, slack: SlackConfig): Result<Registry, BuildError> {
    var reg :=
      if slack.routes != [] then RegisterAll(lower, env, slack.routes)
      else if TrimmedOr(Lookup(env, DEFAULT_SLACK_WEBHOOK_ENV), "") != "" then
        Register(lower, env, EMPTY_REGISTRY, DefaultRoute(env), "default")
      else EMPTY_REGISTRY;
    if slack.enabled.GetOr(slack.routes != []) && reg.receivers == [] then Err(NoSlackRoutes) else Ok(reg)
  }

  // ---- What a route registers ----

  // The environment variable of a route: its own, trimmed, or the default one.
  predicate IsVariableOf(rc: RouteConfig, v: string) {
    if rc.webhookUrlEnv.Some? && Trim(rc.webhookUrlEnv.value) != "" then v == Trim(rc.webhookUrlEnv.value)
    else v == "ETHEREUM_HEAD_WATCHER_SLACK_WEBHOOK_URL"
  }

  // A route registers if and only if it is not disabled and its variable is set and
  // not blank; with the trimmed value for its secret and its own trimmed channel.
  lemma EligibleExactly(env: Environment, rc: RouteConfig, v: string)
    requires IsVariableOf(rc, v)
    ensures Eligible(env, rc) <==> rc.enabled != Some(false) && v in env && Trim(env[v]) != ""
    ensures Eligible(env, rc) ==> RegistrationOf(env, rc).url == Trim(env[v])
    ensures rc.channel.Some? ==> RegistrationOf(env, rc).channel == Some(Trim(rc.channel.value))
    ensures rc.channel.None? ==> RegistrationOf(env, rc).channel == None
  {
  }

  // Its matchers are trimmed, in order, and blank ones dropped.
  lemma MatchersExactly(rc: RouteConfig, first: string, rest: seq<string>)
    ensures rc.matchers == None || rc.matchers == Some([]) ==> Matchers(rc) == []
    ensures Matchers(rc.(matchers := Some([first] + rest))) ==
            (if Trim(first) == "" then [] else [Trim(first)]) + Matchers(rc.(matchers := Some(rest)))
  {
    var trimmed := Map((m: string) => Trim(m), [first] + rest);
    assert trimmed[0] == Trim(first) && trimmed[1..] == Map((m: string) => Trim(m), rest);
  }

  // The base of its name: its own id, trimmed, or the fallback, sanitised.
  function BaseName(lower: Lower, rc: RouteConfig, fallbackId: string): string {
    if rc.id.Some? && Trim(rc.id.value) != "" then Sanitize(lower, Trim(rc.id.value)) else Sanitize(lower, fallbackId)
  }

  // A name is the base itself unless taken, else the base with the first free number
  // from two on.
  ghost predicate IsFreshName(base: string, used: set<string>, name: string) {
    && name !in used
    && (base !in used ==> name == base)
    && (base in used ==> exists n: nat {:trigger Numbering(base, n)} ::
          n >= 2 && name == Numbering(base, n) && forall j: nat :: 2 <= j < n ==> Numbering(base, j) in used)
  }

  function Numbering(base: string, n: nat): string {
    base + "-" + Decimal(n)
  }

  lemma FreeNameExactly(base: string, used: set<string>)
    ensures IsFreshName(base, used, FreeName(base, used))
  {
    var n := FreeIndex(base, used, 1);
    assert Candidate(base, n) == FreeName(base, used);
    assert Candidate(base, 1) == base;
    assert n > 1 ==> Candidate(base, 1) in used;
    if base in used {
      forall j: nat | 2 <= j < n ensures Numbering(base, j) in used {
        assert Candidate(base, j) in used;
      }
      assert FreeName(base, used) == Numbering(base, n);
    }
  }

  // An eligible route adds one receiver, route and secret under such a name; any other
  // adds nothing.
  lemma RegisterExactly(lower: Lower, env: Environment, reg: Registry, rc: RouteConfig, fallbackId: string, v: string)
    requires IsVariableOf(rc, v)
    ensures var reg' := Register(lower, env, reg, rc, fallbackId);
      if rc.enabled != Some(false) && v in env && Trim(env[v]) != "" then
        exists name ::
          && IsFreshName(BaseName(lower, rc, fallbackId), reg.used, name)
          && reg'.receivers == reg.receivers + [Receiver(name, RegistrationOf(env, rc).channel)]
          && reg'.routes == reg.routes + [Route(name, Matchers(rc))]
          && reg'.secrets == reg.secrets[name + ".url" := Trim(env[v])]
          && reg'.used == reg.used + {name}
      else reg' == reg
  {
    EligibleExactly(env, rc, v);
    FreeNameExactly(BaseName(lower, rc, fallbackId), reg.used);
  }

  // Routes register in order, the k-th with the fallback id numbered k.
  lemma RegisterAllNext(lower: Lower, env: Environment, rcs: seq<RouteConfig>, rc: RouteConfig)
    ensures RegisterAll(lower, env, []) == Registry([], [], map[], {})
    ensures RegisterAll(lower, env, rcs + [rc]) ==
            Register(lower, env, RegisterAll(lower, env, rcs), rc, "slack-route-" + Decimal(|rcs| + 1))
  {
    assert (rcs + [rc])[..|rcs|] == rcs;
  }

  // ---- The builder ----

  class Builder {
    const lower: Lower
    const env: Environment
    var receivers: seq<Receiver>
    var routes: seq<Route>
    var secretData: map<string, string>
    var usedReceiverNames: set<string>

    constructor (lower: Lower, env: Environment)
      ensures this.lower == lower && this.env == env && View() == EMPTY_REGISTRY
    {
      this.lower, this.env := lower, env;
      receivers, routes, secretData, usedReceiverNames := [], [], map[], {};
    }

    ghost function View(): Registry
      reads this
    {
      Registry(receivers, routes, secretData, usedReceiverNames)
    }

    // The search for a free name ends because the used set is finite.
    method UniqueName(base: string) returns (receiverName: string)
      ensures receiverName == FreeName(base, usedReceiverNames)
    {
      receiverName := base;
      var suffix: nat := 1;
      while receiverName in usedReceiverNames
        invariant suffix >= 1 && receiverName == Candidate(base, suffix)
        invariant AllTaken(base, usedReceiverNames, suffix)
        invariant FreeIndex(base, usedReceiverNames, suffix) == FreeIndex(base, usedReceiverNames, 1)
        decreases |usedReceiverNames| + 1 - suffix
      {
        TakenBound(base, usedReceiverNames, suffix + 1);
        suffix := suffix + 1;
        receiverName := base + "-" + Decimal(suffix);
      }
    }

    method RegisterRoute(rc: RouteConfig, fallbackId: string)
      modifies this
      ensures View() == Register(lower, env, old(View()), rc, fallbackId)
    {
      if rc.enabled == Some(false) { return; }
      var webhookUrl := Webhook(env, rc);
      if webhookUrl == "" { return; }
      var receiverName := UniqueName(Sanitize(lower, TrimmedOr(rc.id, fallbackId)));
      usedReceiverNames := usedReceiverNames + {receiverName};
      receivers := receivers + [Receiver(receiverName, TrimmedOption(rc.channel))];
      routes := routes + [Route(receiverName, Matchers(rc))];
      secretData := secretData[SecretKey(receiverName) := webhookUrl];
    }

    method RegisterRoutes(rcs: seq<RouteConfig>)
      requires View() == EMPTY_REGISTRY
      modifies this
      ensures View() == RegisterAll(lower, env, rcs)
    {
      for i := 0 to |rcs|
        invariant View() == RegisterAll(lower, env, rcs[..i])
      {
        assert rcs[..i + 1][..i] == rcs[..i];
        RegisterRoute(rcs[i], "slack-route-" + Decimal(i + 1));
      }
      assert rcs[..|rcs|] == rcs;
    }

    method BuildAlertmanagerSlackConfig(slack: SlackConfig) returns (e: Option<BuildError>)
      requires View() == EMPTY_REGISTRY
      modifies this
      ensures match Build(lower, env, slack)
        case Ok(reg) => e == None && View() == reg
        case Err(error) => e == Some(error)
    {
      if |slack.routes| > 0 {
        RegisterRoutes(slack.routes);
      } else {
        var fallbackWebhook := TrimmedOr(Lookup(env, DEFAULT_SLACK_WEBHOOK_ENV), "");
        if fallbackWebhook != "" {
          RegisterRoute(DefaultRoute(env), "default");
        }
      }
      var slackEnabled := match slack.enabled case Some(enabled) => enabled case None => |slack.routes| > 0;
      e := if slackEnabled && |receivers| == 0 then Some(NoSlackRoutes) else None;
    }
  }

  // ---- Main results ----

  function Expected(env: Environment, rcs: seq<RouteConfig>): seq<Registration> {
    if rcs == [] then []
    else Expected(env, rcs[..|rcs| - 1]) +
         (if Eligible(env, rcs[|rcs| - 1]) then [RegistrationOf(env, rcs[|rcs| - 1])] else [])
  }

  // Receivers and routes correspond one to one in order, and names never repeat.
  ghost predicate NamesMatch(reg: Registry) {
    && |reg.routes| == |reg.receivers|
    && (forall i :: 0 <= i < |reg.receivers| ==> reg.routes[i].receiverName == reg.receivers[i].name)
    && (forall i :: 0 <= i < |reg.receivers| ==> reg.receivers[i].name in reg.used)
    && (forall i, j :: 0 <= i < j < |reg.receivers| ==> reg.receivers[i].name != reg.receivers[j].name)
  }

  ghost predicate IsReceiver(receivers: seq<Receiver>, name: string) {
    exists i :: 0 <= i < |receivers| && receivers[i].name == name
  }

  // The names in use are the receivers', and the secrets are exactly one each.
  ghost predicate SecretsMatch(reg: Registry) {
    && (forall n :: n in reg.used ==> IsReceiver(reg.receivers, n) && SecretKey(n) in reg.secrets)
    && (forall k :: k in reg.secrets ==> exists n :: n in reg.used && k == SecretKey(n))
    && |reg.secrets| == |reg.receivers|
  }

  ghost predicate Consistent(reg: Registry) {
    NamesMatch(reg) && SecretsMatch(reg)
  }

  // Receiver, route and secret i are those of the i-th registration.
  ghost predicate Holds(reg: Registry, expected: seq<Registration>) {
    && |reg.receivers| == |reg.routes| == |expected|
    && forall i :: 0 <= i < |expected| ==>
         && reg.receivers[i].channel == expected[i].channel
         && reg.routes[i].matchers == expected[i].matchers
         && SecretKey(reg.receivers[i].name) in reg.secrets
         && reg.secrets[SecretKey(reg.receivers[i].name)] == expected[i].url
  }

  lemma SecretKeyInjective(a: string, b: string)
    ensures SecretKey(a) == SecretKey(b) <==> a == b
  {
    assert SecretKey(a)[..|SecretKey(a)| - 4] == a;
    assert SecretKey(b)[..|SecretKey(b)| - 4] == b;
  }

  lemma FreshSecret(reg: Registry, name: string)
    requires SecretsMatch(reg) && name !in reg.used
    ensures SecretKey(name) !in reg.secrets
  {
    if SecretKey(name) in reg.secrets {
      var n :| n in reg.used && SecretKey(name) == SecretKey(n);
      SecretKeyInjective(name, n);
    }
  }

  lemma AddKeepsNames(reg: Registry, name: string, r: Registration)
    requires NamesMatch(reg) && name !in reg.used
    ensures NamesMatch(AddReceiver(reg, name, r))
  {
  }

  lemma AddKeepsSecrets(reg: Registry, name: string, r: Registration)
    requires SecretsMatch(reg) && name !in reg.used
    ensures SecretsMatch(AddReceiver(reg, name, r))
  {
    var reg', n := AddReceiver(reg, name, r), |reg.receivers|;
    FreshSecret(reg, name);
    assert reg'.receivers[n].name == name;
    forall x | x in reg.used ensures IsReceiver(reg'.receivers, x) {
      var i :| 0 <= i < n && reg.receivers[i].name == x;
      assert reg'.receivers[i].name == x;
    }
    forall k | k in reg'.secrets ensures exists x :: x in reg'.used && k == SecretKey(x) {
      if k in reg.secrets {
        var x :| x in reg.used && k == SecretKey(x);
        assert x in reg'.used;
      } else {
        assert name in reg'.used;
      }
    }
  }

  lemma AddKeepsHolds(reg: Registry, expected: seq<Registration>, name: string, r: Registration)
    requires Consistent(reg) && Holds(reg, expected) && name !in reg.used
    ensures Holds(AddReceiver(reg, name, r), expected + [r])
  {
    forall i | 0 <= i < |reg.receivers| ensures SecretKey(reg.receivers[i].name) != SecretKey(name) {
      SecretKeyInjective(reg.receivers[i].name, name);
    }
  }

  lemma RegisterKeeps(lower: Lower, env: Environment, reg: Registry, expected: seq<Registration>, rc: RouteConfig,
                      fallbackId: string)
    requires Eligible(env, rc) && Consistent(reg) && Holds(reg, expected)
    ensures Consistent(Register(lower, env, reg, rc, fallbackId))
    ensures Holds(Register(lower, env, reg, rc, fallbackId), expected + [RegistrationOf(env, rc)])
  {
    var name := FreeName(Sanitize(lower, TrimmedOr(rc.id, fallbackId)), reg.used);
    AddKeepsNames(reg, name, RegistrationOf(env, rc));
    AddKeepsSecrets(reg, name, RegistrationOf(env, rc));
    AddKeepsHolds(reg, expected, name, RegistrationOf(env, rc));
  }

  // For any list of routes and any environment: receiver names are pairwise
  // different, receivers, routes and secrets match one to one, and they are
  // those of the eligible routes, in order.
  lemma {:induction false} ReceiversMatchRoutes(lower: Lower, env: Environment, rcs: seq<RouteConfig>)
    ensures Consistent(RegisterAll(lower, env, rcs))
    ensures Holds(RegisterAll(lower, env, rcs), Expected(env, rcs))
  {
    if rcs == [] {
    } else {
      var front, rc := rcs[..|rcs| - 1], rcs[|rcs| - 1];
      ReceiversMatchRoutes(lower, env, front);
      if Eligible(env, rc) {
        RegisterKeeps(lower, env, RegisterAll(lower, env, front), Expected(env, front), rc,
                      "slack-route-" + Decimal(|rcs|));
      }
    }
  }

  // The registrations a configuration stands for: those of its eligible routes, or
  // of the default route when it has none.
  function Registrations(env: Environment, slack: SlackConfig): seq<Registration> {
    if slack.routes != [] then Expected(env, slack.routes)
    else if Eligible(env, DefaultRoute(env)) then [RegistrationOf(env, DefaultRoute(env))]
    else []
  }

  lemma DefaultIsEligible(env: Environment)
    ensures Eligible(env, DefaultRoute(env)) <==> TrimmedOr(Lookup(env, DEFAULT_SLACK_WEBHOOK_ENV), "") != ""
  {
    DefaultNameIsTrimmed();
  }

  lemma DefaultNameIsTrimmed()
    ensures DEFAULT_SLACK_WEBHOOK_ENV != "" && Trim(DEFAULT_SLACK_WEBHOOK_ENV) == DEFAULT_SLACK_WEBHOOK_ENV
  {
    TrimExact(DEFAULT_SLACK_WEBHOOK_ENV);
  }

  // Whatever the configuration, a build fails exactly when Slack is enabled and
  // nothing is registered; otherwise its receivers, routes and secrets match one
  // to one and are those of the registrations, in order.
  lemma BuildIsConsistent(lower: Lower, env: Environment, slack: SlackConfig)
    ensures match Build(lower, env, slack)
      case Ok(reg) => Consistent(reg) && Holds(reg, Registrations(env, slack))
      case Err(_) => slack.enabled.GetOr(slack.routes != []) && Registrations(env, slack) == []
    ensures Build(lower, env, slack).Err? <==>
            slack.enabled.GetOr(slack.routes != []) && Registrations(env, slack) == []
  {
    ReceiversMatchRoutes(lower, env, slack.routes);
    DefaultIsEligible(env);
    if Eligible(env, DefaultRoute(env)) {
      RegisterKeeps(lower, env, EMPTY_REGISTRY, [], DefaultRoute(env), "default");
      assert [] + [RegistrationOf(env, DefaultRoute(env))] == [RegistrationOf(env, DefaultRoute(env))];
    }
  }

  lemma DefaultBase(lower: Lower)
    requires FixesPlain(lower)
    ensures TrimmedOr(Some("default"), "default") == "default" && Sanitize(lower, "default") == "default"
  {
    CleanBase(lower, "default", "default");
  }

  // A clean id is its own base name.
  lemma CleanBase(lower: Lower, id: string, fallbackId: string)
    requires FixesPlain(lower) && IsClean(id)
    ensures TrimmedOr(Some(id), fallbackId) == id && Sanitize(lower, id) == id
  {
    TrimExact(id);
    SanitizeFixpoints(lower, id);
  }

  lemma DefaultRegistration(env: Environment)
    requires DEFAULT_SLACK_WEBHOOK_ENV in env && Trim(env[DEFAULT_SLACK_WEBHOOK_ENV]) != ""
    ensures Eligible(env, DefaultRoute(env))
    ensures RegistrationOf(env, DefaultRoute(env)) ==
            Registration(
              if DEFAULT_SLACK_CHANNEL_ENV in env then Some(Trim(Trim(env[DEFAULT_SLACK_CHANNEL_ENV]))) else None,
              [], Trim(env[DEFAULT_SLACK_WEBHOOK_ENV]))
  {
    DefaultNameIsTrimmed();
    EligibleExactly(env, DefaultRoute(env), DEFAULT_SLACK_WEBHOOK_ENV);
  }

  lemma AddToEmpty(name: string, r: Registration)
    ensures AddReceiver(EMPTY_REGISTRY, name, r) ==
            Registry([Receiver(name, r.channel)], [Route(name, r.matchers)], map[name + ".url" := r.url], {name})
  {
  }

  lemma BuildsDefault(lower: Lower, env: Environment, slack: SlackConfig, name: string)
    requires slack.routes == []
    ensures Eligible(env, DefaultRoute(env)) &&
            name == FreeName(Sanitize(lower, TrimmedOr(Some("default"), "default")), {}) ==>
      Build(lower, env, slack) == Ok(AddReceiver(EMPTY_REGISTRY, name, RegistrationOf(env, DefaultRoute(env))))
  {
    DefaultIsEligible(env);
  }

  // Without configured routes, the default variable alone makes one receiver,
  // "default", with the default channel and no matchers.
  lemma DefaultBuild(lower: Lower, env: Environment, slack: SlackConfig)
    requires FixesPlain(lower) && slack.routes == []
    ensures var v, channel := "ETHEREUM_HEAD_WATCHER_SLACK_WEBHOOK_URL", "ETHEREUM_HEAD_WATCHER_SLACK_CHANNEL";
      v in env && Trim(env[v]) != "" ==>
      var trimmed := if channel in env then Some(Trim(Trim(env[channel]))) else None;
      Build(lower, env, slack) ==
      Ok(Registry([Receiver("default", trimmed)], [Route("default", [])],
                  map["default" + ".url" := Trim(env[v])], {"default"}))
  {
    var v, channel := DEFAULT_SLACK_WEBHOOK_ENV, DEFAULT_SLACK_CHANNEL_ENV;
    if v in env && Trim(env[v]) != "" {
      DefaultRegistration(env);
      DefaultBase(lower);
      FreeNameExactly("default", {});
      BuildsDefault(lower, env, slack, "default");
      AddToEmpty("default", RegistrationOf(env, DefaultRoute(env)));
    }
  }
}
