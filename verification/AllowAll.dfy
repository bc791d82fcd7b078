/**
The systemd side's test for "every device is allowed", and its agreement with
what the compiled filter answers.
*/
module AllowAll {
  import opened Common
  import opened Bpf
  import opened DevicePolicy
  import opened DeviceFilter
  import opened DeviceCompiler

  /** A number as the configuration parser stores it: absent numbers read as 0. */
  function Raw(n: Option<int>): int { if n.Some? then n.value else 0 }

  predicate Wild(d: Device) { Raw(d.major) <= 0 && Raw(d.minor) <= 0 }

  predicate AnyKind(d: Device) { d.kind.None? || d.kind.value == "" || d.kind.value == "a" }

  predicate HasKind(d: Device, kind: string) { d.kind == Some(kind) }

  /** Only allow rules, among them a wildcard rule for both kinds or one for each. */
  predicate Covers(s: seq<Device>) {
    && (forall d :: d in s ==> d.allow)
    && ((exists d :: d in s && Wild(d) && AnyKind(d))
        || ((exists d :: d in s && Wild(d) && HasKind(d, "c")) && exists d :: d in s && Wild(d) && HasKind(d, "b")))
  }

  ghost predicate CoveredBySuffix(devs: seq<Device>) {
    exists k :: 0 <= k <= |devs| && Covers(devs[k..])
  }

  const DEV_TYPE_BLOCK := 1
  const DEV_TYPE_CHAR := 2

  function ClearBit(mask: nat, bit: nat): nat
    requires bit > 0
  {
    if mask / bit % 2 == 1 then mask - bit else mask
  }

  lemma SuffixMono(devs: seq<Device>, k: nat, m: nat, d: Device)
    requires k <= m <= |devs| && d in devs[m..]
    ensures d in devs[k..]
  {
    var i :| 0 <= i < |devs[m..]| && devs[m..][i] == d;
    assert devs[k..][m - k + i] == d;
  }

  /** has_allow_all: true exactly when some suffix of the rules covers everything. */
  method HasAllowAll(devs: seq<Device>) returns (all: bool)
    ensures all <==> CoveredBySuffix(devs)
  {
    var remaining := DEV_TYPE_BLOCK + DEV_TYPE_CHAR;
    for i := 0 to |devs|
      invariant forall d :: d in devs[|devs| - i..] ==> d.allow
      invariant remaining in {1, 2, 3}
      invariant remaining >= 2 <==> !exists d :: d in devs[|devs| - i..] && Wild(d) && HasKind(d, "c")
      invariant remaining % 2 == 1 <==> !exists d :: d in devs[|devs| - i..] && Wild(d) && HasKind(d, "b")
      invariant !exists d :: d in devs[|devs| - i..] && Wild(d) && AnyKind(d)
    {
      var current := |devs| - i - 1;
      var d := devs[current];
      assert devs[current..] == [d] + devs[|devs| - i..];
      if !d.allow {
        forall k | 0 <= k <= |devs| ensures !Covers(devs[k..]) {
          if k <= current {
            assert d == devs[k..][current - k];
          } else {
            NotYet(devs, current + 1, k);
          }
        }
        return false;
      }
      if Wild(d) {
        if AnyKind(d) {
          assert d in devs[current..] && Covers(devs[current..]);
          return true;
        }
        if d.kind.value == "c" {
          remaining := ClearBit(remaining, DEV_TYPE_CHAR);
        } else if d.kind.value == "b" {
          remaining := ClearBit(remaining, DEV_TYPE_BLOCK);
        }
        if remaining == 0 {
          assert Covers(devs[current..]);
          return true;
        }
      }
    }
    forall k | 0 <= k <= |devs| ensures !Covers(devs[k..]) {
      NotYet(devs, 0, k);
    }
    return false;
  }

  lemma NotYet(devs: seq<Device>, from: nat, k: nat)
    requires from <= k <= |devs|
    requires !exists d :: d in devs[from..] && Wild(d) && AnyKind(d)
    requires (!exists d :: d in devs[from..] && Wild(d) && HasKind(d, "c")) ||
      !exists d :: d in devs[from..] && Wild(d) && HasKind(d, "b")
    ensures !Covers(devs[k..])
  {
    forall d | d in devs[k..] ensures d in devs[from..] { SuffixMono(devs, from, k, d); }
  }

  // ------------------------------------------------- agreement with the filter

  predicate PlainNumber(n: Option<int>) {
    n.None? || (-0x8000_0000 <= n.value < 0x8000_0000 && n.value != 0)
  }

  /**
  The type is absent or one of a, b and c; numbers are int values other than an explicit 0; wildcard rules grant rwm.
  */
  predicate Plain(d: Device) {
    && (d.kind.None? || d.kind.value in ["a", "b", "c"])
    && PlainNumber(d.major) && PlainNumber(d.minor)
    && (Wild(d) ==> AccessOf(RuleOf(d).access) == {Read, Write, Mknod})
  }

  predicate DeniesEverything(d: Device) {
    !d.allow && TestsOf(RuleOf(d)) == []
  }

  function Letter(kind: Kind): string { if kind.Block? then "b" else "c" }

  /** has_allow_all takes the rule to cover all devices of this kind. */
  predicate CoversKind(d: Device, kind: Kind) { Wild(d) && (AnyKind(d) || HasKind(d, Letter(kind))) }

  /** So does the filter: its numbers are negative ints, its access is rwm, and an empty type is only a char type. */
  predicate MeansIt(d: Device, kind: Kind) {
    && NumberOf(d.major) < 0 && NumberOf(d.minor) < 0
    && AccessOf(RuleOf(d).access) == {Read, Write, Mknod}
    && (d.kind == Some("") ==> kind.Char?)
  }

  ghost predicate MatchesKind(rule: Rule, kind: Kind) {
    forall req: Request :: req.kind == kind ==> Matches(rule, req)
  }

  /** A rule that has_allow_all takes to cover a kind matches all its requests in the filter exactly in that case. */
  lemma CoveringRuleMatches(d: Device, kind: Kind)
    requires CoversKind(d, kind)
    ensures MatchesKind(RuleOf(d), kind) <==> MeansIt(d, kind)
    ensures Matches(RuleOf(d), Probe(kind)) <==> MeansIt(d, kind)
  {
    assert Probe(kind).kind == kind && Read in Probe(kind).access && Write in Probe(kind).access &&
      Mknod in Probe(kind).access;
    if Matches(RuleOf(d), Probe(kind)) {
      forall req: Request | req.kind == kind ensures Matches(RuleOf(d), req) { ProbeIsWidest(RuleOf(d), req); }
    }
  }

  predicate CoversIndeed(s: seq<Device>, kind: Kind) {
    exists d :: d in s && CoversKind(d, kind) && MeansIt(d, kind)
  }

  /** Only allow rules, among them one for each kind that the filter, too, takes to cover it. */
  predicate CoversPlainly(s: seq<Device>) {
    (forall d :: d in s ==> d.allow) && CoversIndeed(s, Block) && CoversIndeed(s, Char)
  }

  ghost predicate CoveredPlainly(devs: seq<Device>) {
    exists k :: 0 <= k <= |devs| && CoversPlainly(devs[k..])
  }

  /** has_allow_all says yes then, too. */
  lemma PlainlyCovers(s: seq<Device>)
    requires CoversPlainly(s)
    ensures Covers(s)
  {
    var b :| b in s && CoversKind(b, Block) && MeansIt(b, Block);
    var c :| c in s && CoversKind(c, Char) && MeansIt(c, Char);
  }

  lemma CoverAccepts(s: seq<Device>, defaults: seq<Rule>, req: Request)
    requires CoversPlainly(s) && forall r :: r in defaults ==> r.allow
    ensures Allowed(RulesOf(s) + defaults, req) && exists r :: r in RulesOf(s) + defaults && Matches(r, req)
  {
    var rules := RulesOf(s) + defaults;
    assert CoversIndeed(s, req.kind);
    hide Allowed, Matches, CoversKind, MeansIt, MatchesKind, RuleOf;
    var d :| d in s && CoversKind(d, req.kind) && MeansIt(d, req.kind);
    var i :| 0 <= i < |s| && s[i] == d;
    CoveringRuleMatches(d, req.kind);
    ProbeIsWidest(RuleOf(d), req);
    assert rules[i] in rules && Matches(rules[i], req);
    forall r | r in rules ensures r.allow {
      var j :| 0 <= j < |rules| && rules[j] == r;
      if j < |s| {
        assert s[j] in s;
        RuleOfAllow(s[j]);
      }
    }
    AllAllowed(rules, req);
  }

  /**
  When has_allow_all and the filter take the covering rules to mean the same, the compiled filter accepts every request,
  whatever the other rules of the suffix say and whatever stands in front of it.
  */
  lemma CoveredAccepts(devs: seq<Device>, req: Request)
    requires CoveredPlainly(devs)
    ensures CoveredBySuffix(devs)
    ensures Allowed(Policy(devs), req)
    ensures Accepts(devs, req)
  {
    var k :| 0 <= k <= |devs| && CoversPlainly(devs[k..]);
    hide CoversPlainly, Covers, Allowed, Compiled, Run;
    PlainlyCovers(devs[k..]);
    DefaultsAllow();
    CoverAccepts(devs[k..], DefaultRules, req);
    AllowedAppend(RulesOf(devs[..k]), RulesOf(devs[k..]) + DefaultRules, req);
    PolicySplit(devs, k, DefaultRules);
    AcceptsIsAllowed(devs, req);
  }

  /** The filter compiled from the configuration runs to its exit and accepts the request. */
  ghost predicate Accepts(devs: seq<Device>, req: Request) {
    Run(Compiled(devs), ContextOf(req), Start(), |Compiled(devs)|) == Exited(1)
  }

  ghost predicate AcceptsAll(devs: seq<Device>) { forall req :: Accepts(devs, req) }

  lemma AcceptsIsAllowed(devs: seq<Device>, req: Request)
    ensures Accepts(devs, req) <==> Allowed(Policy(devs), req)
  {
    hide Compiled, Allowed, Policy, Run;
    CompiledDecides(devs, req, |Compiled(devs)|);
  }

  lemma PolicySplit(devs: seq<Device>, k: nat, defaults: seq<Rule>)
    requires k <= |devs|
    ensures RulesOf(devs) + defaults == RulesOf(devs[..k]) + (RulesOf(devs[k..]) + defaults)
  {
    assert RulesOf(devs) == RulesOf(devs[..k]) + RulesOf(devs[k..]);
  }

  /** A request whose numbers no rule can name. */
  function Probe(kind: Kind): Request {
    Request(kind, {Read, Write, Mknod}, 0x8000_0000, 0x8000_0000)
  }

  lemma DefaultsMissProbe(kind: Kind)
    ensures forall r :: r in DefaultRules ==> !Matches(r, Probe(kind))
  {
    assert !(Read in AccessOf("m"));
  }

  /** Where the probe is allowed, some suffix of allow rules holds a wildcard rule for its kind. */
  lemma ProbeAllowed(devs: seq<Device>, kind: Kind) returns (k: nat)
    requires forall d :: d in devs ==> Plain(d) && (d.allow || DeniesEverything(d))
    requires Allowed(Policy(devs), Probe(kind))
    ensures k < |devs| && (forall d :: d in devs[k..] ==> d.allow)
    ensures CoversKind(devs[k], kind)
  {
    hide Allowed, Matches, TestsOf, RuleOf, Plain;
    var req, rules := Probe(kind), RulesOf(devs);
    DefaultsMissProbe(kind);
    AllowedAppend(rules, DefaultRules, req);
    k := AllowedBy(rules, req);
    assert devs[k] in devs;
    ProbeMatches(devs[k], kind);
    forall d | d in devs[k..] ensures d.allow {
      var j :| k <= j < |devs| && devs[j] == d;
      assert d in devs;
      RuleOfAllow(d);
      if !d.allow {
        RuleOfAllow(devs[k]);
        DenyAllMatches(d, req);
      }
    }
  }

  lemma RuleOfAllow(d: Device)
    ensures RuleOf(d).allow == d.allow
  {
  }

  lemma DenyAllMatches(d: Device, req: Request)
    requires DeniesEverything(d)
    ensures Matches(RuleOf(d), req)
  {
    TestsDecide(RuleOf(d), req);
  }

  lemma ProbeMatches(d: Device, kind: Kind)
    requires Plain(d) && Matches(RuleOf(d), Probe(kind))
    ensures CoversKind(d, kind)
  {
  }

  // ------------------------------------------------------- the exact condition

  function WidestNumber(number: int32): uint32 { if number < 0 then 0x8000_0000 else number }

  /**
  The request a rule matches that is hardest for other rules: all its access, its own numbers, and an unnamed number for
  a wildcard.
  */
  function Widest(rule: Rule, kind: Kind): Request {
    Request(kind, AccessOf(rule.access), WidestNumber(rule.major), WidestNumber(rule.minor))
  }

  /** No rule that matches this kind denies its own widest request. */
  predicate DeniesNothing(rules: seq<Rule>, kind: Kind) {
    forall r :: r in rules && !r.allow && Matches(r, Widest(r, kind)) ==> Allowed(rules, Widest(r, kind))
  }

  /** Finitely many requests: the two probes, and the widest request of every deny rule. */
  predicate PassesProbes(rules: seq<Rule>) {
    forall kind :: Allowed(rules, Probe(kind)) && DeniesNothing(rules, kind)
  }

  /** A rule that matches the probe matches every request of its kind. */
  lemma ProbeIsWidest(rule: Rule, req: Request)
    requires Matches(rule, Probe(req.kind))
    ensures Matches(rule, req)
  {
    forall v | v in req.access ensures v in AccessOf(rule.access) {
      match v { case Read => case Write => case Mknod => }
      assert v in Probe(req.kind).access;
    }
  }

  /** What matches a rule's widest request matches everything the rule matches. */
  lemma WidestIsWidest(rule: Rule, other: Rule, req: Request)
    requires Matches(rule, req) && Matches(other, Widest(rule, req.kind))
    ensures Matches(other, req)
  {
  }

  ghost predicate AllowsAll(rules: seq<Rule>) { forall req :: Allowed(rules, req) }

  /** The finite test decides: all requests are allowed exactly when it passes. */
  lemma AllAllowedIff(rules: seq<Rule>)
    ensures AllowsAll(rules) <==> PassesProbes(rules)
  {
    hide Allowed, Matches, Probe, Widest;
    if PassesProbes(rules) {
      forall req ensures Allowed(rules, req) { ProbesDecide(rules, req); }
    }
    if AllowsAll(rules) {
      forall kind ensures Allowed(rules, Probe(kind)) && DeniesNothing(rules, kind) {
        forall r | r in rules && !r.allow ensures Allowed(rules, Widest(r, kind)) {}
      }
    }
  }

  /**
  The last rule that matches a request is an allow rule: a deny rule would be overridden on its widest request, and so
  here.
  */
  lemma ProbesDecide(rules: seq<Rule>, req: Request)
    requires PassesProbes(rules)
    ensures Allowed(rules, req)
  {
    hide Allowed, Matches, Probe, Widest;
    var p := AllowedBy(rules, Probe(req.kind));
    ProbeIsWidest(rules[p], req);
    var i := LastMatch(rules, req, p);
    if !rules[i].allow {
      SelfWidest(rules[i], req);
      var j := AllowedBy(rules, Widest(rules[i], req.kind));
      WidestIsWidest(rules[i], rules[j], req);
    }
    AllowedMeans(rules, req);
  }

  lemma AllowedBy(rules: seq<Rule>, req: Request) returns (p: nat)
    requires Allowed(rules, req)
    ensures p < |rules| && Matches(rules[p], req) && rules[p].allow &&
      forall j :: p < j < |rules| ==> !Matches(rules[j], req)
  {
    hide Allowed, Matches;
    AllowedMeans(rules, req);
    p :| 0 <= p < |rules| && Matches(rules[p], req) && rules[p].allow &&
      forall j :: p < j < |rules| ==> !Matches(rules[j], req);
  }

  lemma SelfWidest(rule: Rule, req: Request)
    requires Matches(rule, req)
    ensures Matches(rule, Widest(rule, req.kind))
  {
  }

  lemma {:induction false} LastMatch(rules: seq<Rule>, req: Request, p: nat) returns (i: nat)
    requires p < |rules| && Matches(rules[p], req)
    ensures i < |rules| && Matches(rules[i], req) && forall j :: i < j < |rules| ==> !Matches(rules[j], req)
    decreases |rules| - p
  {
    if exists j :: p < j < |rules| && Matches(rules[j], req) {
      var j :| p < j < |rules| && Matches(rules[j], req);
      i := LastMatch(rules, req, j);
    } else {
      i := p;
    }
  }

  /** For every configuration: the compiled filter accepts every request exactly when the finite test passes. */
  lemma AllowAllIsExact(devs: seq<Device>)
    ensures AcceptsAll(devs) <==> PassesProbes(Policy(devs))
  {
    AllAllowedIff(Policy(devs));
    hide PassesProbes, Accepts, Allowed, Policy;
    forall req ensures Accepts(devs, req) == Allowed(Policy(devs), req) { AcceptsIsAllowed(devs, req); }
  }

  /**
  For plain rules whose deny rules deny everything, has_allow_all says yes
  exactly when the compiled filter accepts every request.
  */
  lemma PlainAgrees(devs: seq<Device>)
    requires forall d :: d in devs ==> Plain(d) && (d.allow || DeniesEverything(d))
    ensures CoveredBySuffix(devs) <==> AcceptsAll(devs)
  {
    if CoveredBySuffix(devs) {
      var k :| 0 <= k <= |devs| && Covers(devs[k..]);
      assert forall d :: d in devs[k..] ==> d in devs;
      PlainCovers(devs[k..]);
      forall req ensures Accepts(devs, req) { CoveredAccepts(devs, req); }
    }
    if AcceptsAll(devs) {
      AcceptsIsAllowed(devs, Probe(Block));
      AcceptsIsAllowed(devs, Probe(Char));
      assert Accepts(devs, Probe(Block)) && Accepts(devs, Probe(Char));
      ProbesCover(devs);
    }
  }

  lemma PlainMeansIt(d: Device, kind: Kind)
    requires Plain(d) && CoversKind(d, kind)
    ensures MeansIt(d, kind)
  {
  }

  lemma PlainCovers(s: seq<Device>)
    requires Covers(s) && forall d :: d in s ==> Plain(d)
    ensures CoversPlainly(s)
  {
    hide Plain, MeansIt, Wild, AnyKind;
    forall d, kind | d in s && CoversKind(d, kind) ensures CoversIndeed(s, kind) { PlainMeansIt(d, kind); }
    var b :| b in s && CoversKind(b, Block);
    var c :| c in s && CoversKind(c, Char);
  }

  lemma ProbesCover(devs: seq<Device>)
    requires forall d :: d in devs ==> Plain(d) && (d.allow || DeniesEverything(d))
    requires Allowed(Policy(devs), Probe(Block)) && Allowed(Policy(devs), Probe(Char))
    ensures CoveredBySuffix(devs)
  {
    var b := ProbeAllowed(devs, Block);
    var c := ProbeAllowed(devs, Char);
    var k := if b < c then b else c;
    assert devs[b] in devs[k..] by { assert devs[k..][b - k] == devs[b]; }
    assert devs[c] in devs[k..] by { assert devs[k..][c - k] == devs[c]; }
    assert Covers(devs[k..]);
  }

  /** An explicit 0 is a wildcard to has_allow_all and a number to the filter. */
  lemma ExplicitZeroDisagrees()
    ensures var devs := [Device(None, Some("rwm"), Some(0), Some(0), true)];
            CoveredBySuffix(devs) && !Allowed(Policy(devs), Probe(Block))
  {
    var d := Device(None, Some("rwm"), Some(0), Some(0), true);
    assert [d][0..] == [d] && d in [d] && Covers([d][0..]);
    DefaultsMissProbe(Block);
    AllowedAppend(RulesOf([d]), DefaultRules, Probe(Block));
  }

  /** has_allow_all does not look at the access letters. */
  lemma PartialAccessDisagrees()
    ensures var devs := [Device(None, Some("rw"), None, None, true)];
            CoveredBySuffix(devs) && !Allowed(Policy(devs), Probe(Block))
  {
    var d := Device(None, Some("rw"), None, None, true);
    assert [d][0..] == [d] && d in [d] && Covers([d][0..]);
    DefaultsMissProbe(Block);
    AllowedAppend(RulesOf([d]), DefaultRules, Probe(Block));
    assert Mknod in Probe(Block).access && Mknod !in AccessOf("rw");
  }

  /** An empty type string covers both kinds to has_allow_all and is a char device to the filter. */
  lemma EmptyTypeDisagrees()
    ensures var devs := [Device(Some(""), Some("rwm"), None, None, true)];
            CoveredBySuffix(devs) && !Allowed(Policy(devs), Probe(Block))
  {
    var d := Device(Some(""), Some("rwm"), None, None, true);
    assert [d][0..] == [d] && d in [d] && Covers([d][0..]);
    DefaultsMissProbe(Block);
    AllowedAppend(RulesOf([d]), DefaultRules, Probe(Block));
  }

  /**
  A negative number that does not fit an int is a wildcard to has_allow_all and, cut to 32 bits, a number to the filter.
  */
  lemma WideNumberDisagrees()
    ensures var devs := [Device(None, Some("rwm"), Some(-0x1_0000_0000 + 5), None, true)];
            CoveredBySuffix(devs) && !Allowed(Policy(devs), Probe(Block))
  {
    var d := Device(None, Some("rwm"), Some(-0x1_0000_0000 + 5), None, true);
    assert [d][0..] == [d] && d in [d] && Covers([d][0..]);
    assert RuleOf(d).major == 5;
    DefaultsMissProbe(Block);
    AllowedAppend(RulesOf([d]), DefaultRules, Probe(Block));
  }
}
