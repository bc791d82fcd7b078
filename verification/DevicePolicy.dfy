/**
What a list of OCI device rules means, stated without any reference to eBPF:
the last matching rule decides, and a request no rule matches is denied.
*/
module DevicePolicy {
  import opened Common

  datatype Kind = Block | Char

  datatype Access = Read | Write | Mknod

  type uint32 = x: int | 0 <= x < 0x1_0000_0000

  datatype Request = Request(kind: Kind, access: set<Access>, major: uint32, minor: uint32)

  /** One rule as bpf_program_append_dev receives it. A negative number is a wildcard. */
  datatype Rule = Rule(kind: char, access: string, major: int32, minor: int32, allow: bool)

  /** The letters r, w and m of an access string; other letters mean nothing. */
  function AccessOf(s: string): set<Access> {
    (if 'r' in s then {Read} else {}) + (if 'w' in s then {Write} else {}) + (if 'm' in s then {Mknod} else {})
  }

  predicate KindMatches(kind: char, req: Request) {
    kind == 'a' || (kind == 'b' <==> req.kind.Block?)
  }

  predicate NumberMatches(number: int32, requested: uint32) {
    number < 0 || number == requested
  }

  predicate Matches(rule: Rule, req: Request) {
    && KindMatches(rule.kind, req)
    && req.access <= AccessOf(rule.access)
    && NumberMatches(rule.major, req.major)
    && NumberMatches(rule.minor, req.minor)
  }

  /** The last matching rule decides; without one the answer is no. */
  predicate Allowed(rules: seq<Rule>, req: Request) {
    if rules == [] then false
    else if Matches(rules[|rules| - 1], req) then rules[|rules| - 1].allow
    else Allowed(rules[..|rules| - 1], req)
  }

  /** Allowed read as a statement about positions: an allow rule matches and no later rule does. */
  lemma {:induction false} AllowedMeans(rules: seq<Rule>, req: Request)
    ensures Allowed(rules, req) <==>
            exists i :: 0 <= i < |rules| && Matches(rules[i], req) && rules[i].allow
                        && forall j :: i < j < |rules| ==> !Matches(rules[j], req)
  {
    if rules != [] && !Matches(rules[|rules| - 1], req) {
      var init := rules[..|rules| - 1];
      AllowedMeans(init, req);
      if Allowed(rules, req) {
        var i :| 0 <= i < |init| && Matches(init[i], req) && init[i].allow &&
          forall j :: i < j < |init| ==> !Matches(init[j], req);
        assert Matches(rules[i], req) && forall j :: i < j < |rules| ==> !Matches(rules[j], req);
      } else {
        forall i | 0 <= i < |rules| && Matches(rules[i], req) && rules[i].allow
          ensures exists j :: i < j < |rules| && Matches(rules[j], req)
        {
          assert i < |init| && init[i] == rules[i];
          var j :| i < j < |init| && Matches(init[j], req);
          assert Matches(rules[j], req);
        }
      }
    }
  }

  /** A later rule list overrides an earlier one wherever it has a match. */
  lemma {:induction false} AllowedAppend(a: seq<Rule>, b: seq<Rule>, req: Request)
    ensures Allowed(a + b, req) == if exists r :: r in b && Matches(r, req) then Allowed(b, req) else Allowed(a, req)
  {
    if b == [] {
      assert a + b == a;
    } else {
      var n := |b| - 1;
      assert (a + b)[..|a + b| - 1] == a + b[..n];
      AllowedAppend(a, b[..n], req);
      assert b == b[..n] + [b[n]];
    }
  }

  // --------------------------------------------------- rules from the config

  /** A device entry of the OCI configuration. Absent numbers and types are None. */
  datatype Device = Device(kind: Option<string>, access: Option<string>, major: Option<int>, minor: Option<int>,
    allow: bool)

  function NumberOf(n: Option<int>): int32 {
    if n.Some? then ToInt(n.value) else -1
  }

  /** The first character of the type string; a C string that is empty starts with NUL. */
  function KindOf(kind: Option<string>): char {
    if kind.None? then 'a' else if kind.value == "" then '\0' else kind.value[0]
  }

  function RuleOf(d: Device): Rule {
    Rule(KindOf(d.kind), if d.access.Some? then d.access.value else "", NumberOf(d.major), NumberOf(d.minor), d.allow)
  }

  function RulesOf(devs: seq<Device>): (rules: seq<Rule>)
    ensures |rules| == |devs|
    ensures forall i :: 0 <= i < |devs| ==> rules[i] == RuleOf(devs[i])
  {
    seq(|devs|, i requires 0 <= i < |devs| => RuleOf(devs[i]))
  }

  /** The devices every container gets. */
  const DefaultRules: seq<Rule> := [
    Rule('c', "m", -1, -1, true),
    Rule('b', "m", -1, -1, true),
    Rule('c', "rwm", 1, 3, true),
    Rule('c', "rwm", 1, 8, true),
    Rule('c', "rwm", 1, 7, true),
    Rule('c', "rwm", 5, 0, true),
    Rule('c', "rwm", 1, 5, true),
    Rule('c', "rwm", 1, 9, true),
    Rule('c', "rwm", 5, 1, true),
    Rule('c', "rwm", 136, -1, true),
    Rule('c', "rwm", 5, 2, true),
    Rule('c', "rwm", 10, 200, true)
  ]

  /** The end marker of the table, which the loop in create_dev_bpf does not skip. */
  const EndMarker: Rule := Rule('\0', "", 0, 0, true)

  /** What the configuration asks for: its own rules first, then the default devices on top. */
  function Policy(devs: seq<Device>): seq<Rule> {
    RulesOf(devs) + DefaultRules
  }

  lemma DefaultsAllow()
    ensures forall r :: r in DefaultRules ==> r.allow
    ensures Rule('c', "m", -1, -1, true) in DefaultRules
  {
    assert DefaultRules[0] == Rule('c', "m", -1, -1, true);
  }

  /** The end marker decides nothing: whatever it matches, the first default rule already allows. */
  lemma EndMarkerIsHarmless(devs: seq<Device>, req: Request)
    ensures Allowed(Policy(devs) + [EndMarker], req) == Allowed(Policy(devs), req)
  {
    var rules := Policy(devs);
    assert (rules + [EndMarker])[..|rules|] == rules;
    if Matches(EndMarker, req) {
      MarkedIsAllowed(RulesOf(devs), DefaultRules, req);
    }
  }

  lemma MarkedIsAllowed(user: seq<Rule>, defaults: seq<Rule>, req: Request)
    requires defaults == DefaultRules && Matches(EndMarker, req)
    ensures Allowed(user + defaults, req)
  {
    DefaultsAllow();
    var first := Rule('c', "m", -1, -1, true);
    assert first in defaults && Matches(first, req);
    AllAllowed(defaults, req);
    AllowedAppend(user, defaults, req);
  }

  /** Among allow rules one match is enough. */
  lemma {:induction false} AllAllowed(rules: seq<Rule>, req: Request)
    requires forall r :: r in rules ==> r.allow
    ensures Allowed(rules, req) <==> exists r :: r in rules && Matches(r, req)
  {
    if rules != [] {
      AllAllowed(rules[..|rules| - 1], req);
      assert rules == rules[..|rules| - 1] + [rules[|rules| - 1]];
    }
  }
}
