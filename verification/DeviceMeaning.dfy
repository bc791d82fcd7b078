/** What a configuration means to a container, on the fields of its device entries and on device numbers. */
module DeviceMeaning {
  import opened Common
  import opened Bpf
  import opened DevicePolicy
  import opened DeviceFilter
  import opened DeviceCompiler

  /** An absent number matches every device; a number that is negative as a C int does, too. */
  predicate NumberAsked(n: Option<int>, requested: uint32) {
    n.Some? ==> n.value % 0x1_0000_0000 >= 0x8000_0000 || n.value % 0x1_0000_0000 == requested
  }

  /** Only the first letter counts: a for both kinds, b for block devices, anything else for char devices. */
  predicate KindAsked(kind: Option<string>, requested: Kind) {
    kind.Some? ==>
      "a" <= kind.value || (requested.Block? && "b" <= kind.value) || (requested.Char? && !("b" <= kind.value))
  }

  predicate AccessAsked(access: Option<string>, requested: set<Access>) {
    var letters := if access.Some? then access.value else "";
    && (Read in requested ==> 'r' in letters)
    && (Write in requested ==> 'w' in letters)
    && (Mknod in requested ==> 'm' in letters)
  }

  predicate EntryMatches(d: Device, req: Request) {
    && KindAsked(d.kind, req.kind) && AccessAsked(d.access, req.access)
    && NumberAsked(d.major, req.major) && NumberAsked(d.minor, req.minor)
  }

  /** The last matching entry allows the request. */
  predicate LastEntryAllows(devs: seq<Device>, req: Request) {
    exists i :: 0 <= i < |devs| && EntryMatches(devs[i], req) && devs[i].allow &&
                forall j :: i < j < |devs| ==> !EntryMatches(devs[j], req)
  }

  /**
  Every container may make any device node, and use null, zero, full, random, urandom, tty, console, ptmx and the tun
  device, and all devices of pseudo terminals.
  */
  predicate DefaultDevice(req: Request) {
    || req.access <= {Mknod}
    || (req.kind.Char? &&
        (req.major == 136
         || (req.major, req.minor) in {(1, 3), (1, 5), (1, 7), (1, 8), (1, 9), (5, 0), (5, 1), (5, 2), (10, 200)}))
  }

  lemma NumberMeans(n: Option<int>, requested: uint32)
    ensures NumberMatches(NumberOf(n), requested) <==> NumberAsked(n, requested)
  {
    if n.Some? {
      var r := ToInt(n.value);
      assert (n.value - r) % 0x1_0000_0000 == 0;
    }
  }

  lemma AccessMeans(letters: string, requested: set<Access>)
    ensures requested <= AccessOf(letters) <==> AccessAsked(Some(letters), requested)
  {
    if AccessAsked(Some(letters), requested) {
      forall a | a in requested ensures a in AccessOf(letters) { match a case Read => case Write => case Mknod => }
    }
  }

  lemma KindMeans(kind: Option<string>, req: Request)
    ensures KindMatches(KindOf(kind), req) <==> KindAsked(kind, req.kind)
  {
  }

  lemma EntryMeans(d: Device, req: Request)
    ensures Matches(RuleOf(d), req) <==> EntryMatches(d, req)
    ensures RuleOf(d).allow == d.allow
  {
    hide KindMatches, KindAsked, KindOf, AccessOf, NumberMatches, NumberAsked, NumberOf;
    NumberMeans(d.major, req.major);
    NumberMeans(d.minor, req.minor);
    KindMeans(d.kind, req);
    AccessMeans(RuleOf(d).access, req.access);
  }

  /** A full rule for one device, or for all minors. */
  lemma FullMeans(major: int32, minor: int32, req: Request)
    ensures Matches(Rule('c', "rwm", major, minor, true), req) <==>
      req.kind.Char? && NumberMatches(major, req.major) && NumberMatches(minor, req.minor)
  {
    forall a | a in req.access ensures a in AccessOf("rwm") { match a case Read => case Write => case Mknod => }
  }

  lemma NodeMeans(kind: char, req: Request)
    ensures Matches(Rule(kind, "m", -1, -1, true), req) <==> KindMatches(kind, req) && req.access <= {Mknod}
  {
    AccessMeans("m", req.access);
  }

  predicate SomeDefault(req: Request) { exists r :: r in DefaultRules && Matches(r, req) }

  lemma DefaultsAre(req: Request)
    ensures SomeDefault(req) <==> DefaultDevice(req)
  {
    hide Matches;
    if SomeDefault(req) {
      var k :| 0 <= k < |DefaultRules| && Matches(DefaultRules[k], req);
      OneDefault(k, req);
    }
    if DefaultDevice(req) {
      var k := DefaultFor(req);
      OneDefault(k, req);
      assert DefaultRules[k] in DefaultRules;
    }
  }

  /** What each entry of the table is for. */
  predicate IsFor(k: nat, req: Request) {
    if k < 2 then (if k == 0 then req.kind.Char? else req.kind.Block?) && req.access <= {Mknod}
    else req.kind.Char? && k < 12 &&
         if k == 9 then req.major == 136
         else (req.major, req.minor)
              == [(1, 3), (1, 8), (1, 7), (5, 0), (1, 5), (1, 9), (5, 1), (0, 0), (5, 2), (10, 200)][k - 2]
  }

  lemma OneDefault(k: nat, req: Request)
    requires k < |DefaultRules|
    ensures Matches(DefaultRules[k], req) <==> IsFor(k, req)
    ensures IsFor(k, req) ==> DefaultDevice(req)
  {
    var r := DefaultRules[k];
    if k < 2 {
      NodeMeans(r.kind, req);
    } else {
      FullMeans(r.major, r.minor, req);
    }
    hide Matches;
  }

  lemma DefaultFor(req: Request) returns (k: nat)
    requires DefaultDevice(req)
    ensures k < |DefaultRules| && IsFor(k, req)
  {
    if req.access <= {Mknod} {
      k := if req.kind.Char? then 0 else 1;
    } else if req.major == 136 {
      k := 9;
    } else if req.major == 10 {
      k := 11;
    } else if req.major == 5 {
      k := if req.minor == 0 then 5 else if req.minor == 1 then 8 else 10;
    } else {
      k := if req.minor == 3 then 2 else if req.minor == 8 then 3 else if req.minor == 7 then 4
        else if req.minor == 5 then 6 else 7;
    }
  }

  /** What the kernel passes for a request: struct bpf_cgroup_dev_ctx, with its numbers for accesses and kinds. */
  function KernelContext(req: Request): Ctx {
    var access := (if Mknod in req.access then 1 else 0) + (if Read in req.access then 2 else 0) +
                  (if Write in req.access then 4 else 0);
    Ctx(access * 65536 + (if req.kind.Block? then 1 else 2), req.major, req.minor)
  }

  lemma SameContext(req: Request)
    ensures ContextOf(req) == KernelContext(req)
  {
  }

  /**
  End to end, for every configuration and request: the compiled program accepts exactly the default devices and what the
  last matching entry allows.
  */
  lemma CompiledMeans(devs: seq<Device>, req: Request)
    ensures DecodeAll(EncodeAll(Compiled(devs))) == Some(Compiled(devs))
    ensures Run(Compiled(devs), KernelContext(req), Start(), |Compiled(devs)|)
            == Exited(if DefaultDevice(req) || LastEntryAllows(devs, req) then 1 else 0)
  {
    SameContext(req);
    hide Run, DecodeAll, EncodeAll, KernelContext, Compiled, ContextOf, Allowed, Matches, EntryMatches, RuleOf,
      DefaultDevice;
    CompiledDecides(devs, req, |Compiled(devs)|);
    DefaultsAllow();
    DefaultsAre(req);
    AllAllowed(DefaultRules, req);
    AllowedAppend(RulesOf(devs), DefaultRules, req);
    AllowedMeans(RulesOf(devs), req);
    forall i | 0 <= i < |devs|
      ensures Matches(RulesOf(devs)[i], req) == EntryMatches(devs[i], req) && RulesOf(devs)[i].allow == devs[i].allow
    {
      EntryMeans(devs[i], req);
    }
    SameLast(devs, RulesOf(devs), req);
  }

  lemma SameLast(devs: seq<Device>, rules: seq<Rule>, req: Request)
    requires |rules| == |devs|
    requires forall i :: 0 <= i < |devs| ==>
      Matches(rules[i], req) == EntryMatches(devs[i], req) && rules[i].allow == devs[i].allow
    ensures LastEntryAllows(devs, req) <==>
            exists i :: 0 <= i < |rules| && Matches(rules[i], req) && rules[i].allow
                        && forall j :: i < j < |rules| ==> !Matches(rules[j], req)
  {
    hide Matches, EntryMatches;
    if exists i :: 0 <= i < |rules| && Matches(rules[i], req) && rules[i].allow
                   && forall j :: i < j < |rules| ==> !Matches(rules[j], req) {
      var i :| 0 <= i < |rules| && Matches(rules[i], req) && rules[i].allow
        && forall j :: i < j < |rules| ==> !Matches(rules[j], req);
      assert EntryMatches(devs[i], req);
    }
    if LastEntryAllows(devs, req) {
      var i :| 0 <= i < |devs| && EntryMatches(devs[i], req) && devs[i].allow &&
        forall j :: i < j < |devs| ==> !EntryMatches(devs[j], req);
      assert Matches(rules[i], req) && rules[i].allow;
    }
  }
}
