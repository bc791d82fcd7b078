/**
The code that emits the device filter: a growing byte buffer, the emission of one
rule with hand-computed jump offsets, and the two loops over the rule tables.
Every method is specified by the instructions of module DeviceFilter.
*/
module DeviceCompiler {
  import opened Common
  import opened Bpf
  import opened DevicePolicy
  import opened DeviceFilter

  /** Sets one bit of a small mask. */
  function SetBit(mask: nat, bit: nat): nat
    requires bit > 0
  {
    if mask / bit % 2 == 1 then mask else mask + bit
  }

  /** A test that may be left out. */
  function Optional(on: bool, t: Test): seq<Test> {
    if on then [t] else []
  }

  lemma OptionalCode(on: bool, t: Test, rest: seq<Test>)
    ensures TestsCode(Optional(on, t) + rest) == (if on then t.Code(SizeOf(rest) + 2) else []) + TestsCode(rest)
    ensures SizeOf(Optional(on, t) + rest) == (if on then t.Size() else 0) + SizeOf(rest)
  {
    assert Optional(on, t) + rest == if on then [t] + rest else rest;
    assert on ==> ([t] + rest)[1..] == rest;
  }

  class BpfProgram {
    var capacity: nat
    var used: nat
    var hasWildcard: bool
    var program: seq<byte>
    ghost var code: seq<Insn>

    /** The used bytes fit the buffer and are the encoding of the instructions emitted so far. */
    ghost predicate Valid()
      reads this
    {
      used <= capacity == |program| && program[..used] == EncodeAll(code)
    }

    constructor (size: nat)
      ensures Valid() && code == [] && capacity == size && !hasWildcard
    {
      capacity, used, hasWildcard, code := size, 0, false, [];
      program := seq(size, _ => 0);
    }

    /** Earlier bytes stay, the data follows them, and the buffer never overflows. */
    method Append(data: seq<byte>)
      requires used <= capacity == |program|
      modifies this
      ensures used <= capacity == |program|
      ensures program[..used] == old(program[..used]) + data
      ensures hasWildcard == old(hasWildcard) && code == old(code)
    {
      if capacity <= used + |data| {
        capacity := capacity + |data| * 2;
        program := program + seq(capacity - |program|, _ => 0);
      }
      program := program[..used] + data + program[used + |data|..];
      used := used + |data|;
    }

    method Emit(insns: seq<Insn>)
      requires Valid()
      modifies this
      ensures Valid()
      ensures code == old(code) + insns && hasWildcard == old(hasWildcard)
    {
      Append(EncodeAll(insns));
      EncodeAllAppend(code, insns);
      code := code + insns;
    }

    method InitDev()
      requires Valid()
      modifies this
      ensures Valid()
      ensures code == old(code) + Prologue && hasWildcard == old(hasWildcard)
    {
      Emit(Prologue);
    }

    static method AccessMask(access: string) returns (mask: nat)
      ensures mask == AccessBits(AccessOf(access))
    {
      mask := 0;
      for i := 0 to |access|
        invariant mask == AccessBits(AccessOf(access[..i]))
      {
        assert access[..i + 1] == access[..i] + [access[i]];
        match access[i]
        case 'r' => mask := SetBit(mask, ACC_READ);
        case 'w' => mask := SetBit(mask, ACC_WRITE);
        case 'm' => mask := SetBit(mask, ACC_MKNOD);
        case _ =>
      }
      assert access[..|access|] == access;
    }

    /** Emits one test that jumps over what is left of the block, and counts it off. */
    method EmitTest(on: bool, t: Test, count: nat, ghost rest: seq<Test>) returns (left: nat)
      requires Valid() && count == SizeOf(Optional(on, t) + rest) + 1
      modifies this
      ensures Valid() && hasWildcard == old(hasWildcard)
      ensures left == SizeOf(rest) + 1
      ensures code + TestsCode(rest) == old(code) + TestsCode(Optional(on, t) + rest)
    {
      OptionalCode(on, t, rest);
      hide EncodeAll, TestsCode, SizeOf;
      left := count;
      if on {
        match t {
          case KindTest(bpfType) => Emit([JneImm(2, bpfType, count)]);
          case AccessTest(mask) => Emit([Mov32Reg(1, 3), And32Imm(1, mask), JneReg(1, 3, count - 2)]);
          case MajorTest(major) => Emit([JneImm(4, major, count)]);
          case MinorTest(minor) => Emit([JneImm(5, minor, count)]);
        }
        left := count - t.Size();
      }
    }

    method EmitNumberTests(major: int32, minor: int32, count: nat, ghost rest3: seq<Test>)
      requires Valid() && rest3 == Optional(minor >= 0, MinorTest(minor)) + []
      requires count == SizeOf(Optional(major >= 0, MajorTest(major)) + rest3) + 1
      modifies this
      ensures Valid() && hasWildcard == old(hasWildcard)
      ensures code == old(code) + TestsCode(Optional(major >= 0, MajorTest(major)) + rest3)
    {
      assert TestsCode([]) == [];
      hide *;
      var left := EmitTest(major >= 0, MajorTest(major), count, rest3);
      left := EmitTest(minor >= 0, MinorTest(minor), left, []);
    }

    /** Emits the tests of a rule; `count` is the number of instructions up to the end of the block, less one. */
    method EmitTests(kind: char, mask: nat, major: int32, minor: int32, ghost rule: Rule)
      requires Valid() && rule.kind == kind && rule.major == major && rule.minor == minor &&
        mask == AccessBits(AccessOf(rule.access))
      modifies this
      ensures Valid() && hasWildcard == old(hasWildcard)
      ensures code == old(code) + TestsCode(TestsOf(rule))
    {
      var bpfType := if kind == 'b' then DEV_BLOCK else DEV_CHAR;
      var hasType, hasMajor, hasMinor := kind != 'a', major >= 0, minor >= 0;
      var hasAccess := mask != ACC_READ + ACC_WRITE + ACC_MKNOD;
      var count := (if hasType then 1 else 0) + (if hasAccess then 3 else 0) + (if hasMajor then 1 else 0) +
        (if hasMinor then 1 else 0) + 1;
      ghost var rest1, rest2, rest3 := RuleTests(rule);
      hide *;
      count := EmitTest(hasType, KindTest(bpfType), count, rest1);
      count := EmitTest(hasAccess, AccessTest(mask), count, rest2);
      EmitNumberTests(major, minor, count, rest3);
    }

    /** Appends the block of one rule, unless a catch-all rule has already closed the program. */
    method AppendDev(access: Option<string>, kind: char, major: int32, minor: int32, accept: bool)
      requires Valid()
      modifies this
      ensures Valid()
      ensures var rule := Rule(kind, if access.Some? then access.value else "", major, minor, accept);
              if old(hasWildcard) then hasWildcard && code == old(code)
              else hasWildcard == (TestsOf(rule) == []) && code == old(code) + BlockOf(rule)
    {
      if hasWildcard {
        return;
      }
      var letters := if access.Some? then access.value else "";
      var mask := AccessMask(letters);
      ghost var rule := Rule(kind, letters, major, minor, accept);
      CatchAll(rule);
      Assoc(code, TestsCode(TestsOf(rule)), Answer(accept));
      hide EncodeAll, TestsOf, TestsCode, AccessOf;
      EmitTests(kind, mask, major, minor, rule);
      if kind == 'a' && mask == ACC_READ + ACC_WRITE + ACC_MKNOD && major < 0 && minor < 0 {
        hasWildcard := true;
      }
      Emit(Answer(accept));
    }

    /** Without a catch-all rule the program ends by refusing. */
    method CompleteDev()
      requires Valid()
      modifies this
      ensures Valid() && hasWildcard == old(hasWildcard)
      ensures code == old(code) + if hasWildcard then [] else Answer(false)
    {
      if !hasWildcard {
        Emit(Answer(false));
      }
    }
  }

  lemma FullMask(s: set<Access>)
    ensures AccessBits(s) == ACC_READ + ACC_WRITE + ACC_MKNOD <==> s == {Read, Write, Mknod}
  {
    if AccessBits(s) == ACC_READ + ACC_WRITE + ACC_MKNOD {
      forall v | v in s ensures v in {Read, Write, Mknod} { match v case Read => case Write => case Mknod => }
    }
  }

  lemma CatchAll(rule: Rule)
    ensures TestsOf(rule) == [] <==>
            rule.kind == 'a' && AccessBits(AccessOf(rule.access)) == 7 && rule.major < 0 && rule.minor < 0
  {
    FullMask(AccessOf(rule.access));
  }

  /** The tests of a rule, one optional test at a time, and their total size. */
  lemma RuleTests(rule: Rule) returns (rest1: seq<Test>, rest2: seq<Test>, rest3: seq<Test>)
    ensures var mask := AccessBits(AccessOf(rule.access));
            && rest3 == Optional(rule.minor >= 0, MinorTest(rule.minor)) + []
            && rest2 == Optional(rule.major >= 0, MajorTest(rule.major)) + rest3
            && rest1 == Optional(mask != 7, AccessTest(mask)) + rest2
            && TestsOf(rule) == Optional(rule.kind != 'a',
              KindTest(if rule.kind == 'b' then DEV_BLOCK else DEV_CHAR)) + rest1
            && SizeOf(TestsOf(rule)) == (if rule.kind != 'a' then 1 else 0) + (if mask != 7 then 3 else 0)
                                        + (if rule.major >= 0 then 1 else 0) + (if rule.minor >= 0 then 1 else 0)
  {
    hide AccessOf, AccessBits, TestsOf, Optional, SizeOf, Test.Size;
    var mask := AccessBits(AccessOf(rule.access));
    var kind := KindTest(if rule.kind == 'b' then DEV_BLOCK else DEV_CHAR);
    rest3 := Optional(rule.minor >= 0, MinorTest(rule.minor)) + [];
    rest2 := Optional(rule.major >= 0, MajorTest(rule.major)) + rest3;
    rest1 := Optional(mask != 7, AccessTest(mask)) + rest2;
    AsOptional(rule);
    Nested(Optional(rule.kind != 'a', kind), Optional(mask != 7, AccessTest(mask)),
           Optional(rule.major >= 0, MajorTest(rule.major)), Optional(rule.minor >= 0, MinorTest(rule.minor)));
    OptionalSize(rule.minor >= 0, MinorTest(rule.minor), []);
    OptionalSize(rule.major >= 0, MajorTest(rule.major), rest3);
    OptionalSize(mask != 7, AccessTest(mask), rest2);
    OptionalSize(rule.kind != 'a', kind, rest1);
  }

  lemma AsOptional(rule: Rule)
    ensures var mask := AccessBits(AccessOf(rule.access));
            TestsOf(rule) == Optional(rule.kind != 'a', KindTest(if rule.kind == 'b' then DEV_BLOCK else DEV_CHAR))
                             + Optional(mask != 7, AccessTest(mask)) + Optional(rule.major >= 0, MajorTest(rule.major))
                             + Optional(rule.minor >= 0, MinorTest(rule.minor))
  {
    FullMask(AccessOf(rule.access));
    hide AccessOf, AccessBits;
  }

  lemma Nested<T>(a: seq<T>, b: seq<T>, c: seq<T>, d: seq<T>)
    ensures a + b + c + d == a + (b + (c + (d + [])))
  {
  }

  lemma OptionalSize(on: bool, t: Test, rest: seq<Test>)
    ensures SizeOf(Optional(on, t) + rest) == SizeOf(rest) + (if !on then 0 else if t.AccessTest? then 3 else 1)
    ensures SizeOf([]) == 0
  {
    assert on ==> (Optional(on, t) + rest)[1..] == rest;
    assert !on ==> Optional(on, t) + rest == rest;
  }

  /** The default table with its end marker, as the loop in create_dev_bpf walks it. */
  function DefaultTable(): (table: seq<Rule>)
    ensures forall r :: r in table ==> r.allow
  {
    DefaultsAllow();
    DefaultRules + [EndMarker]
  }

  /** All rules in the order of their priority, lowest first. */
  function AllRules(devs: seq<Device>): seq<Rule> {
    RulesOf(devs) + DefaultTable()
  }

  /** The program compiled from a configuration, as instructions. */
  function Compiled(devs: seq<Device>): seq<Insn> {
    FilterOf(AllRules(devs))
  }

  /** What is still to be emitted for the rules, unless the program is closed. */
  function Remaining(rules: seq<Rule>, closed: bool): seq<Insn> {
    if closed then [] else Blocks(rules)
  }

  lemma RemainingStep(rules: seq<Rule>, rule: Rule)
    ensures Remaining(rules + [rule], false) == BlockOf(rule) + Remaining(rules, TestsOf(rule) == [])
  {
    assert (rules + [rule])[..|rules|] == rules;
  }

  /** The default table, from its last entry to its first; the configured rules below it are still to come. */
  method AppendTable(p: BpfProgram, table: seq<Rule>, ghost below: seq<Rule>)
    requires p.Valid() && forall r :: r in table ==> r.allow
    modifies p
    ensures p.Valid()
    ensures p.code + Remaining(below, p.hasWildcard) == old(p.code) + Remaining(below + table, old(p.hasWildcard))
  {
    hide EncodeAll, Blocks, BlockOf, TestsOf, BpfProgram.Valid;
    var i := |table| - 1;
    assert table[..|table|] == table;
    while i >= 0
      invariant -1 <= i < |table| && p.Valid()
      invariant p.code + Remaining(below + table[..i + 1], p.hasWildcard)
             == old(p.code) + Remaining(below + table, old(p.hasWildcard))
    {
      assert table[i] in table;
      assert below + table[..i + 1] == (below + table[..i]) + [table[i]];
      RemainingStep(below + table[..i], table[i]);
      Assoc(p.code, BlockOf(table[i]), Remaining(below + table[..i], TestsOf(table[i]) == []));
      p.AppendDev(Some(table[i].access), table[i].kind, table[i].major, table[i].minor, true);
      i := i - 1;
    }
    assert below + table[..0] == below;
  }

  /** The configured devices, from the last to the first. */
  method AppendDevices(p: BpfProgram, devs: seq<Device>)
    requires p.Valid()
    modifies p
    ensures p.Valid()
    ensures p.code + Remaining([], p.hasWildcard) == old(p.code) + Remaining(RulesOf(devs), old(p.hasWildcard))
  {
    hide EncodeAll, Blocks, BlockOf, TestsOf, BpfProgram.Valid;
    ghost var rules := RulesOf(devs);
    var i := |devs| - 1;
    assert rules[..|rules|] == rules;
    while i >= 0
      invariant -1 <= i < |devs| && p.Valid()
      invariant p.code + Remaining(rules[..i + 1], p.hasWildcard) == old(p.code) + Remaining(rules, old(p.hasWildcard))
    {
      var kind, major, minor := 'a', -1, -1;
      if devs[i].kind.Some? {
        kind := KindOf(devs[i].kind);
      }
      if devs[i].major.Some? {
        major := ToInt(devs[i].major.value);
      }
      if devs[i].minor.Some? {
        minor := ToInt(devs[i].minor.value);
      }
      assert rules[..i + 1] == rules[..i] + [RuleOf(devs[i])];
      RemainingStep(rules[..i], RuleOf(devs[i]));
      Assoc(p.code, BlockOf(RuleOf(devs[i])), Remaining(rules[..i], TestsOf(RuleOf(devs[i])) == []));
      p.AppendDev(devs[i].access, kind, major, minor, devs[i].allow);
      i := i - 1;
    }
    assert rules[..0] == [];
  }

  /** The program for a configuration: prologue, default devices, configured devices, refusal. */
  method CreateDevBpf(devs: seq<Device>) returns (p: BpfProgram)
    ensures fresh(p) && p.Valid() && p.code == Compiled(devs)
  {
    assert Compiled(devs) == Prologue + Remaining(RulesOf(devs) + DefaultTable(), false);
    assert forall closed :: Remaining([], closed) == if closed then [] else Answer(false);
    hide *;
    p := new BpfProgram(2048);
    p.InitDev();
    assert p.code == Prologue;
    AppendTable(p, DefaultTable(), RulesOf(devs));
    AppendDevices(p, devs);
    assert p.code + Remaining([], p.hasWildcard) == Compiled(devs);
    p.CompleteDev();
  }

  /** The bytes that create_dev_bpf produces are a well-formed filter that answers like the configured policy. */
  lemma CompiledDecides(devs: seq<Device>, req: Request, fuel: nat)
    requires fuel >= |Compiled(devs)|
    ensures DecodeAll(EncodeAll(Compiled(devs))) == Some(Compiled(devs))
    ensures WellFormed(Compiled(devs))
    ensures Run(Compiled(devs), ContextOf(req), Start(), fuel) == Exited(if Allowed(Policy(devs), req) then 1 else 0)
  {
    FilterShape(AllRules(devs));
    DecodeAllEncodeAll(Compiled(devs));
    FilterDecides(AllRules(devs), req, fuel);
    assert AllRules(devs) == Policy(devs) + [EndMarker];
    EndMarkerIsHarmless(devs, req);
  }
}
