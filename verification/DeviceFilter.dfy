/**
The device filter: the code for a rule list, the proof that running it gives the
policy's answer, and its shape.
*/
module DeviceFilter {
  import opened Common
  import opened Bpf
  import opened DevicePolicy

  const DEV_BLOCK := 1
  const DEV_CHAR := 2
  const ACC_MKNOD := 1
  const ACC_READ := 2
  const ACC_WRITE := 4

  function AccessBits(s: set<Access>): (bits: nat)
    ensures bits < 8
  {
    (if Read in s then ACC_READ else 0) + (if Write in s then ACC_WRITE else 0) + (if Mknod in s then ACC_MKNOD else 0)
  }

  function KindCode(k: Kind): nat {
    if k.Block? then DEV_BLOCK else DEV_CHAR
  }

  /** The context the kernel passes for a request. */
  function ContextOf(req: Request): Ctx {
    Ctx(AccessBits(req.access) * TWO_16 + KindCode(req.kind), req.major, req.minor)
  }

  // ------------------------------------------------------------ emitted code

  /** A check a block makes before it answers; the request fields are in registers 2 to 5. */
  datatype Test = KindTest(code: nat) | AccessTest(mask: nat) | MajorTest(number: int32) | MinorTest(number: int32)
  {
    predicate Ok() {
      match this
      case KindTest(code) => code < 8
      case AccessTest(mask) => mask < 8
      case MajorTest(n) => n >= 0
      case MinorTest(n) => n >= 0
    }

    function Size(): nat { if AccessTest? then 3 else 1 }

    /** The test, leaving `skip` instructions behind it when it fails. */
    function Code(skip: nat): (c: seq<Insn>)
      ensures |c| == Size()
    {
      match this
      case KindTest(code) => [JneImm(2, code, skip)]
      case AccessTest(mask) => [Mov32Reg(1, 3), And32Imm(1, mask), JneReg(1, 3, skip)]
      case MajorTest(n) => [JneImm(4, n, skip)]
      case MinorTest(n) => [JneImm(5, n, skip)]
    }

    predicate Passes(ctx: Ctx) {
      match this
      case KindTest(code) => ctx.accessType % TWO_16 == code
      case AccessTest(mask) => BitAnd(ctx.accessType / TWO_16, mask) == ctx.accessType / TWO_16
      case MajorTest(n) => ctx.major == n
      case MinorTest(n) => ctx.minor == n
    }
  }

  function KindTests(kind: char): seq<Test> {
    if kind == 'a' then [] else [KindTest(if kind == 'b' then DEV_BLOCK else DEV_CHAR)]
  }

  function AccessTests(access: set<Access>): seq<Test> {
    if access == {Read, Write, Mknod} then [] else [AccessTest(AccessBits(access))]
  }

  function MajorTests(major: int32): seq<Test> { if major < 0 then [] else [MajorTest(major)] }

  function MinorTests(minor: int32): seq<Test> { if minor < 0 then [] else [MinorTest(minor)] }

  /** The tests a rule needs: type a, access rwm and wildcards need none. */
  function TestsOf(rule: Rule): (tests: seq<Test>)
    ensures forall t :: t in tests ==> t.Ok()
  {
    KindTests(rule.kind) + AccessTests(AccessOf(rule.access)) + MajorTests(rule.major) + MinorTests(rule.minor)
  }

  function SizeOf(tests: seq<Test>): nat {
    if tests == [] then 0 else tests[0].Size() + SizeOf(tests[1..])
  }

  /** Each test jumps over the tests behind it and the two instructions of the answer. */
  function TestsCode(tests: seq<Test>): (c: seq<Insn>)
    ensures |c| == SizeOf(tests)
  {
    if tests == [] then [] else tests[0].Code(SizeOf(tests[1..]) + 2) + TestsCode(tests[1..])
  }

  function Answer(accept: bool): seq<Insn> {
    [Mov64Imm(0, if accept then 1 else 0), Exit]
  }

  function BlockOf(rule: Rule): seq<Insn> {
    TestsCode(TestsOf(rule)) + Answer(rule.allow)
  }

  /** Blocks from the last rule to the first. A rule without tests ends the program. */
  function Blocks(rules: seq<Rule>): seq<Insn> {
    if rules == [] then Answer(false)
    else
      var rule := rules[|rules| - 1];
      if TestsOf(rule) == [] then BlockOf(rule) else BlockOf(rule) + Blocks(rules[..|rules| - 1])
  }

  const Prologue: seq<Insn> := [
    LdxW(2, 1, 0), And32Imm(2, 0xFFFF),
    LdxW(3, 1, 0), Rsh32Imm(3, 16),
    LdxW(4, 1, 4),
    LdxW(5, 1, 8)
  ]

  function FilterOf(rules: seq<Rule>): seq<Insn> {
    Prologue + Blocks(rules)
  }

  // ----------------------------------------------------------------- meaning

  /** Registers 2 to 5 hold the request. */
  predicate Loaded(st: State, ctx: Ctx) {
    && |st.regs| == REGISTERS
    && st.regs[2] == Num(ctx.accessType % TWO_16)
    && st.regs[3] == Num(ctx.accessType / TWO_16)
    && st.regs[4] == Num(ctx.major)
    && st.regs[5] == Num(ctx.minor)
  }

  predicate CtxOk(ctx: Ctx) {
    ctx.accessType < TWO_32 && ctx.major < TWO_32 && ctx.minor < TWO_32
  }

  /** `piece` stands at position `pos` of `code`. */
  predicate At(code: seq<Insn>, pos: nat, piece: seq<Insn>) {
    pos + |piece| <= |code| && code[pos..pos + |piece|] == piece
  }

  lemma AtIndex(code: seq<Insn>, pos: nat, piece: seq<Insn>, k: nat)
    requires At(code, pos, piece) && k < |piece|
    ensures code[pos + k] == piece[k]
  {
    assert code[pos + k] == code[pos..pos + |piece|][k];
  }

  lemma AtSplit(code: seq<Insn>, pos: nat, a: seq<Insn>, b: seq<Insn>)
    requires At(code, pos, a + b)
    ensures At(code, pos, a) && At(code, pos + |a|, b)
  {
    var c := code[pos..pos + |a + b|];
    assert c[..|a|] == a && c[|a|..] == b;
    assert code[pos..pos + |a|] == c[..|a|] && code[pos + |a|..pos + |a| + |b|] == c[|a|..];
  }

  lemma RunNext(code: seq<Insn>, ctx: Ctx, st: State, st': State, fuel: nat)
    requires fuel > 0 && Step(code, ctx, st) == Next(st')
    ensures Run(code, ctx, st, fuel) == Run(code, ctx, st', fuel - 1)
  {
  }

  /** A comparison of a register with a constant, jumping when they differ. */
  lemma JneRuns(code: seq<Insn>, ctx: Ctx, st: State, r: nat, imm: nat, skip: nat, fuel: nat) returns (st': State)
    requires st.pc + 1 + skip < |code| && code[st.pc] == JneImm(r, imm, skip) && Get(st, r).Num? && fuel > 0
    ensures st' == State(st.pc + 1 + (if Get(st, r).n == imm then 0 else skip), st.regs)
    ensures Run(code, ctx, st, fuel) == Run(code, ctx, st', fuel - 1)
  {
    st' := State(st.pc + 1 + (if Get(st, r).n == imm then 0 else skip), st.regs);
    RunNext(code, ctx, st, st', fuel);
  }

  lemma AccessTestRuns(code: seq<Insn>, ctx: Ctx, st: State, mask: nat, skip: nat, fuel: nat) returns (st': State)
    requires CtxOk(ctx) && Loaded(st, ctx) && st.pc + 3 + skip < |code| && fuel >= 3
    requires code[st.pc] == Mov32Reg(1, 3) && code[st.pc + 1] == And32Imm(1, mask) &&
      code[st.pc + 2] == JneReg(1, 3, skip)
    ensures Loaded(st', ctx) && st'.pc == st.pc + 3 + if AccessTest(mask).Passes(ctx) then 0 else skip
    ensures Run(code, ctx, st, fuel) == Run(code, ctx, st', fuel - 3)
  {
    var a := ctx.accessType / TWO_16;
    var st1 := State(st.pc + 1, st.regs[1 := Num(a)]);
    RunNext(code, ctx, st, st1, fuel);
    var st2 := State(st.pc + 2, st1.regs[1 := Num(BitAnd(a, mask))]);
    RunNext(code, ctx, st1, st2, fuel - 1);
    st' := State(st.pc + 3 + (if BitAnd(a, mask) == a then 0 else skip), st2.regs);
    RunNext(code, ctx, st2, st', fuel - 2);
  }

  /** One test: fall through when it passes, jump when it does not. */
  lemma TestRuns(code: seq<Insn>, ctx: Ctx, st: State, t: Test, skip: nat, fuel: nat) returns (st': State, fuel': nat)
    requires CtxOk(ctx) && Loaded(st, ctx) && t.Ok()
    requires At(code, st.pc, t.Code(skip)) && st.pc + t.Size() + skip < |code|
    requires fuel >= |code| - st.pc
    ensures Run(code, ctx, st, fuel) == Run(code, ctx, st', fuel')
    ensures Loaded(st', ctx) && fuel' >= |code| - st'.pc
    ensures st'.pc == st.pc + t.Size() + if t.Passes(ctx) then 0 else skip
  {
    var c := t.Code(skip);
    fuel' := fuel - t.Size();
    AtIndex(code, st.pc, c, 0);
    match t
    case KindTest(n) => st' := JneRuns(code, ctx, st, 2, n, skip, fuel);
    case MajorTest(n) => st' := JneRuns(code, ctx, st, 4, n, skip, fuel);
    case MinorTest(n) => st' := JneRuns(code, ctx, st, 5, n, skip, fuel);
    case AccessTest(m) =>
      AtIndex(code, st.pc, c, 1);
      AtIndex(code, st.pc, c, 2);
      st' := AccessTestRuns(code, ctx, st, m, skip, fuel);
  }

  predicate AllPass(tests: seq<Test>, ctx: Ctx) {
    forall t :: t in tests ==> t.Passes(ctx)
  }

  /** A run of tests: through to the answer when all pass, past the answer otherwise. */
  lemma {:induction false} TestsRun(code: seq<Insn>, ctx: Ctx, st: State, tests: seq<Test>, fuel: nat)
    returns (st': State, fuel': nat)
    requires CtxOk(ctx) && Loaded(st, ctx) && forall t :: t in tests ==> t.Ok()
    requires At(code, st.pc, TestsCode(tests)) && (tests != [] ==> st.pc + SizeOf(tests) + 2 < |code|)
    requires fuel >= |code| - st.pc
    ensures Run(code, ctx, st, fuel) == Run(code, ctx, st', fuel')
    ensures Loaded(st', ctx) && fuel' >= |code| - st'.pc
    ensures st'.pc == st.pc + SizeOf(tests) + if AllPass(tests, ctx) then 0 else 2
    decreases |tests|
  {
    hide Run, At, Loaded, CtxOk, Test.Passes, Test.Code;
    if tests == [] {
      st', fuel' := st, fuel;
    } else {
      var t, rest := tests[0], tests[1..];
      AtSplit(code, st.pc, t.Code(SizeOf(rest) + 2), TestsCode(rest));
      var st1, fuel1 := TestRuns(code, ctx, st, t, SizeOf(rest) + 2, fuel);
      if t.Passes(ctx) {
        st', fuel' := TestsRun(code, ctx, st1, rest, fuel1);
        assert AllPass(tests, ctx) <==> AllPass(rest, ctx) by { assert tests == [t] + rest; }
      } else {
        assert t in tests;
        st', fuel' := st1, fuel1;
      }
    }
  }

  lemma AnswerRuns(code: seq<Insn>, ctx: Ctx, st: State, accept: bool, fuel: nat)
    requires |st.regs| == REGISTERS && At(code, st.pc, Answer(accept))
    requires fuel >= |code| - st.pc
    ensures Run(code, ctx, st, fuel) == Exited(if accept then 1 else 0)
  {
    var v := if accept then 1 else 0;
    var st1 := State(st.pc + 1, st.regs[0 := Num(v)]);
    AtIndex(code, st.pc, Answer(accept), 0);
    AtIndex(code, st.pc, Answer(accept), 1);
    assert Step(code, ctx, st) == Next(st1);
    assert Step(code, ctx, st1) == Halt(v);
    assert Run(code, ctx, st1, fuel - 1) == Exited(v);
  }

  /** One block: exit with the rule's answer when the rule matches, go to the end of the block otherwise. */
  lemma BlockRuns(code: seq<Insn>, req: Request, st: State, rule: Rule, fuel: nat) returns (st': State, fuel': nat)
    requires Loaded(st, ContextOf(req)) && At(code, st.pc, BlockOf(rule)) && fuel >= |code| - st.pc
    requires TestsOf(rule) != [] ==> st.pc + |BlockOf(rule)| < |code|
    ensures Matches(rule, req) ==> Run(code, ContextOf(req), st, fuel) == Exited(if rule.allow then 1 else 0)
    ensures !Matches(rule, req) ==>
              && TestsOf(rule) != []
              && Run(code, ContextOf(req), st, fuel) == Run(code, ContextOf(req), st', fuel')
              && Loaded(st', ContextOf(req)) && st'.pc == st.pc + |BlockOf(rule)| && fuel' >= |code| - st'.pc
  {
    hide Run, At, TestsCode, Loaded, CtxOk, ContextOf, Matches, AllPass, TestsOf, Answer;
    var tests := TestsOf(rule);
    AtSplit(code, st.pc, TestsCode(tests), Answer(rule.allow));
    BlockSize(rule);
    ContextIsOk(req);
    TestsDecide(rule, req);
    st', fuel' := TestsRun(code, ContextOf(req), st, tests, fuel);
    if Matches(rule, req) {
      LoadedRegisters(st', ContextOf(req));
      AnswerRuns(code, ContextOf(req), st', rule.allow, fuel');
    }
  }

  lemma BlockSize(rule: Rule)
    ensures |TestsCode(TestsOf(rule))| == SizeOf(TestsOf(rule)) && |BlockOf(rule)| == SizeOf(TestsOf(rule)) + 2
    ensures forall ctx :: AllPass([], ctx)
  {
  }

  lemma ContextIsOk(req: Request)
    ensures CtxOk(ContextOf(req))
  {
  }

  lemma LoadedRegisters(st: State, ctx: Ctx)
    requires Loaded(st, ctx)
    ensures |st.regs| == REGISTERS
  {
  }

  /** Running the blocks from their first instruction gives the policy's answer. */
  lemma {:induction false} BlocksRun(code: seq<Insn>, req: Request, st: State, rules: seq<Rule>, fuel: nat)
    requires Loaded(st, ContextOf(req)) && At(code, st.pc, Blocks(rules)) && fuel >= |code| - st.pc
    ensures Run(code, ContextOf(req), st, fuel) == Exited(if Allowed(rules, req) then 1 else 0)
    decreases |rules|
  {
    hide Run, Loaded, ContextOf, Matches, TestsOf, BlockOf, At;
    if rules == [] {
      LoadedRegisters(st, ContextOf(req));
      AnswerRuns(code, ContextOf(req), st, false, fuel);
    } else {
      var rule, rest := rules[|rules| - 1], rules[..|rules| - 1];
      var tail := if TestsOf(rule) == [] then [] else Blocks(rest);
      BlocksNonEmpty(rest);
      assert Blocks(rules) == BlockOf(rule) + tail;
      AtSplit(code, st.pc, BlockOf(rule), tail);
      var st1, fuel1 := BlockRuns(code, req, st, rule, fuel);
      if !Matches(rule, req) {
        BlocksRun(code, req, st1, rest, fuel1);
      }
    }
  }

  lemma BlocksNonEmpty(rules: seq<Rule>)
    ensures |Blocks(rules)| >= 2
  {
  }

  lemma AllPassAppend(a: seq<Test>, b: seq<Test>, ctx: Ctx)
    ensures AllPass(a + b, ctx) <==> AllPass(a, ctx) && AllPass(b, ctx)
  {
    assert forall t :: t in a + b <==> t in a || t in b;
  }

  lemma AccessTestsDecide(granted: set<Access>, req: Request)
    ensures AllPass(AccessTests(granted), ContextOf(req)) <==> req.access <= granted
  {
    var ts := AccessTests(granted);
    MaskIsSubset(req.access, granted);
    if ts == [] {
      forall v | v in req.access ensures v in granted { match v case Read => case Write => case Mknod => }
    } else {
      assert ts[0] in ts;
    }
  }

  /** The tests left in a block decide exactly what the rule decides. */
  lemma TestsDecide(rule: Rule, req: Request)
    ensures AllPass(TestsOf(rule), ContextOf(req)) <==> Matches(rule, req)
  {
    var ctx := ContextOf(req);
    var k, a, j, n := KindTests(rule.kind), AccessTests(AccessOf(rule.access)), MajorTests(rule.major),
      MinorTests(rule.minor);
    AllPassAppend(k, a, ctx);
    AllPassAppend(k + a, j, ctx);
    AllPassAppend(k + a + j, n, ctx);
    AccessTestsDecide(AccessOf(rule.access), req);
    assert k != [] ==> k[0] in k;
    assert j != [] ==> j[0] in j;
    assert n != [] ==> n[0] in n;
  }

  function Bit(b: bool): nat { if b then 1 else 0 }

  lemma BitAndLow(a: bool, x: nat, b: bool, y: nat)
    ensures BitAnd(Bit(a) + 2 * x, Bit(b) + 2 * y) == Bit(a && b) + 2 * BitAnd(x, y)
  {
    assert (Bit(a) + 2 * x) % 2 == Bit(a) && (Bit(a) + 2 * x) / 2 == x;
    assert (Bit(b) + 2 * y) % 2 == Bit(b) && (Bit(b) + 2 * y) / 2 == y;
  }

  lemma BitAnd3(a0: bool, a1: bool, a2: bool, b0: bool, b1: bool, b2: bool)
    ensures BitAnd(Bit(a0) + 2 * (Bit(a1) + 2 * Bit(a2)), Bit(b0) + 2 * (Bit(b1) + 2 * Bit(b2)))
            == Bit(a0 && b0) + 2 * (Bit(a1 && b1) + 2 * Bit(a2 && b2))
  {
    BitAndLow(a0, Bit(a1) + 2 * Bit(a2), b0, Bit(b1) + 2 * Bit(b2));
    BitAndLow(a1, Bit(a2), b1, Bit(b2));
  }

  /** Testing `(a & m) == a` on access bits is testing set inclusion. */
  lemma MaskIsSubset(a: set<Access>, m: set<Access>)
    ensures BitAnd(AccessBits(a), AccessBits(m)) == AccessBits(a) <==> a <= m
  {
    BitAnd3(Mknod in a, Read in a, Write in a, Mknod in m, Read in m, Write in m);
    assert AccessBits(a) == Bit(Mknod in a) + 2 * (Bit(Read in a) + 2 * Bit(Write in a));
    assert AccessBits(m) == Bit(Mknod in m) + 2 * (Bit(Read in m) + 2 * Bit(Write in m));
    if BitAnd(AccessBits(a), AccessBits(m)) == AccessBits(a) {
      forall v | v in a ensures v in m { match v case Read => case Write => case Mknod => }
    }
  }

  /** The machine n steps after a state. */
  function After(code: seq<Insn>, ctx: Ctx, st: State, n: nat): StepResult
    decreases n
  {
    if n == 0 then Next(st)
    else
      match Step(code, ctx, st)
      case Next(st') => After(code, ctx, st', n - 1)
      case end => end
  }

  lemma {:induction false} RunAfter(code: seq<Insn>, ctx: Ctx, st: State, n: nat, fuel: nat)
    requires fuel >= n && After(code, ctx, st, n).Next?
    ensures Run(code, ctx, st, fuel) == Run(code, ctx, After(code, ctx, st, n).st, fuel - n)
    decreases n
  {
    if n > 0 {
      RunAfter(code, ctx, Step(code, ctx, st).st, n - 1, fuel - 1);
    }
  }

  lemma {:induction false} AfterSplit(code: seq<Insn>, ctx: Ctx, st: State, n: nat, m: nat)
    requires After(code, ctx, st, n).Next?
    ensures After(code, ctx, st, n + m) == After(code, ctx, After(code, ctx, st, n).st, m)
    decreases n
  {
    if n > 0 {
      AfterSplit(code, ctx, Step(code, ctx, st).st, n - 1, m);
    }
  }

  /** The prologue loads the request into registers 2 to 5. */
  lemma PrologueRuns(code: seq<Insn>, ctx: Ctx) returns (st: State, n: nat)
    requires CtxOk(ctx) && At(code, 0, Prologue)
    ensures n == |Prologue| && st.pc == n && Loaded(st, ctx) && After(code, ctx, Start(), n) == Next(st)
  {
    PrologueAt(code);
    var s1 := LoadSteps(code, ctx, Start(), 2, 0);
    BitAndFFFF(ctx.accessType);
    var s2 := MaskSteps(code, ctx, s1, 0xFFFF);
    var s3 := LoadSteps(code, ctx, s2, 3, 0);
    var s4 := ShiftSteps(code, ctx, s3);
    var s5 := LoadSteps(code, ctx, s4, 4, 4);
    st := LoadSteps(code, ctx, s5, 5, 8);
    n := 6;
    assert After(code, ctx, s5, n - 5) == After(code, ctx, st, n - 6) == Next(st);
    assert After(code, ctx, s3, n - 3) == After(code, ctx, s4, n - 4) == Next(st);
    assert After(code, ctx, s1, n - 1) == After(code, ctx, s2, n - 2) == Next(st);
  }

  lemma PrologueAt(code: seq<Insn>)
    requires At(code, 0, Prologue)
    ensures |code| >= 6
    ensures code[0] == LdxW(2, 1, 0) && code[1] == And32Imm(2, 0xFFFF) && code[2] == LdxW(3, 1, 0)
    ensures code[3] == Rsh32Imm(3, 16) && code[4] == LdxW(4, 1, 4) && code[5] == LdxW(5, 1, 8)
  {
    forall k | 0 <= k < 6 ensures code[k] == Prologue[k] { AtIndex(code, 0, Prologue, k); }
  }

  lemma LoadSteps(code: seq<Insn>, ctx: Ctx, st: State, dst: nat, off: nat) returns (st': State)
    requires st.pc < |code| && code[st.pc] == LdxW(dst, 1, off) && Load(ctx, off).Num?
    requires |st.regs| == REGISTERS && st.regs[1] == CtxPointer && dst < REGISTERS && dst != 1
    ensures st' == State(st.pc + 1, st.regs[dst := Load(ctx, off)]) && Step(code, ctx, st) == Next(st')
  {
    st' := State(st.pc + 1, st.regs[dst := Load(ctx, off)]);
  }

  lemma MaskSteps(code: seq<Insn>, ctx: Ctx, st: State, mask: nat) returns (st': State)
    requires st.pc < |code| && code[st.pc] == And32Imm(2, mask) &&
      BitAnd(ctx.accessType, mask) == ctx.accessType % TWO_16
    requires |st.regs| == REGISTERS && st.regs[2] == Num(ctx.accessType) && CtxOk(ctx)
    ensures st' == State(st.pc + 1, st.regs[2 := Num(ctx.accessType % TWO_16)]) && Step(code, ctx, st) == Next(st')
  {
    st' := State(st.pc + 1, st.regs[2 := Num(ctx.accessType % TWO_16)]);
  }

  lemma ShiftSteps(code: seq<Insn>, ctx: Ctx, st: State) returns (st': State)
    requires st.pc < |code| && code[st.pc] == Rsh32Imm(3, 16)
    requires |st.regs| == REGISTERS && st.regs[3] == Num(ctx.accessType) && CtxOk(ctx)
    ensures st' == State(st.pc + 1, st.regs[3 := Num(ctx.accessType / TWO_16)]) && Step(code, ctx, st) == Next(st')
  {
    st' := State(st.pc + 1, st.regs[3 := Num(ctx.accessType / TWO_16)]);
  }

  lemma CodeDecides(code: seq<Insn>, rules: seq<Rule>, req: Request, start: State, st: State, n: nat, fuel: nat)
    requires At(code, n, Blocks(rules)) && fuel >= |code|
    requires After(code, ContextOf(req), start, n) == Next(st) && st.pc == n && Loaded(st, ContextOf(req))
    ensures Run(code, ContextOf(req), start, fuel) == Exited(if Allowed(rules, req) then 1 else 0)
  {
    RunAfter(code, ContextOf(req), start, n, fuel);
    BlocksRun(code, req, st, rules, fuel - n);
  }

  /** The compiler preserves meaning: every run exits, with the answer of the last matching rule. */
  lemma FilterDecides(rules: seq<Rule>, req: Request, fuel: nat)
    requires fuel >= |FilterOf(rules)|
    ensures Run(FilterOf(rules), ContextOf(req), Start(), fuel) == Exited(if Allowed(rules, req) then 1 else 0)
  {
    var code := FilterOf(rules);
    AtSplit(code, 0, Prologue, Blocks(rules));
    var st, n := PrologueRuns(code, ContextOf(req));
    CodeDecides(code, rules, req, Start(), st, n, fuel);
  }

  // ---------------------------------------------------------- shape of code

  /** The instruction leaves registers 2 to 5 alone. */
  predicate KeepsRequest(i: Insn) {
    match i
    case LdxW(_, _, _) => false
    case And32Imm(dst, _) => dst < 2
    case Rsh32Imm(dst, _) => dst < 2
    case Mov32Reg(dst, _) => dst < 2
    case Mov64Imm(dst, _) => dst < 2
    case _ => true
  }

  /** A jump at position i goes forward, to a position just behind an exit, that is, to the start of a block. */
  predicate JumpOk(c: seq<Insn>, i: nat)
    requires i < |c|
  {
    c[i].JneImm? || c[i].JneReg? ==> c[i].off > 0 && i + c[i].off < |c| && c[i + c[i].off] == Exit
  }

  /** Every instruction fits its encoding, leaves the request alone and jumps forward inside the piece. */
  predicate PieceOk(c: seq<Insn>) {
    forall i :: 0 <= i < |c| ==> c[i].Fits() && KeepsRequest(c[i]) && JumpOk(c, i)
  }

  predicate NoJumpToEnd(c: seq<Insn>) {
    forall i :: 0 <= i < |c| && (c[i].JneImm? || c[i].JneReg?) ==> i + 1 + c[i].off < |c|
  }

  lemma PieceOkAppend(a: seq<Insn>, b: seq<Insn>)
    requires PieceOk(a) && PieceOk(b)
    ensures PieceOk(a + b)
    ensures NoJumpToEnd(if b == [] then a else b) ==> NoJumpToEnd(a + b)
  {
    var c := a + b;
    forall i | 0 <= i < |c| ensures c[i].Fits() && KeepsRequest(c[i]) && JumpOk(c, i) {
      assert if i < |a| then JumpOk(a, i) else JumpOk(b, i - |a|);
      if i >= |a| && (c[i].JneImm? || c[i].JneReg?) {
        assert c[i + c[i].off] == b[i - |a| + c[i].off];
      }
    }
    if NoJumpToEnd(if b == [] then a else b) {
      forall i | 0 <= i < |c| && (c[i].JneImm? || c[i].JneReg?) ensures i + 1 + c[i].off < |c| {
        assert if i < |a| then JumpOk(a, i) else c[i] == b[i - |a|];
      }
    }
  }

  /** A test in front of a piece: its jump reaches over the piece's answer. */
  lemma TestShape(t: Test, tail: seq<Insn>, skip: nat)
    requires t.Ok() && PieceOk(tail) && 0 < skip == |tail| < 1000 && tail[skip - 1] == Exit
    ensures PieceOk(t.Code(skip) + tail)
  {
    var head := t.Code(skip);
    var c := head + tail;
    assert c[|head| + skip - 1] == tail[skip - 1];
    forall i | 0 <= i < |c| ensures c[i].Fits() && KeepsRequest(c[i]) && JumpOk(c, i) {
      if i >= |head| {
        assert c[i] == tail[i - |head|] && JumpOk(tail, i - |head|);
        if c[i].JneImm? || c[i].JneReg? {
          assert c[i + c[i].off] == tail[i - |head| + c[i].off];
        }
      }
    }
  }

  lemma {:induction false} TestsShape(tests: seq<Test>, accept: bool)
    requires SizeOf(tests) < 900 && forall t :: t in tests ==> t.Ok()
    ensures PieceOk(TestsCode(tests) + Answer(accept))
    ensures tests == [] ==> NoJumpToEnd(TestsCode(tests) + Answer(accept))
  {
    if tests == [] {
      assert TestsCode(tests) + Answer(accept) == Answer(accept);
    } else {
      var t, rest := tests[0], tests[1..];
      var tail := TestsCode(rest) + Answer(accept);
      TestsShape(rest, accept);
      assert t in tests && tail[SizeOf(rest) + 1] == Exit;
      TestShape(t, tail, SizeOf(rest) + 2);
      assert TestsCode(tests) + Answer(accept) == t.Code(SizeOf(rest) + 2) + tail;
    }
  }

  /** Every instruction of the blocks is well placed, and no jump goes past the end. */
  lemma {:induction false} BlocksShape(rules: seq<Rule>)
    ensures PieceOk(Blocks(rules)) && NoJumpToEnd(Blocks(rules))
    ensures |Blocks(rules)| > 0 && Blocks(rules)[|Blocks(rules)| - 1] == Exit
    decreases |rules|
  {
    hide PieceOk, NoJumpToEnd, TestsOf, BlockOf;
    if rules == [] {
      RefusalShape();
    } else {
      var rule, rest := rules[|rules| - 1], rules[..|rules| - 1];
      BlockShape(rule);
      BlocksShape(rest);
      var block, tail := BlockOf(rule), if TestsOf(rule) == [] then [] else Blocks(rest);
      PieceOkAppend(block, tail);
      assert Blocks(rules) == block + tail;
    }
  }

  lemma RefusalShape()
    ensures PieceOk(Answer(false)) && NoJumpToEnd(Answer(false)) && PieceOk([])
  {
  }

  lemma BlockShape(rule: Rule)
    ensures var block := BlockOf(rule); PieceOk(block) && block != [] && block[|block| - 1] == Exit
    ensures PieceOk([]) && (TestsOf(rule) == [] ==> NoJumpToEnd(BlockOf(rule)))
  {
    hide PieceOk, NoJumpToEnd, TestsOf, TestsCode;
    RefusalShape();
    TestsSize(rule);
    TestsShape(TestsOf(rule), rule.allow);
  }

  lemma TestsSize(rule: Rule)
    ensures SizeOf(TestsOf(rule)) <= 6
  {
    var k, a, j, n := KindTests(rule.kind), AccessTests(AccessOf(rule.access)), MajorTests(rule.major),
      MinorTests(rule.minor);
    SizeOfAppend(k, a);
    SizeOfAppend(k + a, j);
    SizeOfAppend(k + a + j, n);
  }

  lemma {:induction false} SizeOfAppend(a: seq<Test>, b: seq<Test>)
    ensures SizeOf(a + b) == SizeOf(a) + SizeOf(b)
  {
    if a == [] {
      assert a + b == b;
    } else {
      assert (a + b)[1..] == a[1..] + b;
      SizeOfAppend(a[1..], b);
    }
  }

  /**
  Every jump of the filter goes forward to the start of a block inside the filter; the last instruction is an exit.
  */
  predicate WellFormed(code: seq<Insn>) {
    && |code| > 6 && code[|code| - 1] == Exit
    && (forall i :: 0 <= i < |code| ==> code[i].Fits() && JumpOk(code, i))
    && NoJumpToEnd(code)
    && (forall i :: 6 <= i < |code| ==> KeepsRequest(code[i]))
  }

  lemma FilterShape(rules: seq<Rule>)
    ensures WellFormed(FilterOf(rules))
  {
    BlocksShape(rules);
    PrologueShape(Blocks(rules));
  }

  lemma PrologueShape(blocks: seq<Insn>)
    requires PieceOk(blocks) && NoJumpToEnd(blocks) && blocks != [] && blocks[|blocks| - 1] == Exit
    ensures WellFormed(Prologue + blocks)
  {
    var code := Prologue + blocks;
    assert |Prologue| == 6;
    assert forall i :: 0 <= i < 6 ==> Prologue[i].Fits() && !Prologue[i].JneImm? && !Prologue[i].JneReg?;
    forall i | 0 <= i < |code|
      ensures code[i].Fits() && JumpOk(code, i)
      ensures i >= 6 ==> KeepsRequest(code[i])
      ensures code[i].JneImm? || code[i].JneReg? ==> i + 1 + code[i].off < |code|
    {
      if i >= 6 {
        assert code[i] == blocks[i - 6] && JumpOk(blocks, i - 6);
        if code[i].JneImm? || code[i].JneReg? {
          assert code[i + code[i].off] == blocks[i - 6 + code[i].off];
        }
      }
    }
  }

  lemma StepKeepsRequest(code: seq<Insn>, ctx: Ctx, st: State)
    requires Loaded(st, ctx) && st.pc < |code| && KeepsRequest(code[st.pc]) && JumpOk(code, st.pc)
    ensures Step(code, ctx, st).Next? ==> Loaded(Step(code, ctx, st).st, ctx) && Step(code, ctx, st).st.pc > st.pc
  {
  }

  lemma {:induction false} LoadedStays(code: seq<Insn>, ctx: Ctx, st: State, n: nat)
    requires WellFormed(code) && st.pc >= 6 && Loaded(st, ctx)
    ensures After(code, ctx, st, n).Next? ==> Loaded(After(code, ctx, st, n).st, ctx)
    decreases n
  {
    if n > 0 && st.pc < |code| {
      StepKeepsRequest(code, ctx, st);
      if Step(code, ctx, st).Next? {
        LoadedStays(code, ctx, Step(code, ctx, st).st, n - 1);
      }
    }
  }

  lemma LoadedStaysFrom(code: seq<Insn>, ctx: Ctx, start: State, st: State, k: nat, n: nat)
    requires WellFormed(code) && st.pc >= 6 && Loaded(st, ctx) && k <= n && After(code, ctx, start, k) == Next(st)
    ensures After(code, ctx, start, n).Next? ==> Loaded(After(code, ctx, start, n).st, ctx)
  {
    AfterSplit(code, ctx, start, k, n - k);
    LoadedStays(code, ctx, st, n - k);
  }

  /** Once loaded, the request stays in registers 2 to 5 for the rest of the run. */
  lemma RequestStaysLoaded(rules: seq<Rule>, req: Request, n: nat)
    requires n >= |Prologue|
    ensures After(FilterOf(rules), ContextOf(req), Start(), n).Next? ==>
              Loaded(After(FilterOf(rules), ContextOf(req), Start(), n).st, ContextOf(req))
  {
    var code, ctx, start := FilterOf(rules), ContextOf(req), Start();
    AtSplit(code, 0, Prologue, Blocks(rules));
    var st, k := PrologueRuns(code, ctx);
    FilterShape(rules);
    LoadedStaysFrom(code, ctx, start, st, k, n);
  }
}
