/**
The part of the eBPF machine that the device filter uses: instructions, their
8-byte encoding, and a small-step interpreter.

Jump offsets are relative to the next instruction (section 4.3 of RFC 9669) and
the result of a 32-bit operation is zero-extended (section 4.1 of RFC 9669).
A register that was never written, a load outside the context and a jump outside
the program are faults, so a run that exits shows that none of them happened.
*/
module Bpf {
  import opened Common

  const TWO_16 := 0x1_0000
  const TWO_32 := 0x1_0000_0000
  const TWO_64 := 0x1_0000_0000_0000_0000
  const REGISTERS := 11

  datatype Insn =
    | LdxW(dst: nat, src: nat, off: int)
    | And32Imm(dst: nat, imm: int)
    | Rsh32Imm(dst: nat, imm: int)
    | Mov32Reg(dst: nat, src: nat)
    | Mov64Imm(dst: nat, imm: int)
    | JneImm(dst: nat, imm: int, off: int)
    | JneReg(dst: nat, src: nat, off: int)
    | Exit
  {
    function Dst(): nat { if Exit? then 0 else dst }
    function Src(): nat { if LdxW? || Mov32Reg? || JneReg? then src else 0 }
    function Off(): int { if LdxW? || JneImm? || JneReg? then off else 0 }
    function Imm(): int { if LdxW? || Mov32Reg? || JneReg? || Exit? then 0 else imm }

    /** The opcode byte: class, operation, and source or size bits. */
    function Opcode(): byte {
      match this
      case LdxW(_, _, _) => 0x61
      case And32Imm(_, _) => 0x54
      case Rsh32Imm(_, _) => 0x74
      case Mov32Reg(_, _) => 0xbc
      case Mov64Imm(_, _) => 0xb7
      case JneImm(_, _, _) => 0x55
      case JneReg(_, _, _) => 0x5d
      case Exit => 0x95
    }

    /** The fields fit in the bit widths of struct bpf_insn. */
    predicate Fits() {
      Dst() < REGISTERS && Src() < REGISTERS && -0x8000 <= Off() < 0x8000 && -0x8000_0000 <= Imm() < 0x8000_0000
    }
  }

  // ---------------------------------------------------------------- encoding

  function Unsigned(x: int, modulus: nat): int {
    if x < 0 then x + modulus else x
  }

  function Signed(x: int, modulus: nat): int {
    if x < modulus / 2 then x else x - modulus
  }

  /** Little-endian bytes of one struct bpf_insn; each field is truncated to its width. */
  function Encode(i: Insn): (s: seq<byte>)
    ensures |s| == 8
  {
    var off := i.Off() % TWO_16;
    var imm := i.Imm() % TWO_32;
    [i.Opcode(), i.Src() % 16 * 16 + i.Dst() % 16, off % 256, off / 256,
     imm % 256, imm / 256 % 256, imm / 0x1_0000 % 256, imm / 0x100_0000]
  }

  function EncodeAll(code: seq<Insn>): (s: seq<byte>)
    ensures |s| == 8 * |code|
  {
    if code == [] then [] else Encode(code[0]) + EncodeAll(code[1..])
  }

  /** What the kernel reads back from 8 bytes; None for an opcode outside this subset. */
  function Decode(s: seq<byte>): (i: Option<Insn>)
    requires |s| == 8
  {
    var dst := s[1] % 16;
    var src := s[1] / 16;
    var b: seq<int> := s;
    var off := Signed(b[2] + 256 * b[3], TWO_16);
    var imm := Signed(b[4] + 256 * b[5] + 0x1_0000 * b[6] + 0x100_0000 * b[7], TWO_32);
    if s[0] == 0x61 then Some(LdxW(dst, src, off))
    else if s[0] == 0x54 then Some(And32Imm(dst, imm))
    else if s[0] == 0x74 then Some(Rsh32Imm(dst, imm))
    else if s[0] == 0xbc then Some(Mov32Reg(dst, src))
    else if s[0] == 0xb7 then Some(Mov64Imm(dst, imm))
    else if s[0] == 0x55 then Some(JneImm(dst, imm, off))
    else if s[0] == 0x5d then Some(JneReg(dst, src, off))
    else if s[0] == 0x95 then Some(Exit)
    else None
  }

  function DecodeAll(s: seq<byte>): (code: Option<seq<Insn>>)
  {
    if |s| == 0 then Some([])
    else if |s| < 8 then None
    else
      match (Decode(s[..8]), DecodeAll(s[8..]))
      case (Some(i), Some(rest)) => Some([i] + rest)
      case _ => None
  }

  lemma FourBytes(x: nat)
    requires x < TWO_32
    ensures x / 0x100_0000 < 256
    ensures x == x % 256 + 256 * (x / 256 % 256) + 0x1_0000 * (x / 0x1_0000 % 256) + 0x100_0000 * (x / 0x100_0000)
  {
    assert x / 256 / 256 == x / 0x1_0000 && x / 0x1_0000 / 256 == x / 0x100_0000;
  }

  lemma EncodedFields(i: Insn, s: seq<int>)
    requires i.Fits() && s == Encode(i)
    ensures s[0] == i.Opcode() && s[1] % 16 == i.Dst() && s[1] / 16 == i.Src()
    ensures Signed(s[2] + 256 * s[3], TWO_16) == i.Off()
    ensures Signed(s[4] + 256 * s[5] + 0x1_0000 * s[6] + 0x100_0000 * s[7], TWO_32) == i.Imm()
  {
    TwoBytesSigned(i.Off());
    FourBytesSigned(i.Imm());
    hide Signed;
  }

  lemma TwoBytesSigned(x: int)
    requires -0x8000 <= x < 0x8000
    ensures var o := x % TWO_16; Signed(o % 256 + 256 * (o / 256), TWO_16) == x
  {
    var o := x % TWO_16;
    assert o == o % 256 + 256 * (o / 256);
  }

  lemma FourBytesSigned(x: int)
    requires -0x8000_0000 <= x < 0x8000_0000
    ensures var m := x % TWO_32;
            var low := m % 256 + 256 * (m / 256 % 256);
            var high := 0x1_0000 * (m / 0x1_0000 % 256) + 0x100_0000 * (m / 0x100_0000);
            Signed(low + high, TWO_32) == x
  {
    FourBytes(x % TWO_32);
  }

  lemma DecodeEncode(i: Insn)
    requires i.Fits()
    ensures Decode(Encode(i)) == Some(i)
  {
    hide Encode, Signed;
    EncodedFields(i, Encode(i));
    match i
    case LdxW(_, _, _) =>
    case And32Imm(_, _) =>
    case Rsh32Imm(_, _) =>
    case Mov32Reg(_, _) =>
    case Mov64Imm(_, _) =>
    case JneImm(_, _, _) =>
    case JneReg(_, _, _) =>
    case Exit =>
  }

  lemma {:induction false} DecodeAllEncodeAll(code: seq<Insn>)
    requires forall i :: i in code ==> i.Fits()
    ensures DecodeAll(EncodeAll(code)) == Some(code)
  {
    if code != [] {
      var s := EncodeAll(code);
      DecodeEncode(code[0]);
      DecodeAllEncodeAll(code[1..]);
      assert s[..8] == Encode(code[0]) && s[8..] == EncodeAll(code[1..]);
      assert code == [code[0]] + code[1..];
    }
  }

  lemma {:induction false} EncodeAllAppend(a: seq<Insn>, b: seq<Insn>)
    ensures EncodeAll(a + b) == EncodeAll(a) + EncodeAll(b)
  {
    if a == [] {
      assert a + b == b;
    } else {
      assert (a + b)[1..] == a[1..] + b;
      EncodeAllAppend(a[1..], b);
    }
  }

  // --------------------------------------------------------------- execution

  /** The context of a device request: struct bpf_cgroup_dev_ctx. */
  datatype Ctx = Ctx(accessType: nat, major: nat, minor: nat)

  datatype Value = Uninit | CtxPointer | Num(n: nat)

  datatype State = State(pc: nat, regs: seq<Value>)

  datatype StepResult = Next(st: State) | Halt(r0: nat) | Stuck

  datatype Outcome = Exited(r0: nat) | Faulted | StillRunning

  /** Bitwise conjunction of two unsigned numbers. */
  function BitAnd(a: nat, b: nat): nat {
    if a == 0 then 0 else (a % 2) * (b % 2) + 2 * BitAnd(a / 2, b / 2)
  }

  function Load(ctx: Ctx, off: int): Value {
    if off == 0 then Num(ctx.accessType) else if off == 4 then Num(ctx.major) else if off == 8 then Num(ctx.minor)
      else Uninit
  }

  function Get(st: State, r: nat): Value {
    if r < |st.regs| then st.regs[r] else Uninit
  }

  /** Write a register and go to the next instruction; writing a value that is not defined is a fault. */
  function Put(st: State, r: nat, v: Value): StepResult {
    if r < |st.regs| && v.Num? then Next(State(st.pc + 1, st.regs[r := v])) else Stuck
  }

  function JumpIf(code: seq<Insn>, st: State, taken: bool, off: int): StepResult {
    var target := if taken then st.pc + 1 + off else st.pc + 1;
    if 0 <= target < |code| then Next(State(target, st.regs)) else Stuck
  }

  function Step(code: seq<Insn>, ctx: Ctx, st: State): StepResult {
    if st.pc >= |code| then Stuck else
    match code[st.pc]
    case LdxW(dst, src, off) => if Get(st, src).CtxPointer? then Put(st, dst, Load(ctx, off)) else Stuck
    case And32Imm(dst, imm) =>
      if Get(st, dst).Num? && imm >= 0 then Put(st, dst, Num(BitAnd(Get(st, dst).n % TWO_32, imm))) else Stuck
    case Rsh32Imm(dst, imm) =>
      if Get(st, dst).Num? && imm == 16 then Put(st, dst, Num(Get(st, dst).n % TWO_32 / TWO_16)) else Stuck
    case Mov32Reg(dst, src) => if Get(st, src).Num? then Put(st, dst, Num(Get(st, src).n % TWO_32)) else Stuck
    case Mov64Imm(dst, imm) => if -TWO_64 <= imm then Put(st, dst, Num(Unsigned(imm, TWO_64))) else Stuck
    case JneImm(dst, imm, off) =>
      if Get(st, dst).Num? then JumpIf(code, st, Get(st, dst).n != Unsigned(imm, TWO_64), off) else Stuck
    case JneReg(dst, src, off) =>
      if Get(st, dst).Num? && Get(st, src).Num? then JumpIf(code, st, Get(st, dst).n != Get(st, src).n, off) else Stuck
    case Exit => if Get(st, 0).Num? then Halt(Get(st, 0).n % TWO_32) else Stuck
  }

  function Run(code: seq<Insn>, ctx: Ctx, st: State, fuel: nat): Outcome
    decreases fuel
  {
    if fuel == 0 then StillRunning else
    match Step(code, ctx, st)
    case Next(st') => Run(code, ctx, st', fuel - 1)
    case Halt(r0) => Exited(r0)
    case Stuck => Faulted
  }

  /** R1 points to the context, nothing else is defined. */
  function Start(): State {
    State(0, seq(REGISTERS, i => if i == 1 then CtxPointer else Uninit))
  }

  // ---------------------------------------------------------- masks as modulo

  function Pow2(k: nat): (p: nat)
    ensures p >= 1
  {
    if k == 0 then 1 else 2 * Pow2(k - 1)
  }

  lemma DivModUnique(a: nat, d: nat, q: nat, r: nat)
    requires r < d && a == d * q + r
    ensures a / d == q && a % d == r
  {
    var k := a / d - q;
    assert k >= 1 ==> d * k >= d;
    assert k <= -1 ==> d * k <= 0 - d;
    assert d * k == r - a % d by { assert a == d * (a / d) + a % d; }
  }

  lemma ModDouble(a: nat, p: nat)
    requires p >= 1
    ensures a % (2 * p) == a % 2 + 2 * (a / 2 % p)
  {
    var q, r := a / 2 / p, a / 2 % p;
    assert a / 2 == p * q + r;
    assert 2 * (p * q) == (2 * p) * q;
    DivModUnique(a, 2 * p, q, a % 2 + 2 * r);
  }

  /** Masking with k one bits keeps the remainder modulo the k-th power of two. */
  lemma {:induction false} BitAndOnes(a: nat, k: nat)
    ensures BitAnd(a, Pow2(k) - 1) == a % Pow2(k)
  {
    if k == 0 {
      BitAndZero(a);
    } else {
      hide BitAnd;
      BitAndOnes(a / 2, k - 1);
      BitAndOdd(a, Pow2(k - 1));
      ModDouble(a, Pow2(k - 1));
    }
  }

  lemma BitAndOdd(a: nat, p: nat)
    requires p >= 1
    ensures BitAnd(a, 2 * p - 1) == a % 2 + 2 * BitAnd(a / 2, p - 1)
  {
    assert (2 * p - 1) % 2 == 1 && (2 * p - 1) / 2 == p - 1;
  }

  lemma BitAndZero(a: nat)
    ensures BitAnd(a, 0) == 0
  {
  }

  lemma BitAndFFFF(a: nat)
    ensures BitAnd(a, 0xFFFF) == a % TWO_16
  {
    assert Pow2(16) == TWO_16 by { assert Pow2(4) == 16; assert Pow2(8) == 256; assert Pow2(12) == 4096; }
    BitAndOnes(a, 16);
  }
}
