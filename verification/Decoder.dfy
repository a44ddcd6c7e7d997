/** Instruction decoding (opcode, ModRM, displacement, immediate) and one machine step. */
module Decoder {
  import opened Words
  import opened Machine

  function RegOf(code: nat): Reg {
    match code % 8
    case 0 => EAX case 1 => ECX case 2 => EDX case 3 => EBX
    case 4 => ESP case 5 => EBP case 6 => ESI case _ => EDI
  }

  /** E0 loopne, E1 loope, E2 loop, E3 jecxz */
  function LoopKindOf(op: Byte): LoopKind {
    if op == 0xE0 then LoopNotEqual else if op == 0xE1 then LoopEqual
    else if op == 0xE2 then LoopAlways else JumpIfEcxZero
  }

  function SignExtend(b: Byte): Word {
    if b < 0x80 then b else b + (SIZE - 0x100)
  }

  function Imm32(bs: seq<Byte>, i: nat): Word
    requires i + 4 <= |bs|
  {
    FromLE([bs[i], bs[i + 1], bs[i + 2], bs[i + 3]])
  }

  /** A ModRM byte at offset 1 with its SIB and displacement; `len` counts them. */
  datatype ModRm = ModRm(rm: Operand, reg: nat, len: nat)

  function DecodeModRm(bs: seq<Byte>): Option<ModRm> {
    if |bs| < 2 then None else
    var b := bs[1];
    var mode, reg, low := b / 64, b / 8 % 8, b % 8;
    if mode == 3 then Some(ModRm(InReg(RegOf(low)), reg, 1))
    else if mode == 0 && low == 5 then
      if |bs| < 6 then None else Some(ModRm(At(Option.None, Imm32(bs, 2)), reg, 5))
    else
      var k := if low == 4 then 1 else 0;
      if k == 1 && (|bs| < 3 || bs[2] != 0x24) then None
      else if mode == 0 then Some(ModRm(At(Option.Some(RegOf(low)), 0), reg, 1 + k))
      else if mode == 1 then
        if |bs| < 3 + k then None
        else Some(ModRm(At(Option.Some(RegOf(low)), SignExtend(bs[2 + k])), reg, 2 + k))
      else
        if |bs| < 6 + k then None
        else Some(ModRm(At(Option.Some(RegOf(low)), Imm32(bs, 2 + k)), reg, 5 + k))
  }

  function DecodeWithModRm(bs: seq<Byte>): Option<Fetched>
    requires |bs| > 0
  {
    match DecodeModRm(bs)
    case None => None
    case Some(m) =>
      var n := 1 + m.len;
      var op := bs[0];
      if op == 0x8B then Some(Fetched(MovLoad(RegOf(m.reg), m.rm), n))
      else if op == 0x89 then Some(Fetched(MovStore(m.rm, RegOf(m.reg)), n))
      else if op == 0x85 then Some(Fetched(Test(m.rm, RegOf(m.reg)), n))
      else if op == 0x8D then if m.rm.At? then Some(Fetched(Lea(RegOf(m.reg), m.rm), n)) else None
      else if op == 0xFF then
        if m.reg == 2 then Some(Fetched(CallRm(m.rm), n))
        else if m.reg == 4 then Some(Fetched(JmpRm(m.rm), n))
        else if m.reg == 6 then Some(Fetched(PushRm(m.rm), n))
        else None
      else
        var alu :=
          if m.reg == 0 then Some(Add) else if m.reg == 4 then Some(And)
          else if m.reg == 5 then Some(Sub) else if m.reg == 7 then Some(Cmp) else None;
        if alu.None? then None
        else if op == 0x83 && n < |bs| then Some(Fetched(Alu(alu.value, m.rm, SignExtend(bs[n])), n + 1))
        else if op == 0x81 && n + 4 <= |bs| then Some(Fetched(Alu(alu.value, m.rm, Imm32(bs, n)), n + 4))
        else None
  }

  function Decode(bs: seq<Byte>): Option<Fetched> {
    if |bs| == 0 then None else
    var op := bs[0];
    if op == 0x90 then Some(Fetched(Nop, 1))
    else if op == 0x60 then Some(Fetched(Pushad, 1))
    else if op == 0x61 then Some(Fetched(Popad, 1))
    else if op == 0x9C then Some(Fetched(Pushfd, 1))
    else if op == 0x9D then Some(Fetched(Popfd, 1))
    else if op == 0xC3 then Some(Fetched(Ret(0), 1))
    else if op / 8 == 10 then Some(Fetched(PushReg(RegOf(op)), 1))
    else if op / 8 == 11 then Some(Fetched(PopReg(RegOf(op)), 1))
    else if op in {0x81, 0x83, 0x85, 0x89, 0x8B, 0x8D, 0xFF} then DecodeWithModRm(bs)
    else if 0xE0 <= op <= 0xE3 then
      if |bs| < 2 then None else Some(Fetched(Loop(LoopKindOf(op), SignExtend(bs[1])), 2))
    else if op == 0x6A || op == 0xEB || op / 16 == 7 then
      if |bs| < 2 then None
      else Some(Fetched(if op == 0x6A then PushImm(SignExtend(bs[1]))
                        else if op == 0xEB then JmpRel(SignExtend(bs[1]))
                        else Jcc(op % 16, SignExtend(bs[1])), 2))
    else if op == 0xC2 then
      if |bs| < 3 then None else Some(Fetched(Ret((bs[1] as int) + 0x100 * bs[2] as int), 3))
    else if |bs| < 5 then None
    else if op == 0x68 then Some(Fetched(PushImm(Imm32(bs, 1)), 5))
    else if op / 8 == 23 then Some(Fetched(MovImm(RegOf(op), Imm32(bs, 1)), 5))
    else if op == 0xA1 then Some(Fetched(MovLoad(EAX, At(Option.None, Imm32(bs, 1))), 5))
    else if op == 0xA3 then Some(Fetched(MovStore(At(Option.None, Imm32(bs, 1)), EAX), 5))
    else if op == 0xE8 then Some(Fetched(CallRel(Imm32(bs, 1)), 5))
    else if op == 0xE9 then Some(Fetched(JmpRel(Imm32(bs, 1)), 5))
    else None
  }

  lemma ModRmLocal(bs: seq<Byte>, bs': seq<Byte>)
    requires DecodeModRm(bs).Some?
    requires 1 + DecodeModRm(bs).value.len <= |bs'|
    requires forall i :: 0 <= i < 1 + DecodeModRm(bs).value.len ==> i < |bs| && bs'[i] == bs[i]
    ensures DecodeModRm(bs') == DecodeModRm(bs)
  {
    var n := DecodeModRm(bs).value.len;
    assert bs[1] == bs'[1];
    if n >= 2 { assert bs[2] == bs'[2]; }
    if n >= 3 { assert bs[3] == bs'[3]; }
    if n >= 5 { assert bs[4] == bs'[4] && bs[5] == bs'[5]; }
    if n >= 6 { assert bs[6] == bs'[6]; }
  }

  /** Decoding looks at no byte past the instruction. */
  lemma DecodeLocal(bs: seq<Byte>, bs': seq<Byte>)
    requires Decode(bs).Some?
    requires Decode(bs).value.len <= |bs'|
    requires forall i :: 0 <= i < Decode(bs).value.len ==> i < |bs| && bs'[i] == bs[i]
    ensures Decode(bs') == Decode(bs)
  {
    var n := Decode(bs).value.len;
    assert bs[0] == bs'[0];
    if bs[0] in {0x81, 0x83, 0x85, 0x89, 0x8B, 0x8D, 0xFF} {
      ModRmLocal(bs, bs');
      var k := 1 + DecodeModRm(bs).value.len;
      if n > k { assert bs[k] == bs'[k]; }
      if n > k + 1 { assert bs[k + 1] == bs'[k + 1] && bs[k + 2] == bs'[k + 2] && bs[k + 3] == bs'[k + 3]; }
    } else {
      if n >= 2 { assert bs[1] == bs'[1]; }
      if n >= 3 { assert bs[2] == bs'[2]; }
      if n >= 5 { assert bs[3] == bs'[3] && bs[4] == bs'[4]; }
    }
  }

  lemma DecodeLength(bs: seq<Byte>)
    requires Decode(bs).Some?
    ensures 1 <= Decode(bs).value.len <= |bs|
  {
  }

  // --- fetching from memory ---

  const LONGEST := 11

  /** The bytes a fetch at `a` may see; code does not run past the top of the address space. */
  function Window(m: Memory, a: Word): seq<Byte> {
    m[a..if a + LONGEST <= SIZE then a + LONGEST else SIZE]
  }

  function Fetch(m: Memory, a: Word): Option<Fetched> {
    Decode(Window(m, a))
  }

  function Step(s: State): Option<State> {
    match Fetch(s.mem, s.eip)
    case None => None
    case Some(f) => Some(Exec(f, s))
  }

  /** `n` steps of a machine whose step may be stuck. */
  function Iterate<S>(step: S -> Option<S>, s: S, n: nat): Option<S> {
    if n == 0 then Some(s) else
    match Iterate(step, s, n - 1)
    case None => None
    case Some(t) => step(t)
  }

  lemma {:induction false} IterateAdd<S>(step: S -> Option<S>, s: S, a: nat, b: nat)
    requires Iterate(step, s, a).Some?
    ensures Iterate(step, s, a + b) == Iterate(step, Iterate(step, s, a).value, b)
    decreases b
  {
    if b > 0 {
      IterateAdd(step, s, a, b - 1);
      assert a + b - 1 == a + (b - 1);
    }
  }

  function Steps(s: State, n: nat): Option<State> {
    Iterate(Step, s, n)
  }

  lemma OneStep(s: State, s': State)
    requires Step(s) == Some(s')
    ensures Steps(s, 1) == Some(s')
  {
    hide Step;
    assert Iterate(Step, s, 0) == Some(s);
  }

  ghost predicate CodeAt(m: Memory, a: Word, code: seq<Byte>) {
    a + |code| <= SIZE && m[a..a + |code|] == code
  }

  lemma StoredCode(m: Memory, a: Word, code: seq<Byte>)
    requires a + |code| <= SIZE
    ensures CodeAt(Store(m, a, code), a, code)
  {
    forall i | 0 <= i < |code| ensures Store(m, a, code)[a..a + |code|][i] == code[i] {
      WrapInside(a, |code|, a + i);
    }
  }

  /** Code in memory is fetched as it decodes on its own. */
  lemma FetchCode(m: Memory, a: Word, code: seq<Byte>, off: nat)
    requires CodeAt(m, a, code)
    requires off < |code|
    requires Decode(code[off..]).Some?
    ensures Fetch(m, a + off) == Decode(code[off..])
  {
    var bs, w := code[off..], Window(m, a + off);
    DecodeLength(bs);
    DecodeShort(bs);
    assert forall i :: 0 <= i < Decode(bs).value.len ==> w[i] == m[a..a + |code|][off + i];
    DecodeLocal(bs, w);
  }

  lemma DecodeShort(bs: seq<Byte>)
    requires Decode(bs).Some?
    ensures Decode(bs).value.len <= LONGEST
  {
  }

  /** Memories that agree on the bytes of an instruction fetch the same instruction. */
  lemma FetchAgree(m: Memory, m': Memory, a: Word)
    requires Fetch(m, a).Some?
    requires forall x: Word :: In(x, Span(a, Fetch(m, a).value.len)) ==> m[x] == m'[x]
    ensures Fetch(m', a) == Fetch(m, a)
  {
    var w, w' := Window(m, a), Window(m', a);
    DecodeLength(w);
    forall i | 0 <= i < Decode(w).value.len ensures w'[i] == w[i] {
      assert In(a + i, Span(a, Fetch(m, a).value.len));
    }
    DecodeLocal(w, w');
  }
}
