/** The part of IA-32 that the trampolines emit and the hooked prologues use:
    registers, status flags, EIP and flat memory, with one function per instruction step. */
module Machine {
  import opened Words

  datatype Option<+T> = None | Some(value: T)
  {
    function GetOr(d: T): T {
      if Some? then value else d
    }
  }

  datatype Reg = EAX | ECX | EDX | EBX | ESP | EBP | ESI | EDI

  datatype Regs = Regs(eax: Word, ecx: Word, edx: Word, ebx: Word, esp: Word, ebp: Word, esi: Word, edi: Word)
  {
    function Get(r: Reg): Word {
      match r
      case EAX => eax case ECX => ecx case EDX => edx case EBX => ebx
      case ESP => esp case EBP => ebp case ESI => esi case EDI => edi
    }

    function Set(r: Reg, w: Word): Regs {
      match r
      case EAX => this.(eax := w) case ECX => this.(ecx := w) case EDX => this.(edx := w) case EBX => this.(ebx := w)
      case ESP => this.(esp := w) case EBP => this.(ebp := w) case ESI => this.(esi := w) case EDI => this.(edi := w)
    }
  }

  /** `flags` holds the six status flags at their EFLAGS bit positions. */
  datatype State = State(regs: Regs, flags: Word, eip: Word, mem: Memory)

  /** A register, or memory at base + disp (absolute when there is no base). */
  datatype Operand = InReg(r: Reg) | At(base: Option<Reg>, disp: Word)

  datatype AluOp = Add | And | Sub | Cmp

  datatype LoopKind = LoopNotEqual | LoopEqual | LoopAlways | JumpIfEcxZero

  datatype Insn =
    | Nop
    | Pushad | Popad | Pushfd | Popfd
    | PushReg(r: Reg) | PushImm(imm: Word) | PushRm(rm: Operand) | PopReg(r: Reg)
    | MovImm(r: Reg, imm: Word) | MovLoad(r: Reg, rm: Operand) | MovStore(rm: Operand, r: Reg)
    | Lea(r: Reg, rm: Operand)
    | Alu(op: AluOp, rm: Operand, imm: Word) | Test(rm: Operand, r: Reg)
    | CallRel(rel: Word) | CallRm(rm: Operand)
    | JmpRel(rel: Word) | JmpRm(rm: Operand) | Jcc(cc: nat, rel: Word) | Loop(kind: LoopKind, rel: Word)
    | Ret(pop: Word)

  /** A decoded instruction and its length in bytes. */
  datatype Fetched = Fetched(insn: Insn, len: nat)

  // --- status flags ---

  function BitAnd(a: nat, b: nat): (r: nat)
    ensures r <= a && r <= b
  {
    if a == 0 || b == 0 then 0 else 2 * BitAnd(a / 2, b / 2) + (a % 2) * (b % 2)
  }

  function BitCount(a: nat): nat {
    if a == 0 then 0 else a % 2 + BitCount(a / 2)
  }

  predicate Sign(w: Word) {
    w >= 0x8000_0000
  }

  function StatusOf(carry: bool, adjust: bool, overflow: bool, r: Word): Word {
    (if carry then 1 else 0) + (if BitCount(r % 256) % 2 == 0 then 4 else 0) + (if adjust then 0x10 else 0) +
    (if r == 0 then 0x40 else 0) + (if Sign(r) then 0x80 else 0) + (if overflow then 0x800 else 0)
  }

  function AluResult(op: AluOp, a: Word, b: Word): Word {
    match op
    case Add => Wrap(a + b)
    case And => BitAnd(a, b)
    case Sub => Wrap(a - b)
    case Cmp => Wrap(a - b)
  }

  function AluFlags(op: AluOp, a: Word, b: Word): Word {
    var r := AluResult(op, a, b);
    match op
    case Add => StatusOf(r < a, r % 16 < a % 16, Sign(a) == Sign(b) && Sign(r) != Sign(a), r)
    case And => StatusOf(false, false, false, r)
    case Sub => StatusOf(a < b, a % 16 < b % 16, Sign(a) != Sign(b) && Sign(r) != Sign(a), r)
    case Cmp => StatusOf(a < b, a % 16 < b % 16, Sign(a) != Sign(b) && Sign(r) != Sign(a), r)
  }

  predicate FlagSet(flags: Word, bit: nat)
    requires bit > 0
  {
    flags / bit % 2 == 1
  }

  /** The condition of `jcc` with condition code `cc`: odd codes negate the even code below. */
  predicate Taken(cc: nat, flags: Word) {
    var c, z, s, o := FlagSet(flags, 1), FlagSet(flags, 0x40), FlagSet(flags, 0x80), FlagSet(flags, 0x800);
    var holds :=
      match cc / 2 % 8
      case 0 => o
      case 1 => c
      case 2 => z
      case 3 => c || z
      case 4 => s
      case 5 => FlagSet(flags, 4)
      case 6 => s != o
      case _ => z || s != o;
    if cc % 2 == 0 then holds else !holds
  }

  /** LOOP counts ECX down and leaves the flags alone; JECXZ only looks at it. */
  function LoopCount(kind: LoopKind, ecx: Word): Word {
    if kind == JumpIfEcxZero then ecx else Wrap(ecx - 1)
  }

  predicate LoopTaken(kind: LoopKind, ecx: Word, flags: Word) {
    match kind
    case JumpIfEcxZero => ecx == 0
    case LoopAlways => Wrap(ecx - 1) != 0
    case LoopEqual => Wrap(ecx - 1) != 0 && FlagSet(flags, 0x40)
    case LoopNotEqual => Wrap(ecx - 1) != 0 && !FlagSet(flags, 0x40)
  }

  // --- execution ---

  function Address(rm: Operand, regs: Regs): Word
    requires rm.At?
  {
    match rm.base
    case None => rm.disp
    case Some(b) => Wrap(regs.Get(b) + rm.disp)
  }

  function Value(rm: Operand, s: State): Word {
    if rm.InReg? then s.regs.Get(rm.r) else LoadWord(s.mem, Address(rm, s.regs))
  }

  function Assign(rm: Operand, w: Word, s: State): State {
    if rm.InReg? then s.(regs := s.regs.Set(rm.r, w)) else s.(mem := StoreWord(s.mem, Address(rm, s.regs), w))
  }

  function PushBytes(s: State, bs: seq<Byte>): State {
    var sp := Wrap(s.regs.esp - |bs|);
    s.(regs := s.regs.(esp := sp), mem := Store(s.mem, sp, bs))
  }

  function Push(s: State, w: Word): State {
    PushBytes(s, LE(w))
  }

  function Top(s: State): Word {
    LoadWord(s.mem, s.regs.esp)
  }

  function Drop(s: State, n: nat): State {
    s.(regs := s.regs.(esp := Wrap(s.regs.esp + n)))
  }

  /** PUSHAD's 32 bytes, lowest address first. */
  function RegsImage(r: Regs): (bs: seq<Byte>)
    ensures |bs| == 32
  {
    LE(r.edi) + LE(r.esi) + LE(r.ebp) + LE(r.esp) + LE(r.ebx) + LE(r.edx) + LE(r.ecx) + LE(r.eax)
  }

  /** The registers POPAD takes from 32 bytes; the saved ESP is skipped. */
  function RegsFromImage(bs: seq<Byte>, esp: Word): Regs
    requires |bs| == 32
  {
    Regs(FromLE(bs[28..32]), FromLE(bs[24..28]), FromLE(bs[20..24]), FromLE(bs[16..20]),
         esp, FromLE(bs[8..12]), FromLE(bs[4..8]), FromLE(bs[0..4]))
  }

  function Exec(f: Fetched, s: State): State {
    var next := Wrap(s.eip + f.len);
    var t := s.(eip := next);
    match f.insn
    case Nop => t
    case Pushad => PushBytes(t, RegsImage(s.regs))
    case Popad => t.(regs := RegsFromImage(Load(s.mem, s.regs.esp, 32), Wrap(s.regs.esp + 32)))
    case Pushfd => Push(t, s.flags)
    case Popfd => Drop(t.(flags := Top(s)), 4)
    case PushReg(r) => Push(t, s.regs.Get(r))
    case PushImm(imm) => Push(t, imm)
    case PushRm(rm) => Push(t, Value(rm, s))
    case PopReg(r) => var d := Drop(t, 4); d.(regs := d.regs.Set(r, Top(s)))
    case MovImm(r, imm) => t.(regs := s.regs.Set(r, imm))
    case MovLoad(r, rm) => t.(regs := s.regs.Set(r, Value(rm, s)))
    case MovStore(rm, r) => Assign(rm, s.regs.Get(r), t)
    case Lea(r, rm) => if rm.At? then t.(regs := s.regs.Set(r, Address(rm, s.regs))) else t
    case Alu(op, rm, imm) =>
      var v := Value(rm, s);
      var t' := t.(flags := AluFlags(op, v, imm));
      if op == Cmp then t' else Assign(rm, AluResult(op, v, imm), t')
    case Test(rm, r) => t.(flags := AluFlags(And, Value(rm, s), s.regs.Get(r)))
    case CallRel(rel) => Push(t, next).(eip := Wrap(next + rel))
    case CallRm(rm) => Push(t, next).(eip := Value(rm, s))
    case JmpRel(rel) => t.(eip := Wrap(next + rel))
    case JmpRm(rm) => t.(eip := Value(rm, s))
    case Jcc(cc, rel) => if Taken(cc, s.flags) then t.(eip := Wrap(next + rel)) else t
    case Loop(kind, rel) =>
      t.(regs := s.regs.(ecx := LoopCount(kind, s.regs.ecx)),
         eip := if LoopTaken(kind, s.regs.ecx, s.flags) then Wrap(next + rel) else next)
    case Ret(pop) => Drop(t.(eip := Top(s)), 4 + pop)
  }

  // --- what an instruction reads and writes ---

  const NOWHERE := Span(0, 0)

  function OperandSpan(rm: Operand, s: State): Span {
    if rm.InReg? then NOWHERE else Span(Address(rm, s.regs), 4)
  }

  /** The data bytes an instruction may read. */
  function Reads(i: Insn, s: State): Span {
    match i
    case Popad => Span(s.regs.esp, 32)
    case Popfd | PopReg(_) | Ret(_) => Span(s.regs.esp, 4)
    case PushRm(rm) => OperandSpan(rm, s)
    case MovLoad(_, rm) => OperandSpan(rm, s)
    case Alu(_, rm, _) => OperandSpan(rm, s)
    case Test(rm, _) => OperandSpan(rm, s)
    case CallRm(rm) => OperandSpan(rm, s)
    case JmpRm(rm) => OperandSpan(rm, s)
    case _ => NOWHERE
  }

  /** The bytes an instruction writes. */
  function Writes(i: Insn, s: State): Span {
    match i
    case Pushad => Span(Wrap(s.regs.esp - 32), 32)
    case Pushfd | PushReg(_) | PushImm(_) | PushRm(_) | CallRel(_) | CallRm(_) => Span(Wrap(s.regs.esp - 4), 4)
    case MovStore(rm, _) => OperandSpan(rm, s)
    case Alu(op, rm, _) => if op == Cmp then NOWHERE else OperandSpan(rm, s)
    case _ => NOWHERE
  }

  predicate ReadsFlags(i: Insn) {
    i.Pushfd? || i.Jcc? || (i.Loop? && (i.kind == LoopEqual || i.kind == LoopNotEqual))
  }

  predicate SetsFlags(i: Insn) {
    i.Popfd? || i.Alu? || i.Test?
  }

  /** Meaning does not mention EIP except to fall through: the bytes can run at any address. */
  predicate Relocatable(i: Insn) {
    !i.CallRel? && !i.CallRm? && !i.JmpRel? && !i.Jcc? && !i.Loop?
  }

  /** Control goes somewhere other than the next instruction. */
  predicate Leaves(i: Insn) {
    i.CallRel? || i.CallRm? || i.JmpRel? || i.JmpRm? || i.Jcc? || i.Loop? || i.Ret?
  }

  lemma NowhereEmpty()
    ensures Addresses(NOWHERE) == iset{}
  {
  }

  // --- single instructions in closed form ---

  lemma PushadIs(s: State)
    ensures Exec(Fetched(Pushad, 1), s)
         == State(s.regs.(esp := Wrap(s.regs.esp - 32)), s.flags, Wrap(s.eip + 1),
                  Store(s.mem, Wrap(s.regs.esp - 32), RegsImage(s.regs)))
    ensures Writes(Pushad, s) == Span(Wrap(s.regs.esp - 32), 32)
  {
  }

  lemma PopadIs(s: State)
    ensures Exec(Fetched(Popad, 1), s)
         == State(RegsFromImage(Load(s.mem, s.regs.esp, 32), Wrap(s.regs.esp + 32)), s.flags, Wrap(s.eip + 1), s.mem)
    ensures Writes(Popad, s) == NOWHERE
  {
  }

  lemma AddEspIs(s: State, n: Word)
    ensures Exec(Fetched(Alu(Add, InReg(ESP), n), 3), s)
         == State(s.regs.(esp := Wrap(s.regs.esp + n)), AluFlags(Add, s.regs.esp, n), Wrap(s.eip + 3), s.mem)
    ensures Writes(Alu(Add, InReg(ESP), n), s) == NOWHERE
  {
  }

  lemma JmpRelIs(rel: Word, s: State)
    ensures Exec(Fetched(JmpRel(rel), 5), s) == s.(eip := Wrap(Wrap(s.eip + 5) + rel))
    ensures Writes(JmpRel(rel), s) == NOWHERE
  {
  }

  lemma CallRelIs(rel: Word, s: State)
    ensures Exec(Fetched(CallRel(rel), 5), s)
         == State(s.regs.(esp := Wrap(s.regs.esp - 4)), s.flags, Wrap(Wrap(s.eip + 5) + rel),
                  StoreWord(s.mem, Wrap(s.regs.esp - 4), Wrap(s.eip + 5)))
    ensures Writes(CallRel(rel), s) == Span(Wrap(s.regs.esp - 4), 4)
  {
  }

  lemma PushfdIs(s: State)
    ensures Exec(Fetched(Pushfd, 1), s)
         == State(s.regs.(esp := Wrap(s.regs.esp - 4)), s.flags, Wrap(s.eip + 1),
                  StoreWord(s.mem, Wrap(s.regs.esp - 4), s.flags))
    ensures Writes(Pushfd, s) == Span(Wrap(s.regs.esp - 4), 4)
  {
  }

  lemma PopfdIs(s: State)
    ensures Exec(Fetched(Popfd, 1), s)
         == State(s.regs.(esp := Wrap(s.regs.esp + 4)), Top(s), Wrap(s.eip + 1), s.mem)
    ensures Writes(Popfd, s) == NOWHERE
  {
  }

  lemma PushImmIs(imm: Word, len: nat, s: State)
    ensures Exec(Fetched(PushImm(imm), len), s)
         == State(s.regs.(esp := Wrap(s.regs.esp - 4)), s.flags, Wrap(s.eip + len),
                  StoreWord(s.mem, Wrap(s.regs.esp - 4), imm))
    ensures Writes(PushImm(imm), s) == Span(Wrap(s.regs.esp - 4), 4)
  {
  }

  lemma PopRegIs(s: State)
    ensures Exec(Fetched(PopReg(EAX), 1), s)
         == s.(regs := s.regs.(eax := Top(s), esp := Wrap(s.regs.esp + 4)), eip := Wrap(s.eip + 1))
    ensures Writes(PopReg(EAX), s) == NOWHERE
  {
  }

  lemma StoreAbsIs(addr: Word, r: Reg, len: nat, s: State)
    ensures Exec(Fetched(MovStore(At(None, addr), r), len), s)
         == s.(eip := Wrap(s.eip + len), mem := StoreWord(s.mem, addr, s.regs.Get(r)))
    ensures Writes(MovStore(At(None, addr), r), s) == Span(addr, 4)
  {
  }

  lemma LoadStackIs(off: Word, len: nat, s: State)
    ensures Exec(Fetched(MovLoad(EAX, At(Some(ESP), off)), len), s)
         == s.(eip := Wrap(s.eip + len), regs := s.regs.(eax := LoadWord(s.mem, Wrap(s.regs.esp + off))))
    ensures Writes(MovLoad(EAX, At(Some(ESP), off)), s) == NOWHERE
  {
  }

  lemma PushAbsIs(addr: Word, s: State)
    ensures Exec(Fetched(PushRm(At(None, addr)), 6), s)
         == State(s.regs.(esp := Wrap(s.regs.esp - 4)), s.flags, Wrap(s.eip + 6),
                  StoreWord(s.mem, Wrap(s.regs.esp - 4), LoadWord(s.mem, addr)))
    ensures Writes(PushRm(At(None, addr)), s) == Span(Wrap(s.regs.esp - 4), 4)
  {
  }

  lemma RetIs(s: State)
    ensures Exec(Fetched(Ret(0), 1), s) == s.(eip := Top(s), regs := s.regs.(esp := Wrap(s.regs.esp + 4)))
    ensures Writes(Ret(0), s) == NOWHERE
  {
  }

  lemma PushRegIs(r: Reg, s: State)
    ensures Exec(Fetched(PushReg(r), 1), s)
         == State(s.regs.(esp := Wrap(s.regs.esp - 4)), s.flags, Wrap(s.eip + 1),
                  StoreWord(s.mem, Wrap(s.regs.esp - 4), s.regs.Get(r)))
    ensures Writes(PushReg(r), s) == Span(Wrap(s.regs.esp - 4), 4)
  {
  }

  lemma MovImmIs(imm: Word, s: State)
    ensures Exec(Fetched(MovImm(EAX, imm), 5), s) == s.(regs := s.regs.(eax := imm), eip := Wrap(s.eip + 5))
    ensures Writes(MovImm(EAX, imm), s) == NOWHERE
  {
  }

  lemma LeaIs(rm: Operand, s: State)
    requires rm.At?
    ensures Exec(Fetched(Lea(EAX, rm), 3), s) == s.(regs := s.regs.(eax := Address(rm, s.regs)), eip := Wrap(s.eip + 3))
    ensures Writes(Lea(EAX, rm), s) == NOWHERE
  {
  }

  lemma CallRmIs(rm: Operand, len: nat, s: State)
    ensures Exec(Fetched(CallRm(rm), len), s)
         == State(s.regs.(esp := Wrap(s.regs.esp - 4)), s.flags, Value(rm, s),
                  StoreWord(s.mem, Wrap(s.regs.esp - 4), Wrap(s.eip + len)))
    ensures Writes(CallRm(rm), s) == Span(Wrap(s.regs.esp - 4), 4)
  {
  }

  lemma EightWords(a: seq<Byte>, b: seq<Byte>, c: seq<Byte>, d: seq<Byte>, e: seq<Byte>, f: seq<Byte>, g: seq<Byte>, h: seq<Byte>)
    requires |a| == |b| == |c| == |d| == |e| == |f| == |g| == |h| == 4
    ensures var bs := a + b + c + d + e + f + g + h;
            && bs[0..4] == a && bs[4..8] == b && bs[8..12] == c && bs[16..20] == e
            && bs[20..24] == f && bs[24..28] == g && bs[28..32] == h
  {
  }

  /** POPAD undoes PUSHAD. */
  lemma ImageRoundTrip(r: Regs)
    ensures RegsFromImage(RegsImage(r), r.esp) == r
  {
    hide LE, FromLE;
    EightWords(LE(r.edi), LE(r.esi), LE(r.ebp), LE(r.esp), LE(r.ebx), LE(r.edx), LE(r.ecx), LE(r.eax));
    FromLEofLE(r.edi); FromLEofLE(r.esi); FromLEofLE(r.ebp); FromLEofLE(r.ebx);
    FromLEofLE(r.edx); FromLEofLE(r.ecx); FromLEofLE(r.eax);
  }

  lemma ExecFrame(f: Fetched, s: State)
    ensures AgreeOutside(s.mem, Exec(f, s).mem, Addresses(Writes(f.insn, s)))
  {
    hide Store, Load, Wrap, LE, FromLE, RegsImage, RegsFromImage, AluFlags, AluResult, Taken;
    if Pushes(f.insn) {
      ExecPush(f, s);
      StoreFrame(s.mem, Writes(f.insn, s).start, Pushed(f.insn, s, Wrap(s.eip + f.len)));
    } else {
      match f.insn
      case MovStore(rm, r) => if rm.At? { StoreFrame(s.mem, Address(rm, s.regs), LE(s.regs.Get(r))); }
      case Alu(op, rm, imm) => if rm.At? { StoreFrame(s.mem, Address(rm, s.regs), LE(AluResult(op, Value(rm, s), imm))); }
      case _ =>
    }
  }

  lemma ExecNext(f: Fetched, s: State)
    requires !Leaves(f.insn)
    ensures Exec(f, s).eip == Wrap(s.eip + f.len)
  {
  }

  ghost predicate SameButHidden(u: State, p: State, t: iset<Word>, flagsHidden: bool) {
    && u.regs == p.regs
    && (!flagsHidden ==> u.flags == p.flags)
    && AgreeOutside(u.mem, p.mem, t)
  }

  lemma ValueAgree(rm: Operand, u: State, p: State, t: iset<Word>)
    requires u.regs == p.regs && AgreeOutside(u.mem, p.mem, t)
    requires Addresses(OperandSpan(rm, u)) !! t
    ensures Value(rm, u) == Value(rm, p)
  {
    if rm.At? {
      LoadAgree(u.mem, p.mem, t, Address(rm, u.regs), 4);
    }
  }

  lemma AssignAgree(rm: Operand, w: Word, u: State, p: State, t: iset<Word>, flagsHidden: bool)
    requires SameButHidden(u, p, t, flagsHidden)
    ensures SameButHidden(Assign(rm, w, u), Assign(rm, w, p), t - Addresses(OperandSpan(rm, u)), flagsHidden)
  {
    if rm.At? {
      StoreAgree(u.mem, p.mem, t, Address(rm, u.regs), LE(w));
    }
  }

  lemma PushAgree(bs: seq<Byte>, u: State, p: State, t: iset<Word>, flagsHidden: bool)
    requires SameButHidden(u, p, t, flagsHidden)
    ensures SameButHidden(PushBytes(u, bs), PushBytes(p, bs),
                          t - Addresses(Span(Wrap(u.regs.esp - |bs|), |bs|)), flagsHidden)
  {
    StoreAgree(u.mem, p.mem, t, Wrap(u.regs.esp - |bs|), bs);
  }

  predicate Pushes(i: Insn) {
    i.Pushad? || i.Pushfd? || i.PushReg? || i.PushImm? || i.PushRm? || i.CallRel? || i.CallRm?
  }

  /** What a pushing instruction stores; a call stores the address `next` of its successor. */
  function Pushed(i: Insn, s: State, next: Word): seq<Byte>
    requires Pushes(i)
  {
    match i
    case Pushad => RegsImage(s.regs)
    case Pushfd => LE(s.flags)
    case PushReg(r) => LE(s.regs.Get(r))
    case PushImm(imm) => LE(imm)
    case PushRm(rm) => LE(Value(rm, s))
    case _ => LE(next)
  }

  lemma ExecPush(f: Fetched, s: State)
    requires Pushes(f.insn)
    ensures var next := Wrap(s.eip + f.len);
            var bs := Pushed(f.insn, s, next);
            var q := PushBytes(s, bs);
            && Exec(f, s) == q.(eip := Exec(f, s).eip)
            && Writes(f.insn, s) == Span(Wrap(s.regs.esp - |bs|), |bs|)
  {
  }

  lemma PushedAgree(i: Insn, u: State, p: State, t: iset<Word>, flagsHidden: bool, nu: Word, np: Word)
    requires Pushes(i)
    requires SameButHidden(u, p, t, flagsHidden)
    requires Addresses(Reads(i, u)) !! t
    requires ReadsFlags(i) ==> !flagsHidden
    requires Relocatable(i) || nu == np
    ensures Pushed(i, u, nu) == Pushed(i, p, np)
  {
    if i.PushRm? {
      ValueAgree(i.rm, u, p, t);
    }
  }

  lemma JumpAgree(f: Fetched, u: State, p: State, t: iset<Word>, flagsHidden: bool)
    requires SameButHidden(u, p, t, flagsHidden)
    requires Addresses(Reads(f.insn, u)) !! t
    requires ReadsFlags(f.insn) ==> !flagsHidden
    requires Relocatable(f.insn) || u.eip == p.eip
    ensures u.eip == p.eip || Leaves(f.insn) ==> Exec(f, u).eip == Exec(f, p).eip
  {
    hide Store, Load, LE, FromLE, RegsImage, RegsFromImage, AluFlags, AluResult;
    match f.insn
    case Ret(_) => LoadAgree(u.mem, p.mem, t, u.regs.esp, 4);
    case JmpRm(rm) => ValueAgree(rm, u, p, t);
    case CallRm(rm) => ValueAgree(rm, u, p, t);
    case _ =>
  }

  /** Two states that differ in hidden memory only, and perhaps in EIP, stay so under one
      instruction that reads nothing hidden; what it writes is hidden no longer. */
  lemma ExecAgree(f: Fetched, u: State, p: State, t: iset<Word>, flagsHidden: bool)
    requires SameButHidden(u, p, t, flagsHidden)
    requires Addresses(Reads(f.insn, u)) !! t
    requires ReadsFlags(f.insn) ==> !flagsHidden
    requires Relocatable(f.insn) || u.eip == p.eip
    ensures SameButHidden(Exec(f, u), Exec(f, p), t - Addresses(Writes(f.insn, u)), flagsHidden && !SetsFlags(f.insn))
    ensures u.eip == p.eip || Leaves(f.insn) ==> Exec(f, u).eip == Exec(f, p).eip
  {
    hide Store, Load, LE, FromLE, RegsImage, RegsFromImage, AluFlags, AluResult;
    JumpAgree(f, u, p, t, flagsHidden);
    if Pushes(f.insn) {
      var nu, np := Wrap(u.eip + f.len), Wrap(p.eip + f.len);
      PushedAgree(f.insn, u, p, t, flagsHidden, nu, np);
      ExecPush(f, u);
      ExecPush(f, p);
      PushAgree(Pushed(f.insn, u, nu), u, p, t, flagsHidden);
    } else {
      OtherAgree(f, u, p, t, flagsHidden);
    }
  }

  lemma OtherAgree(f: Fetched, u: State, p: State, t: iset<Word>, flagsHidden: bool)
    requires !Pushes(f.insn)
    requires SameButHidden(u, p, t, flagsHidden)
    requires Addresses(Reads(f.insn, u)) !! t
    requires ReadsFlags(f.insn) ==> !flagsHidden
    ensures SameButHidden(Exec(f, u), Exec(f, p), t - Addresses(Writes(f.insn, u)), flagsHidden && !SetsFlags(f.insn))
  {
    hide Store, Load, LE, FromLE, RegsImage, RegsFromImage, AluFlags, AluResult, Taken;
    var tu, tp := u.(eip := Wrap(u.eip + f.len)), p.(eip := Wrap(p.eip + f.len));
    match f.insn
    case Popad => LoadAgree(u.mem, p.mem, t, u.regs.esp, 32);
    case Popfd | PopReg(_) => LoadAgree(u.mem, p.mem, t, u.regs.esp, 4);
    case MovLoad(_, rm) => ValueAgree(rm, u, p, t);
    case MovStore(rm, r) => AssignAgree(rm, u.regs.Get(r), tu, tp, t, flagsHidden);
    case Alu(_, _, _) => AluAgree(f, u, p, t, flagsHidden);
    case Test(rm, _) => ValueAgree(rm, u, p, t);
    case _ =>
  }

  lemma AluAgree(f: Fetched, u: State, p: State, t: iset<Word>, flagsHidden: bool)
    requires f.insn.Alu?
    requires SameButHidden(u, p, t, flagsHidden)
    requires Addresses(OperandSpan(f.insn.rm, u)) !! t
    ensures SameButHidden(Exec(f, u), Exec(f, p), t - Addresses(Writes(f.insn, u)), false)
  {
    var Alu(op, rm, imm) := f.insn;
    ValueAgree(rm, u, p, t);
    var v := Value(rm, u);
    var fl, r := AluFlags(op, v, imm), AluResult(op, v, imm);
    AssignAgree(rm, r, u.(eip := Wrap(u.eip + f.len), flags := fl), p.(eip := Wrap(p.eip + f.len), flags := fl), t, false);
  }
}
