/** The inline detour of the LoadLibrary functions, and the once-only installation behind it. */
module Detour {
  import opened Words
  import opened Machine
  import opened Decoder
  import opened Execution
  import opened Hooks
  import opened Mobility
  import opened Patch
  import opened Relocation
  import opened Trampoline

  const STOLEN := 5
  const PAGE := 0x1000

  predicate BadOpcode(b: Byte) {
    b == 0xE8 || b == 0xE9 || b == 0xEB || (0x70 <= b && b <= 0x7F) || b == 0xC3 || b == 0xC2
  }

  /** The byte-wise check: none of the first five bytes, opcode or operand, looks like a relative branch or a return. */
  method SafeToHotpatch(bytes: seq<Byte>) returns (ok: bool)
    requires |bytes| >= STOLEN
    ensures ok <==> forall i :: 0 <= i < 5 ==> bytes[i] !in {0xE8, 0xE9, 0xEB, 0xC2, 0xC3} && !(0x70 <= bytes[i] <= 0x7F)
    ensures ok <==> forall i :: 0 <= i < STOLEN ==> !BadOpcode(bytes[i])
  {
    var i := 0;
    while i < STOLEN
      invariant 0 <= i <= STOLEN
      invariant forall j :: 0 <= j < i ==> !BadOpcode(bytes[j])
    {
      var b := bytes[i];
      if b == 0xE8 || b == 0xE9 || b == 0xEB { return false; }
      if b >= 0x70 && b <= 0x7F { return false; }
      if b == 0xC3 || b == 0xC2 { return false; }
      i := i + 1;
    }
    return true;
  }

  /** Neither calls nor leaves the moved code by a relative jump, as far as the check lets such code through. */
  ghost predicate PassesMovably(l: seq<Fetched>, i: nat)
    requires i < |l|
  {
    !l[i].insn.CallRm? && (l[i].insn.Loop? ==> Boundary(l, Wrap(OffsetOf(l, i + 1) + l[i].insn.rel)))
  }

  lemma OpcodeTells(bs: seq<Byte>)
    requires Decode(bs).Some? && !BadOpcode(bs[0])
    ensures var i := Decode(bs).value.insn; !i.CallRel? && !i.JmpRel? && !i.Jcc? && !i.Ret?
  {
  }

  /** What the check is worth: of whole instructions that pass it, one does the same at both addresses from every
      state if and only if it is no indirect call and, being LOOP or JECXZ, lands on an instruction of the moved code. */
  lemma CheckedCodeRelocates(code: seq<Byte>, l: seq<Fetched>, i: nat, target: Word, tramp: Word)
    requires Disassemble(code) == Some(l) && i < |l| && |code| < SIZE && target != tramp
    requires forall k :: 0 <= k < |code| ==> !BadOpcode(code[k])
    ensures MeansTheSame(l, i, target, tramp) <==> PassesMovably(l, i)
  {
    hide Decode, Disassemble, Boundary, MeansTheSame, OffsetOf, Wrap;
    MeansTheSameExactlyWhen(code, l, i, target, tramp);
    OffsetsInside(code, l, i);
    var rest := code[OffsetOf(l, i)..];
    DecodeLength(rest);
    OpcodeTells(rest);
  }

  /** `call eax` and three NOPs pass the check, and from every state the moved call leaves another word on the stack. */
  lemma CheckMissesIndirectCall(target: Word, tramp: Word, u: State)
    requires target != tramp && u.eip == target
    ensures var code: seq<Byte> := [0xFF, 0xD0, 0x90, 0x90, 0x90];
            && (forall i :: 0 <= i < |code| ==> !BadOpcode(code[i])) && Encodes([0xFF, 0xD0], CallRm(InReg(EAX)))
            && var f := Fetched(CallRm(InReg(EAX)), 2); Top(Exec(f, u)) != Top(Exec(f, u.(eip := tramp)))
  {
    hide Exec, Top, Decode;
    CallEaxEncodes();
    ReplayedCallShows(Fetched(CallRm(InReg(EAX)), 2), u, u.(eip := tramp));
  }

  lemma CallEaxEncodes()
    ensures Encodes([0xFF, 0xD0], CallRm(InReg(EAX))) && Encodes([0xE3, 0x05], Loop(JumpIfEcxZero, 5))
  {
  }

  /** `jecxz` over the end and three NOPs pass the check; with ECX zero the original leaves for one address and the
      copy for another. */
  lemma CheckMissesJecxz(target: Word, tramp: Word, u: State)
    requires target != tramp && u.eip == target && u.regs.ecx == 0
    ensures var code: seq<Byte> := [0xE3, 0x05, 0x90, 0x90, 0x90];
            && (forall i :: 0 <= i < |code| ==> !BadOpcode(code[i])) && Encodes([0xE3, 0x05], Loop(JumpIfEcxZero, 5))
            && var f := Fetched(Loop(JumpIfEcxZero, 5), 2);
               Exec(f, u).eip == Wrap(target + 7) && Exec(f, u.(eip := tramp)).eip == Wrap(tramp + 7) != Wrap(target + 7)
  {
    WrapInjective(target, tramp, 7);
    WrapShift(target + 2, 5);
    WrapShift(tramp + 2, 5);
  }

  // --- the detour ---

  /** The original five bytes and a jump to the sixth. */
  function DetourBytes(tramp: Word, target: Word, first: seq<Byte>): seq<Byte> {
    first + Branch(0xE9, Wrap(tramp + STOLEN), Wrap(target + STOLEN))
  }

  function Breakpoints(): (bs: seq<Byte>)
    ensures |bs| == PAGE
  {
    seq(PAGE, i => 0xCC)
  }

  /** Memory after a successful detour. */
  function Detoured(m: Memory, target: Word, hook: Word, tramp: Word): Memory {
    var filled := Store(m, tramp, Breakpoints());
    var written := Store(filled, tramp, DetourBytes(tramp, target, Load(m, target, STOLEN)));
    Store(written, target, Branch(0xE9, target, hook))
  }

  /** `push ebp`, `mov ebp, esp` and the first two bytes of `sub esp, imm8`. */
  const CUT: seq<Byte> := [0x55, 0x8B, 0xEC, 0x83, 0xEC]

  /** Five bytes that cut an instruction pass the check too: in the copy the opcode of the jump back becomes the
      operand of the cut instruction, and control goes on inside the jump's displacement with ESP off by 23. */
  lemma CheckMissesCutInstruction(target: Word, tramp: Word, p: State)
    requires tramp + 10 <= SIZE && CodeAt(p.mem, tramp, DetourBytes(tramp, target, CUT)) && p.eip == tramp + 3
    ensures Disassemble(CUT).None? && forall i :: 0 <= i < |CUT| ==> !BadOpcode(CUT[i])
    ensures Step(p).Some? && Step(p).value.eip == tramp + 6 && Step(p).value.regs.esp == Wrap(p.regs.esp + 23)
  {
    hide Exec, Decode, Disassemble, Branch;
    var bs := DetourBytes(tramp, target, CUT);
    CutUndecoded();
    assert bs[5] == 0xE9 by { JumpOpcode(Wrap(tramp + STOLEN), Wrap(target + STOLEN)); }
    CutGoesOn(bs[3..]);
    FetchCode(p.mem, tramp, bs, 3);
    CutRuns(p);
  }

  const CUT_SUB := Fetched(Alu(Sub, InReg(ESP), SignExtend(0xE9)), 3)

  lemma JumpOpcode(from: Word, to: Word)
    ensures Branch(0xE9, from, to)[0] == 0xE9
  {
  }

  lemma CutGoesOn(bs: seq<Byte>)
    requires |bs| > 3 && bs[0] == 0x83 && bs[1] == 0xEC && bs[2] == 0xE9
    ensures Decode(bs) == Some(CUT_SUB)
  {
  }

  lemma CutRuns(p: State)
    requires p.eip + 7 <= SIZE
    ensures Exec(CUT_SUB, p).eip == p.eip + 3 && Exec(CUT_SUB, p).regs.esp == Wrap(p.regs.esp + 23)
  {
    hide AluFlags;
    WrapIs(p.regs.esp - SignExtend(0xE9), if p.regs.esp + 23 < SIZE then -1 else 0, Wrap(p.regs.esp + 23));
  }

  lemma CutUndecoded()
    ensures Disassemble(CUT).None?
  {
    assert CUT[1..] == [0x8B, 0xEC, 0x83, 0xEC] && CUT[1..][2..] == [0x83, 0xEC];
    assert Decode(CUT) == Some(Fetched(PushReg(EBP), 1));
    assert Decode(CUT[1..]).value.len == 2;
    assert Decode([0x83, 0xEC]).None?;
  }

  /** memset and memcpy into the page. */
  method CopyTo(proc: Process, a: Word, bytes: seq<Byte>)
    modifies proc
    ensures proc.mem == Store(old(proc.mem), a, bytes)
  {
    hide Store, Written;
    proc.WriteMemory(a, bytes);
    WrittenIsStore(old(proc.mem), proc.mem, a, bytes);
  }

  /** `page` is VirtualAlloc's answer, `unlocked` VirtualProtect's; 0 means the function was left alone. */
  method InlinePatch(proc: Process, target: Word, hook: Word, page: Word, unlocked: bool) returns (tramp: Word)
    requires page != 0 ==> page + PAGE <= SIZE && Addresses(Span(target, STOLEN)) !! Addresses(Span(page, PAGE))
    modifies proc
    ensures tramp != 0 ==> tramp == page && proc.mem == Detoured(old(proc.mem), target, hook, page)
    ensures tramp == 0 ==> AgreeOutside(old(proc.mem), proc.mem, Addresses(Span(page, PAGE)))
    ensures page == 0 || (exists i :: 0 <= i < STOLEN && BadOpcode(Load(old(proc.mem), target, STOLEN)[i])) ==>
              proc.mem == old(proc.mem)
    ensures tramp != 0 <==> (page != 0 && unlocked &&
                             forall i :: 0 <= i < STOLEN ==> !BadOpcode(Load(old(proc.mem), target, STOLEN)[i]))
  {
    hide Store, Addresses, Branch;
    var first := Load(proc.mem, target, STOLEN);
    var ok := SafeToHotpatch(first);
    if !ok { return 0; }
    if page == 0 { return 0; }
    StoreFrame(proc.mem, page, Breakpoints());
    CopyTo(proc, page, Breakpoints());
    ghost var filled := proc.mem;
    LoadPast(old(proc.mem), page, Breakpoints(), target, STOLEN);
    CopyTo(proc, page, Load(proc.mem, target, STOLEN));
    StoreAppend(filled, page, first, Branch(0xE9, Wrap(page + STOLEN), Wrap(target + STOLEN)));
    BackJump(page, target);
    CopyTo(proc, Wrap(page + STOLEN), [0xE9] + LE(Wrap(target + STOLEN - (page + STOLEN + 5))));
    if !unlocked {
      TwoStores(old(proc.mem), page, Breakpoints(), DetourBytes(page, target, first));
      return 0;
    }
    proc.PatchJmp(target, 0, hook);
    WordIsWrapped(target);
    return page;
  }

  lemma BackJump(page: Word, target: Word)
    ensures [0xE9] + LE(Wrap(target + STOLEN - (page + STOLEN + 5))) == Branch(0xE9, Wrap(page + STOLEN), Wrap(target + STOLEN))
  {
    WrapShift(target + STOLEN, -(Wrap(page + STOLEN) + 5));
    WrapShift(page + STOLEN, target + STOLEN - 5);
  }

  lemma TwoStores(m: Memory, a: Word, x: seq<Byte>, y: seq<Byte>)
    requires |y| <= |x| <= SIZE
    ensures AgreeOutside(m, Store(Store(m, a, x), a, y), Addresses(Span(a, |x|)))
  {
  }

  lemma DetourInPlace(m: Memory, target: Word, hook: Word, tramp: Word)
    requires target + STOLEN < SIZE && tramp + PAGE <= SIZE
    requires Addresses(Span(target, STOLEN)) !! Addresses(Span(tramp, PAGE))
    ensures var r := Detoured(m, target, hook, tramp);
            && CodeAt(r, tramp, m[target..target + STOLEN] + Branch(0xE9, tramp + STOLEN, target + STOLEN))
            && CodeAt(r, target, Branch(0xE9, target, hook))
            && AgreeOutside(m, r, Addresses(Span(target, STOLEN)) + Addresses(Span(tramp, PAGE)))
  {
    LoadIsSlice(m, target, STOLEN);
    hide Store, Addresses, Branch, Load;
    var first := m[target..target + STOLEN];
    var code := DetourBytes(tramp, target, first);
    var filled := Store(m, tramp, Breakpoints());
    var written := Store(filled, tramp, code);
    WordIsWrapped(tramp + STOLEN);
    WordIsWrapped(target + STOLEN);
    StoredCode(filled, tramp, code);
    TwoStores(m, tramp, Breakpoints(), code);
    PartInside(tramp, PAGE, 0, 10);
    StoreFrame(written, target, Branch(0xE9, target, hook));
    StoredCode(written, target, Branch(0xE9, target, hook));
    CodeSpared(written, Detoured(m, target, hook, tramp), tramp, code, Addresses(Span(target, STOLEN)));
  }

  /** Whoever calls the function comes to the hook; the rest of the trampoline's page is breakpoints. */
  lemma DetouredCallReachesHook(m: Memory, target: Word, hook: Word, tramp: Word, s: State)
    requires target + STOLEN < SIZE && tramp + PAGE <= SIZE
    requires Addresses(Span(target, STOLEN)) !! Addresses(Span(tramp, PAGE))
    requires s.mem == Detoured(m, target, hook, tramp) && s.eip == target
    ensures Step(s) == Some(s.(eip := hook))
    ensures forall x: Word :: tramp + 10 <= x < tramp + 0x1000 ==> s.mem[x] == 0xCC
  {
    hide Store, Branch, Step, Detoured;
    DetourInPlace(m, target, hook, tramp);
    JumpLands(s, target, hook);
    forall x: Word | tramp + 10 <= x < tramp + 0x1000 ensures s.mem[x] == 0xCC {
      PageRest(m, target, hook, tramp, x);
    }
  }

  lemma PageRest(m: Memory, target: Word, hook: Word, tramp: Word, x: Word)
    requires target + STOLEN < SIZE && tramp + PAGE <= SIZE && tramp + 10 <= x < tramp + PAGE
    requires Addresses(Span(target, STOLEN)) !! Addresses(Span(tramp, PAGE))
    ensures Detoured(m, target, hook, tramp)[x] == 0xCC
  {
    hide Branch;
    WrapInside(tramp, PAGE, x);
    WrapInside(tramp, 10, x);
    WrapInside(target, STOLEN, x);
    assert x in Addresses(Span(tramp, PAGE));
  }

  // --- whole calls through the trampoline ---

  /** A detour: the function, its trampoline, the five bytes and the instructions they are. */
  datatype Site = Site(target: Word, tramp: Word, first: seq<Byte>, l: seq<Fetched>)
  {
    ghost predicate Valid() {
      && |first| == STOLEN && target + STOLEN < SIZE && tramp + PAGE <= SIZE
      && Addresses(Span(target, STOLEN)) !! Addresses(Span(tramp, PAGE))
      && Disassemble(first) == Some(l)
      && forall i :: 0 <= i < |l| ==> Movable(l, i)
    }

    /** The bytes in which the two processes differ. */
    ghost function Hidden(): iset<Word> {
      Addresses(Span(target, STOLEN)) + Addresses(Span(tramp, PAGE))
    }

    function TrampolineBytes(): seq<Byte>
      requires target + STOLEN < SIZE && tramp + STOLEN < SIZE
    {
      first + Branch(0xE9, tramp + STOLEN, target + STOLEN)
    }

    /** Instruction `i` of the five bytes starts at `a`. */
    ghost predicate StartsAt(i: int, a: Word) {
      0 <= i < |l| && a == Wrap(target + OffsetOf(l, i))
    }

    ghost predicate Inside(a: Word) {
      exists i :: StartsAt(i, a)
    }
  }

  /** The unpatched process at `u` and the patched one at `p`; `inside` while they run their copies of the five bytes. */
  ghost predicate Beside(d: Site, u: State, p: State, inside: bool)
    requires d.Valid()
  {
    && SameButHidden(u, p, d.Hidden(), false)
    && CodeAt(u.mem, d.target, d.first) && CodeAt(p.mem, d.tramp, d.TrampolineBytes())
    && if inside then exists i :: d.StartsAt(i, u.eip) && p.eip == Wrap(d.tramp + OffsetOf(d.l, i)) else u.eip == p.eip
  }

  /** After instruction `i` the process still runs the five bytes, unless it has left them by address. */
  ghost predicate StaysInside(d: Site, i: Insn, a: Word) {
    !i.JmpRm? && !i.Ret? && d.Inside(a)
  }

  /** `n` steps of the unpatched process that use neither the five bytes nor the page as data, and come to the five
      bytes from elsewhere no more (they would find the jump to the hook). */
  ghost predicate Behaves(d: Site, u: State, inside: bool, n: nat)
    decreases n
  {
    n == 0 ||
    var f := Fetch(u.mem, u.eip);
    && f.Some? && Quiet(f.value.insn, u, Taint(d.Hidden(), false), d.Hidden())
    && (!inside ==> Addresses(Span(u.eip, f.value.len)) !! d.Hidden())
    && var u' := Exec(f.value, u); Behaves(d, u', inside && StaysInside(d, f.value.insn, u'.eip), n - 1)
  }

  /** Whether the process is still inside after those steps. */
  ghost predicate InsideAfter(d: Site, u: State, inside: bool, n: nat)
    decreases n
  {
    if n == 0 then inside
    else
      var f := Fetch(u.mem, u.eip);
      if f.None? then inside
      else
        var u' := Exec(f.value, u);
        InsideAfter(d, u', inside && StaysInside(d, f.value.insn, u'.eip), n - 1)
  }

  /** Instruction `i` is fetched at both places. */
  lemma BothFetch(d: Site, u: State, p: State, i: nat)
    requires d.Valid() && i < |d.l| && u.eip == Wrap(d.target + OffsetOf(d.l, i)) && p.eip == Wrap(d.tramp + OffsetOf(d.l, i))
    requires CodeAt(u.mem, d.target, d.first) && CodeAt(p.mem, d.tramp, d.TrampolineBytes())
    ensures Fetch(u.mem, u.eip) == Some(d.l[i]) && Fetch(p.mem, p.eip) == Some(d.l[i])
  {
    hide Decode, Disassemble, CodeAt, Branch, Addresses, Movable, Fetch, OffsetOf;
    var x, bs := OffsetOf(d.l, i), d.TrampolineBytes();
    OffsetsInside(d.first, d.l, i);
    DecodeLength(d.first[x..]);
    WordIsWrapped(d.target + x);
    WordIsWrapped(d.tramp + x);
    FetchCode(u.mem, d.target, d.first, x);
    DecodeLocal(d.first[x..], bs[x..]) by {
      DecodeLength(d.first[x..]);
      assert forall k :: 0 <= k < |d.first| - x ==> bs[x..][k] == bs[x + k] == d.first[x + k] == d.first[x..][k];
    }
    FetchCode(p.mem, d.tramp, bs, x);
  }

  /** One instruction of the five bytes, in both copies. */
  lemma InsideStep(d: Site, u: State, p: State, i: nat)
    requires d.Valid() && Beside(d, u, p, true)
    requires d.StartsAt(i, u.eip) && p.eip == Wrap(d.tramp + OffsetOf(d.l, i))
    requires Quiet(d.l[i].insn, u, Taint(d.Hidden(), false), d.Hidden())
    ensures var f := d.l[i];
            var u', p' := Exec(f, u), Exec(f, p);
            && SameButHidden(u', p', d.Hidden(), false)
            && CodeAt(u'.mem, d.target, d.first) && CodeAt(p'.mem, d.tramp, d.TrampolineBytes())
            && if f.insn.JmpRm? || f.insn.Ret? then u'.eip == p'.eip
               else exists x :: Boundary(d.l, x) && u'.eip == Wrap(d.target + x) && p'.eip == Wrap(d.tramp + x)
  {
    hide Exec, Addresses, CodeAt, Disassemble, OffsetOf, Boundary, Wrap, Branch, Reads, Writes, Site.Inside;
    var f, p0 := d.l[i], u.(eip := p.eip);
    CopiesApart(d);
    MovableMeansTheSame(d.first, d.l, i, d.target, d.tramp);
    assert DoesTheSame(d.l, i, d.target, d.tramp, u);
    ByRegs(f.insn, u, p0);
    ByRegs(f.insn, u, p);
    ExecAgree(f, p0, p, d.Hidden(), false);
    ExecFrame(f, u);
    ExecFrame(f, p);
    CodeSpared(u.mem, Exec(f, u).mem, d.target, d.first, Addresses(Writes(f.insn, u)));
    CodeSpared(p.mem, Exec(f, p).mem, d.tramp, d.TrampolineBytes(), Addresses(Writes(f.insn, u))) by { PartInside(d.tramp, PAGE, 0, 10); }
    if f.insn.JmpRm? || f.insn.Ret? {
      LeavesByAddress(f, u, p.eip);
    } else {
      WrapInjective(d.target, d.tramp, OffsetOf(d.l, i));
      GoesADistance(f, u, p.eip);
    }
  }

  lemma CopiesApart(d: Site)
    requires d.Valid()
    ensures d.target != d.tramp
  {
    hide Disassemble, Movable;
    assert In(d.target, Span(d.target, STOLEN)) && In(d.tramp, Span(d.tramp, PAGE));
    assert d.target in Addresses(Span(d.target, STOLEN)) && d.tramp in Addresses(Span(d.tramp, PAGE));
  }

  lemma ByRegs(i: Insn, u: State, p: State)
    requires u.regs == p.regs
    ensures Reads(i, u) == Reads(i, p) && Writes(i, u) == Writes(i, p)
  {
  }

  /** A place of the code that is no instruction is its end. */
  lemma EndReached(d: Site, x: int, a: Word)
    requires d.Valid() && Boundary(d.l, x) && a == Wrap(d.target + x) && !d.Inside(a)
    ensures x == STOLEN
  {
    hide Disassemble, Addresses, Movable, OffsetOf, Wrap;
    var i :| 0 <= i <= |d.l| && OffsetOf(d.l, i) == x;
    OffsetsInside(d.first, d.l, i);
    assert i < |d.l| ==> d.StartsAt(i, a);
  }

  lemma InstructionReached(d: Site, x: int, u: Word, p: Word)
    requires d.Valid() && Boundary(d.l, x) && u == Wrap(d.target + x) && p == Wrap(d.tramp + x) && d.Inside(u)
    ensures exists i :: d.StartsAt(i, u) && p == Wrap(d.tramp + OffsetOf(d.l, i))
  {
    hide Disassemble, Addresses, Movable, OffsetOf, Wrap;
    var i :| d.StartsAt(i, u);
    var j :| 0 <= j <= |d.l| && OffsetOf(d.l, j) == x;
    OffsetsInside(d.first, d.l, i);
    OffsetsInside(d.first, d.l, j);
    WordIsWrapped(d.target + OffsetOf(d.l, i));
    WordIsWrapped(d.target + x);
  }

  lemma JumpsBack(q: State, d: Site)
    requires d.Valid() && CodeAt(q.mem, d.tramp, d.TrampolineBytes()) && q.eip == d.tramp + STOLEN
    ensures Step(q) == Some(q.(eip := d.target + STOLEN))
  {
    hide Exec, CodeAt, Branch, Encodes, Disassemble, Addresses, Movable;
    var jump := Branch(0xE9, d.tramp + STOLEN, d.target + STOLEN);
    assert d.first + jump + [] == d.first + jump;
    CodePart(q.mem, d.tramp, d.first, jump, []);
    JumpLands(q, d.tramp + STOLEN, d.target + STOLEN);
  }

  lemma BehavesOnce(d: Site, u: State, inside: bool)
    requires Behaves(d, u, inside, 1)
    ensures var f := Fetch(u.mem, u.eip);
            && f.Some? && Quiet(f.value.insn, u, Taint(d.Hidden(), false), d.Hidden())
            && (!inside ==> Addresses(Span(u.eip, f.value.len)) !! d.Hidden())
  {
    hide Exec, Fetch, Quiet, Addresses;
  }

  /** A step of the unpatched process on the five bytes is one or two steps of the patched one. */
  lemma PassInside(d: Site, u: State, p: State) returns (k: nat)
    requires d.Valid() && Beside(d, u, p, true) && Behaves(d, u, true, 1)
    ensures Step(u).Some? && Steps(p, k).Some?
    ensures Beside(d, Step(u).value, Steps(p, k).value, StaysInside(d, Fetch(u.mem, u.eip).value.insn, Step(u).value.eip))
  {
    hide Exec, Disassemble, Addresses, Movable, OffsetOf, Wrap, CodeAt, Fetch, Quiet, Branch, Site.Inside, Boundary, Behaves;
    var i :| d.StartsAt(i, u.eip) && p.eip == Wrap(d.tramp + OffsetOf(d.l, i));
    BothFetch(d, u, p, i);
    BehavesOnce(d, u, true);
    var f := d.l[i];
    var u', p' := Exec(f, u), Exec(f, p);
    assert Step(u) == Some(u') && Step(p) == Some(p');
    hide Step;
    InsideStep(d, u, p, i);
    k := 1;
    OneStep(p, p');
    if !f.insn.JmpRm? && !f.insn.Ret? {
      var x :| Boundary(d.l, x) && u'.eip == Wrap(d.target + x) && p'.eip == Wrap(d.tramp + x);
      if d.Inside(u'.eip) {
        InstructionReached(d, x, u'.eip, p'.eip);
      } else {
        EndReached(d, x, u'.eip);
        WordIsWrapped(d.target + STOLEN);
        WordIsWrapped(d.tramp + STOLEN);
        JumpsBack(p', d);
        k := 2;
        TwoSteps(p, p', p'.(eip := d.target + STOLEN));
      }
    }
  }

  lemma TwoSteps(s: State, s1: State, s2: State)
    requires Step(s) == Some(s1) && Step(s1) == Some(s2)
    ensures Steps(s, 2) == Some(s2)
  {
    hide Step;
    OneStep(s, s1);
  }

  /** Elsewhere the processes take the same step. */
  lemma PassOutside(d: Site, u: State, p: State)
    requires d.Valid() && Beside(d, u, p, false) && Behaves(d, u, false, 1)
    ensures Step(u).Some? && Steps(p, 1).Some?
    ensures Beside(d, Step(u).value, Steps(p, 1).value, false)
  {
    hide Exec, Disassemble, Addresses, Movable, OffsetOf, Wrap, CodeAt, Fetch, Branch, Reads, Writes, Behaves;
    BehavesOnce(d, u, false);
    var f := Fetch(u.mem, u.eip).value;
    SameFetch(d, u, p, f);
    assert Step(u) == Some(Exec(f, u)) && Step(p) == Some(Exec(f, p));
    hide Step;
    OneStep(p, Exec(f, p));
    ByRegs(f.insn, u, p);
    ExecAgree(f, u, p, d.Hidden(), false);
    ExecFrame(f, u);
    ExecFrame(f, p);
    CodeSpared(u.mem, Exec(f, u).mem, d.target, d.first, Addresses(Writes(f.insn, u)));
    CodeSpared(p.mem, Exec(f, p).mem, d.tramp, d.TrampolineBytes(), Addresses(Writes(f.insn, u))) by { PartInside(d.tramp, PAGE, 0, 10); }
  }

  lemma SameFetch(d: Site, u: State, p: State, f: Fetched)
    requires d.Valid() && Beside(d, u, p, false) && Fetch(u.mem, u.eip) == Some(f)
    requires Addresses(Span(u.eip, f.len)) !! d.Hidden()
    ensures Fetch(p.mem, p.eip) == Some(f)
  {
    hide Decode, Disassemble, Movable, OffsetOf, CodeAt, Branch;
    forall x: Word | In(x, Span(u.eip, f.len)) ensures u.mem[x] == p.mem[x] {
      assert x in Addresses(Span(u.eip, f.len));
    }
    FetchAgree(u.mem, p.mem, u.eip);
  }

  /** Any number of steps. */
  lemma {:induction false} DetourRuns(d: Site, u: State, p: State, inside: bool, n: nat) returns (k: nat)
    requires d.Valid() && Beside(d, u, p, inside) && Behaves(d, u, inside, n)
    ensures Steps(u, n).Some? && Steps(p, k).Some?
    ensures Beside(d, Steps(u, n).value, Steps(p, k).value, InsideAfter(d, u, inside, n))
    decreases n
  {
    hide Exec, Fetch, Quiet, Addresses, Beside, StaysInside, Site.Valid;
    if n == 0 {
      k := 0;
    } else {
      var f := Fetch(u.mem, u.eip).value;
      var u' := Exec(f, u);
      assert Step(u) == Some(u');
      assert Behaves(d, u, inside, 1);
      var j := 1;
      if inside {
        j := PassInside(d, u, p);
      } else {
        PassOutside(d, u, p);
      }
      var p' := Steps(p, j).value;
      hide Step;
      var i := DetourRuns(d, u', p', inside && StaysInside(d, f.insn, u'.eip), n - 1);
      OneStep(u, u');
      IterateAdd(Step, u, 1, n - 1);
      IterateAdd(Step, p, j, i);
      k := j + i;
    }
  }

  /** Calling through the returned trampoline is calling the unpatched function: for every run of the unpatched
      process from the function's first byte, through the call and back into the caller, the patched process has one
      from the trampoline with the same registers, flags and memory outside the detour, and the same EIP once it has
      left the five bytes. */
  lemma DetourCallsOriginal(m: Memory, hook: Word, d: Site, u: State, n: nat) returns (k: nat)
    requires d.Valid() && CodeAt(m, d.target, d.first)
    requires u.mem == m && u.eip == d.target && Behaves(d, u, true, n)
    ensures var p := u.(mem := Detoured(m, d.target, hook, d.tramp), eip := d.tramp);
            && Steps(u, n).Some? && Steps(p, k).Some?
            && Beside(d, Steps(u, n).value, Steps(p, k).value, InsideAfter(d, u, true, n))
  {
    hide Steps, Behaves, Beside, InsideAfter, Site.Valid, Detoured;
    StartsBeside(m, hook, d, u);
    k := DetourRuns(d, u, u.(mem := Detoured(m, d.target, hook, d.tramp), eip := d.tramp), true, n);
  }

  lemma StartsBeside(m: Memory, hook: Word, d: Site, u: State)
    requires d.Valid() && CodeAt(m, d.target, d.first) && u.mem == m && u.eip == d.target
    ensures Beside(d, u, u.(mem := Detoured(m, d.target, hook, d.tramp), eip := d.tramp), true)
  {
    hide Disassemble, Addresses, Movable, Detoured, Branch, OffsetOf, Wrap;
    DetourInPlace(m, d.target, hook, d.tramp);
    FirstOffset(d);
    WordIsWrapped(d.target);
    WordIsWrapped(d.tramp);
    assert d.StartsAt(0, u.eip);
  }

  lemma FirstOffset(d: Site)
    requires d.Valid()
    ensures |d.l| > 0 && OffsetOf(d.l, 0) == 0
  {
    hide Addresses, Movable;
  }
}
