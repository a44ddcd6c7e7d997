/** One pass through a generated trampoline, from the hooked site back to the code after it. */
module Trampoline {
  import opened Words
  import opened Machine
  import opened Decoder
  import opened Execution
  import opened Hooks

  lemma BranchEncodes(from: Word, to: Word)
    ensures Encodes(Branch(0xE9, from, to), JmpRel(Wrap(to - (from + 5))))
    ensures Encodes(Branch(0xE8, from, to), CallRel(Wrap(to - (from + 5))))
  {
    var rel, j, c := Wrap(to - (from + 5)), Branch(0xE9, from, to), Branch(0xE8, from, to);
    FromLEofLE(rel);
    assert [j[1], j[2], j[3], j[4]] == LE(rel) && [c[1], c[2], c[3], c[4]] == LE(rel);
  }

  lemma BranchDecodes(from: Word, to: Word)
    requires from + 5 <= SIZE
    ensures Disassemble(Branch(0xE9, from, to)) == Some([Fetched(JmpRel(Wrap(to - (from + 5))), 5)])
  {
    hide Encodes, Decode, Disassemble;
    BranchEncodes(from, to);
    DisassembleOne(Branch(0xE9, from, to), JmpRel(Wrap(to - (from + 5))));
  }

  lemma BranchExec(from: Word, to: Word, s: State, region: iset<Word>)
    requires from + 5 <= SIZE && s.eip == from
    ensures var l := [Fetched(JmpRel(Wrap(to - (from + 5))), 5)];
            ExecAll(l, s) == s.(eip := to) && Spares(l, s, region)
  {
    hide Exec, Writes, Addresses, Wrap;
    var l, rel := [Fetched(JmpRel(Wrap(to - (from + 5))), 5)], Wrap(to - (from + 5));
    assert Exec(l[0], s) == s.(eip := to) by {
      JmpRelIs(rel, s);
      WrapShift(from + 5, rel);
      WrapShift(to - (from + 5), from + 5);
      WordIsWrapped(to);
    }
    assert l[1..] == [] && l[0..] == l;
    Peel(l, 0, s, s.(eip := to), s.(eip := to), region) by { JmpRelIs(rel, s); NowhereEmpty(); }
  }

  lemma StepOver(s: State, code: seq<Byte>, i: Insn)
    requires CodeAt(s.mem, s.eip, code) && Encodes(code, i)
    ensures Step(s) == Some(Exec(Fetched(i, |code|), s))
  {
    DecodeLength(code);
    assert code[0..] == code;
    FetchCode(s.mem, s.eip, code, 0);
  }

  /** A jump in memory goes where it was aimed. */
  lemma JumpLands(s: State, from: Word, to: Word)
    requires from + 5 <= SIZE && s.eip == from
    requires CodeAt(s.mem, from, Branch(0xE9, from, to))
    ensures Step(s) == Some(s.(eip := to))
  {
    hide Store, Exec, Step, CodeAt, Wrap, Branch, Encodes;
    BranchEncodes(from, to);
    var jump := JmpRel(Wrap(to - (from + 5)));
    StepOver(s, Branch(0xE9, from, to), jump);
    BranchExec(from, to, s, iset{});
    assert [Fetched(jump, 5)][1..] == [];
  }

  const ESP0 := At(Option.Some(ESP), 0)

  function CallListing(callback: Word): seq<Fetched> {
    [Fetched(Pushad, 1), Fetched(Lea(EAX, ESP0), 3), Fetched(PushReg(EAX), 1), Fetched(MovImm(EAX, callback), 5),
     Fetched(CallRm(InReg(EAX)), 2)]
  }

  const RESTORE_LISTING := [Fetched(Alu(Add, InReg(ESP), 4), 3), Fetched(Popad, 1)]

  lemma CallEncodings(callback: Word)
    ensures Encodes([0x60], Pushad) && Encodes([0x8D, 0x04, 0x24], Lea(EAX, ESP0)) && Encodes([0x50], PushReg(EAX))
    ensures Encodes([0xB8] + LE(callback), MovImm(EAX, callback)) && Encodes([0xFF, 0xD0], CallRm(InReg(EAX)))
  {
    FromLEofLE(callback);
    var mov := [0xB8] + LE(callback);
    assert [mov[1], mov[2], mov[3], mov[4]] == LE(callback);
  }

  lemma CallDecodes(callback: Word)
    ensures Disassemble(CallPart(callback)) == Some(CallListing(callback))
  {
    var l, mov := CallListing(callback), [0xB8] + LE(callback);
    hide Encodes, Decode, Disassemble, LE;
    CallEncodings(callback);
    DisassembleOne([0x60], Pushad);
    assert l[..1] == [Fetched(Pushad, 1)];
    DisassembleSnoc([0x60], l[..1], [0x8D, 0x04, 0x24], Lea(EAX, ESP0), l[..2]);
    DisassembleSnoc([0x60] + [0x8D, 0x04, 0x24], l[..2], [0x50], PushReg(EAX), l[..3]);
    DisassembleSnoc([0x60] + [0x8D, 0x04, 0x24] + [0x50], l[..3], mov, MovImm(EAX, callback), l[..4]);
    DisassembleSnoc([0x60] + [0x8D, 0x04, 0x24] + [0x50] + mov, l[..4], [0xFF, 0xD0], CallRm(InReg(EAX)), l);
  }

  lemma RestoreDecodes()
    ensures Disassemble(RESTORE_PART) == Some(RESTORE_LISTING)
  {
    assert Encodes([0x83, 0xC4, 0x04], RESTORE_LISTING[0].insn) && Encodes([0x61], Popad);
    DisassembleOne([0x83, 0xC4, 0x04], RESTORE_LISTING[0].insn);
    DisassembleSnoc([0x83, 0xC4, 0x04], [RESTORE_LISTING[0]], [0x61], Popad, RESTORE_LISTING);
    assert [0x83, 0xC4, 0x04] + [0x61] == RESTORE_PART;
  }

  /** The stack that pushad, push eax and call eax use. */
  function CallFrame(esp: Word): Span {
    Span(Wrap(esp - 40), 40)
  }

  /** The memory of a trampoline's stack at the callback's entry. */
  function FrameMemory(m: Memory, esp: Word, image: seq<Byte>, ret: Word): Memory {
    StoreWord(StoreWord(Store(m, Wrap(esp - 32), image), Wrap(esp - 36), Wrap(esp - 32)), Wrap(esp - 40), ret)
  }

  lemma FrameMemoryHolds(m: Memory, esp: Word, image: seq<Byte>, ret: Word)
    requires |image| == 32
    ensures var m' := FrameMemory(m, esp, image, ret);
            && LoadWord(m', Wrap(esp - 40)) == ret
            && LoadWord(m', Wrap(esp - 36)) == Wrap(esp - 32)
            && Load(m', Wrap(esp - 32), 32) == image
            && AgreeOutside(m, m', Addresses(CallFrame(esp)))
  {
    hide Store, Load, Addresses, Wrap;
    var arg := Wrap(esp - 32);
    var m1 := Store(m, Wrap(esp - 32), image);
    var m2 := StoreWord(m1, Wrap(esp - 36), arg);
    var m3 := StoreWord(m2, Wrap(esp - 40), ret);
    SpansApart(esp, -36, 4, -32, 32);
    SpansApart(esp, -40, 4, -32, 32);
    SpansApart(esp, -40, 4, -36, 4);
    LoadStored(m, Wrap(esp - 32), image);
    LoadPast(m1, Wrap(esp - 36), LE(arg), Wrap(esp - 32), 32);
    LoadPast(m2, Wrap(esp - 40), LE(ret), Wrap(esp - 32), 32);
    LoadStoredWord(m1, Wrap(esp - 36), arg);
    LoadPast(m2, Wrap(esp - 40), LE(ret), Wrap(esp - 36), 4);
    LoadStoredWord(m2, Wrap(esp - 40), ret);
    SpanInside(esp, -40, 40, -32, 32);
    SpanInside(esp, -40, 40, -36, 4);
    SpanInside(esp, -40, 40, -40, 4);
    StoreFrame(m, Wrap(esp - 32), image);
    StoreFrame(m1, Wrap(esp - 36), LE(arg));
    StoreFrame(m2, Wrap(esp - 40), LE(ret));
    var frame := Addresses(CallFrame(esp));
    AgreeTrans(m, m1, m2, Addresses(Span(Wrap(esp - 32), 32)), Addresses(Span(Wrap(esp - 36), 4)), frame);
    AgreeTrans(m, m2, m3, frame, Addresses(Span(Wrap(esp - 40), 4)), frame);
  }

  /** The five instructions up to the call, in closed form. */
  lemma CallExec(callback: Word, s: State, region: iset<Word>)
    requires region !! Addresses(CallFrame(s.regs.esp))
    ensures var esp := s.regs.esp;
            ExecAll(CallListing(callback), s)
            == State(s.regs.(eax := callback, esp := Wrap(esp - 40)), s.flags, callback,
                     FrameMemory(s.mem, esp, RegsImage(s.regs), Wrap(s.eip + 12)))
    ensures Spares(CallListing(callback), s, region)
  {
    hide Store, Wrap, Addresses, Exec, Writes, RegsImage;
    var l, esp: int, eip: int := CallListing(callback), s.regs.esp, s.eip;
    var arg, ret := Wrap(esp - 32), Wrap(eip + 12);
    var m1 := Store(s.mem, arg, RegsImage(s.regs));
    var m2 := StoreWord(m1, Wrap(esp - 36), arg);
    var s1 := State(s.regs.(esp := arg), s.flags, Wrap(eip + 1), m1);
    var s2 := s1.(regs := s1.regs.(eax := arg), eip := Wrap(eip + 4));
    var s3 := s2.(regs := s2.regs.(esp := Wrap(esp - 36)), eip := Wrap(eip + 5), mem := m2);
    var s4 := s3.(regs := s3.regs.(eax := callback), eip := Wrap(eip + 10));
    var s5 := State(s.regs.(eax := callback, esp := Wrap(esp - 40)), s.flags, callback,
                    FrameMemory(s.mem, esp, RegsImage(s.regs), ret));
    assert Exec(l[0], s) == s1 by { PushadIs(s); }
    assert Exec(l[1], s1) == s2 by { LeaIs(ESP0, s1); WrapShift(eip + 1, 3); WrapShift(esp - 32, 0); }
    assert Exec(l[2], s2) == s3 by { PushRegIs(EAX, s2); WrapShift(eip + 4, 1); WrapShift(esp - 32, -4); }
    assert Exec(l[3], s3) == s4 by { MovImmIs(callback, s3); WrapShift(eip + 5, 5); }
    assert Exec(l[4], s4) == s5 by { CallRmIs(InReg(EAX), 2, s4); WrapShift(eip + 10, 2); WrapShift(esp - 36, -4); }
    CallPeel(l, s, s1, s2, s3, s4, s5, region) by {
      PushadIs(s); LeaIs(ESP0, s1); PushRegIs(EAX, s2); MovImmIs(callback, s3); CallRmIs(InReg(EAX), 2, s4);
      WrapShift(esp - 32, -4);
      WrapShift(esp - 36, -4);
      SpanInside(esp, -40, 40, -32, 32);
      SpanInside(esp, -40, 40, -36, 4);
      SpanInside(esp, -40, 40, -40, 4);
      NowhereEmpty();
    }
  }

  lemma CallPeel(l: seq<Fetched>, s: State, s1: State, s2: State, s3: State, s4: State, s5: State, region: iset<Word>)
    requires |l| == 5
    requires Exec(l[0], s) == s1 && Addresses(Writes(l[0].insn, s)) !! region
    requires Exec(l[1], s1) == s2 && Addresses(Writes(l[1].insn, s1)) !! region
    requires Exec(l[2], s2) == s3 && Addresses(Writes(l[2].insn, s2)) !! region
    requires Exec(l[3], s3) == s4 && Addresses(Writes(l[3].insn, s3)) !! region
    requires Exec(l[4], s4) == s5 && Addresses(Writes(l[4].insn, s4)) !! region
    ensures ExecAll(l, s) == s5 && Spares(l, s, region)
  {
    hide Exec, Writes, Addresses;
    assert l[5..] == [] && l[0..] == l;
    Peel(l, 4, s4, s5, s5, region);
    Peel(l, 3, s3, s4, s5, region);
    Peel(l, 2, s2, s3, s5, region);
    Peel(l, 1, s1, s2, s5, region);
    Peel(l, 0, s, s1, s5, region);
  }

  /** add esp,4; popad */
  lemma RestoreExec(s: State, region: iset<Word>)
    ensures ExecAll(RESTORE_LISTING, s)
         == State(RegsFromImage(Load(s.mem, Wrap(s.regs.esp + 4), 32), Wrap(s.regs.esp + 36)),
                  AluFlags(Add, s.regs.esp, 4), Wrap(s.eip + 4), s.mem)
    ensures Spares(RESTORE_LISTING, s, region)
  {
    hide Wrap, Addresses, Exec, Writes, RegsFromImage, AluFlags, Load;
    var l, esp: int, eip: int := RESTORE_LISTING, s.regs.esp, s.eip;
    var s1 := State(s.regs.(esp := Wrap(esp + 4)), AluFlags(Add, s.regs.esp, 4), Wrap(eip + 3), s.mem);
    var s2 := State(RegsFromImage(Load(s.mem, Wrap(esp + 4), 32), Wrap(esp + 36)), s1.flags, Wrap(eip + 4), s.mem);
    assert Exec(l[0], s) == s1 by { AddEspIs(s, 4); }
    assert Exec(l[1], s1) == s2 by { PopadIs(s1); WrapShift(eip + 3, 1); WrapShift(esp + 4, 32); }
    assert l[2..] == [] && l[0..] == l;
    Peel(l, 1, s1, s2, s2, region) by { PopadIs(s1); NowhereEmpty(); }
    Peel(l, 0, s, s1, s2, region) by { AddEspIs(s, 4); NowhereEmpty(); }
  }
}
