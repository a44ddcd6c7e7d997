/** Which of the hook tables' stolen bytes may be replayed elsewhere. */
module Relocation {
  import opened Words
  import opened Machine
  import opened Decoder
  import opened Execution
  import opened Hooks

  /** push ebp; mov ebp,esp; push ebx; push esi: the prologue of the three hooked dispatch stubs. */
  const STUB_PROLOGUE: seq<Byte> := [0x55, 0x8B, 0xEC, 0x53, 0x56]

  /** mov esp,ebp; pop ebp; ret 0Ch: the hooked end of the client's log function. */
  const LOG_EPILOGUE: seq<Byte> := [0x8B, 0xE5, 0x5D, 0xC2, 0x0C, 0x00]

  /** mov eax,[ecx]; push ebx; call [eax+14h]: the hook on a virtual call site. */
  const CALL_SITE: seq<Byte> := [0x8B, 0x01, 0x53, 0xFF, 0x50, 0x14]

  lemma Encodings()
    ensures Encodes([0x55], PushReg(EBP)) && Encodes([0x53], PushReg(EBX)) && Encodes([0x56], PushReg(ESI))
    ensures Encodes([0x5D], PopReg(EBP)) && Encodes([0xC2, 0x0C, 0x00], Ret(12))
  {
  }

  lemma MoveEncodings()
    ensures Encodes([0x8B, 0xEC], MovLoad(EBP, InReg(ESP))) && Encodes([0x8B, 0xE5], MovLoad(ESP, InReg(EBP)))
  {
  }

  lemma IndirectEncodings()
    ensures Encodes([0x8B, 0x01], MovLoad(EAX, At(Option.Some(ECX), 0)))
    ensures Encodes([0xFF, 0x50, 0x14], CallRm(At(Option.Some(EAX), 0x14)))
  {
  }

  lemma StubPrologueRelocates()
    ensures Relocates(STUB_PROLOGUE)
  {
    hide Encodes, Decode, Disassemble;
    var push, frame := Fetched(PushReg(EBP), 1), Fetched(MovLoad(EBP, InReg(ESP)), 2);
    var l := [push, frame, Fetched(PushReg(EBX), 1), Fetched(PushReg(ESI), 1)];
    Encodings();
    MoveEncodings();
    DisassembleOne([0x55], PushReg(EBP));
    DisassembleSnoc([0x55], [push], [0x8B, 0xEC], frame.insn, l[..2]);
    DisassembleSnoc([0x55] + [0x8B, 0xEC], l[..2], [0x53], PushReg(EBX), l[..3]);
    DisassembleSnoc([0x55] + [0x8B, 0xEC] + [0x53], l[..3], [0x56], PushReg(ESI), l);
    assert [0x55] + [0x8B, 0xEC] + [0x53] + [0x56] == STUB_PROLOGUE;
  }

  lemma LogEpilogueRelocates()
    ensures Relocates(LOG_EPILOGUE)
  {
    hide Encodes, Decode, Disassemble;
    var unwind := Fetched(MovLoad(ESP, InReg(EBP)), 2);
    var l := [unwind, Fetched(PopReg(EBP), 1), Fetched(Ret(12), 3)];
    Encodings();
    MoveEncodings();
    DisassembleOne([0x8B, 0xE5], unwind.insn);
    DisassembleSnoc([0x8B, 0xE5], [unwind], [0x5D], PopReg(EBP), l[..2]);
    DisassembleSnoc([0x8B, 0xE5] + [0x5D], l[..2], [0xC2, 0x0C, 0x00], Ret(12), l);
    assert [0x8B, 0xE5] + [0x5D] + [0xC2, 0x0C, 0x00] == LOG_EPILOGUE;
  }

  /** The call-site hook replays a call from the trampoline. */
  lemma CallSiteDoesNotRelocate()
    ensures Disassemble(CALL_SITE).Some? && !Relocates(CALL_SITE)
  {
    hide Encodes, Decode, Disassemble;
    var load, call := Fetched(MovLoad(EAX, At(Option.Some(ECX), 0)), 2), CallRm(At(Option.Some(EAX), 0x14));
    var l := [load, Fetched(PushReg(EBX), 1), Fetched(call, 3)];
    Encodings();
    IndirectEncodings();
    DisassembleOne([0x8B, 0x01], load.insn);
    DisassembleSnoc([0x8B, 0x01], [load], [0x53], PushReg(EBX), l[..2]);
    DisassembleSnoc([0x8B, 0x01] + [0x53], l[..2], [0xFF, 0x50, 0x14], call, l);
    assert [0x8B, 0x01] + [0x53] + [0xFF, 0x50, 0x14] == CALL_SITE;
    assert !Relocatable(l[2].insn);
  }

  /** A replayed call hands its callee the same return address only where it originally stood. */
  lemma ReplayedCallShows(f: Fetched, u: State, p: State)
    requires f.insn.CallRm? || f.insn.CallRel?
    requires u.regs == p.regs
    ensures Top(Exec(f, u)) == Top(Exec(f, p)) <==> u.eip == p.eip
  {
    hide Exec, Top, LoadWord;
    CallPushesNext(f, u);
    CallPushesNext(f, p);
    WrapInjective(u.eip, p.eip, f.len);
  }

  lemma CallPushesNext(f: Fetched, s: State)
    requires f.insn.CallRm? || f.insn.CallRel?
    ensures Top(Exec(f, s)) == Wrap(s.eip + f.len)
  {
    hide Load, Store;
    LoadStoredWord(s.mem, Wrap(s.regs.esp - 4), Wrap(s.eip + f.len));
  }
}
