/** Jump hooks: what is written at a hook site, the generated trampoline, and what a callback may do. */
module Hooks {
  import opened Words
  import opened Machine
  import opened Decoder
  import opened Execution

  /** One installed jmp hook: the overwritten bytes, the C callback and the address of the trampoline. */
  datatype Hook = Hook(site: Word, stolen: seq<Byte>, callback: Word, tramp: Word)

  function Nops(n: nat): seq<Byte> {
    seq(n, i => 0x90)
  }

  /** E9 or E8 with the displacement that leads from `from` to `to`. */
  function Branch(opcode: Byte, from: Word, to: Word): (bs: seq<Byte>)
    ensures |bs| == 5
  {
    [opcode] + LE(Wrap(to - (from + 5)))
  }

  function SiteBytes(h: Hook): (bs: seq<Byte>)
    requires |h.stolen| >= 5
    ensures |bs| == |h.stolen|
  {
    Branch(0xE9, h.site, h.tramp) + Nops(|h.stolen| - 5)
  }

  function ReturnAddress(h: Hook): Word {
    Wrap(h.site + |h.stolen|)
  }

  const PROLOGUE := 16

  /** pushad; lea eax,[esp]; push eax; mov eax,callback; call eax */
  function CallPart(callback: Word): (bs: seq<Byte>)
    ensures |bs| == 12
  {
    [0x60] + [0x8D, 0x04, 0x24] + [0x50] + ([0xB8] + LE(callback)) + [0xFF, 0xD0]
  }

  /** add esp,4; popad */
  const RESTORE_PART: seq<Byte> := [0x83, 0xC4, 0x04, 0x61]

  function TrampolineCode(code: Word, returnAddr: Word, stolen: seq<Byte>, callback: Word): (bs: seq<Byte>)
    ensures |bs| == 21 + |stolen|
  {
    CallPart(callback) + RESTORE_PART + stolen + Branch(0xE9, Wrap(code + PROLOGUE + |stolen|), returnAddr)
  }

  function TrampolineBytes(h: Hook): (bs: seq<Byte>)
    ensures |bs| == 21 + |h.stolen|
  {
    TrampolineCode(h.tramp, ReturnAddress(h), h.stolen, h.callback)
  }

  function SiteSpan(h: Hook): Span {
    Span(h.site, |h.stolen|)
  }

  function TrampSpan(h: Hook): Span {
    Span(h.tramp, 21 + |h.stolen|)
  }

  /** The stolen bytes are at least five, whole instructions, and mean the same at any address;
      only the last may leave (the `ret` of an epilogue hook). */
  ghost predicate Relocates(stolen: seq<Byte>) {
    && |stolen| >= 5
    && Disassemble(stolen).Some?
    && var l := Disassemble(stolen).value;
       StraightLine(l) && forall i :: 0 <= i < |l| ==> Relocatable(l[i].insn)
  }

  /** The hooks of one process, the memory that only the hooking DLL uses, and how much stack its callbacks need. */
  datatype World = World(hooks: seq<Hook>, own: iset<Word>, depth: nat)
  {
    ghost predicate IsCallback(a: Word) {
      exists i :: 0 <= i < |hooks| && hooks[i].callback == a
    }

    ghost function Callbacks(): iset<Word> {
      iset a: Word | IsCallback(a)
    }

    ghost predicate InCode(x: Word) {
      exists i :: 0 <= i < |hooks| && (In(x, SiteSpan(hooks[i])) || In(x, TrampSpan(hooks[i])))
    }

    /** Overwritten code, generated code and the DLL's memory: the program has no business there. */
    ghost function Guard(): iset<Word> {
      iset x: Word | x in own || InCode(x)
    }

    ghost predicate Valid() {
      && depth + 40 < SIZE
      && (forall i :: 0 <= i < |hooks| ==> HookFits(hooks[i]))
      && (forall i, j :: 0 <= i < j < |hooks| ==> hooks[i].site != hooks[j].site)
    }

    ghost predicate HookFits(h: Hook) {
      && Relocates(h.stolen)
      && h.site + |h.stolen| <= SIZE
      && h.tramp + 21 + |h.stolen| <= SIZE
      && h.callback in own
      && own !! Addresses(TrampSpan(h))
      && own !! Addresses(SiteSpan(h))
    }

    /** The stack below the hook-time ESP that a trampoline and its callback use. */
    function Scratch(esp: Word): Span {
      Span(Wrap(esp - (40 + depth)), 40 + depth)
    }

    /** A cdecl call returned: the callback wrote only the DLL's memory, the stack it used and the
        first `frame` bytes of what it was given (return address, argument, HookContext, ...). */
    ghost predicate Returned(s: State, r: State, frame: nat) {
      && r.eip == Top(s)
      && r.regs.esp == Wrap(s.regs.esp + 4)
      && r.regs.ebx == s.regs.ebx && r.regs.ebp == s.regs.ebp
      && r.regs.esi == s.regs.esi && r.regs.edi == s.regs.edi
      && AgreeOutside(s.mem, r.mem, own + Addresses(Span(Wrap(s.regs.esp - depth), depth + frame)))
    }

    /** The callback leaves its HookContext alone; its argument slot is its own under cdecl. */
    ghost predicate CallbackReturns(s: State, r: State) {
      Returned(s, r, 8)
    }

    ghost predicate Honest(o: Oracle) {
      forall clock: nat, s: State :: IsCallback(s.eip) ==> CallbackReturns(s, o(clock, s))
    }
  }

  /** The hook is in place in `m`. */
  ghost predicate Hooked(m: Memory, h: Hook) {
    && |h.stolen| >= 5
    && CodeAt(m, h.site, SiteBytes(h))
    && CodeAt(m, h.tramp, TrampolineBytes(h))
  }
}
