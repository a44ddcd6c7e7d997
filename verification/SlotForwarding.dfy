/** A call through a hooked vtable slot, compared with the direct call of the real method. */
module SlotForwarding {
  import opened Words
  import opened Machine
  import opened Decoder
  import opened Execution
  import opened Assembler
  import opened Hooks
  import opened ObserverCall
  import opened SlotCapture
  import opened SlotPlaces
  import opened VtableTrampoline

  function AfterPop(s: State): Word {
    Wrap(s.regs.esp + 4)
  }

  /** The real method is entered as the caller would have entered it: same ECX, EDX, callee-saved registers,
      flags, ESP and stack arguments; only EAX (the last captured word) and the return address differ. */
  ghost predicate Handed(k: Slot, env: World, s: State, q: State) {
    && q.eip == LoadWord(s.mem, k.methodCell)
    && q.regs == s.regs.(eax := LoadWord(s.mem, Wrap(AfterPop(s) + 28)))
    && q.flags == s.flags
    && Top(q) == Wrap(k.base + RecordAt(PushLength(k)))
    && AgreeOutside(s.mem, q.mem, Touched(k, env, AfterPop(s)))
    && CellIs(q.mem, k.cells, CALLER, Top(s))
    && CellIs(q.mem, k.cells, THIS_PTR, s.regs.ecx)
    && CellIs(q.mem, k.cells, EDX_CELL, s.regs.edx)
    && ArgsKept(q.mem, k.cells, s.mem, AfterPop(s), MAX_ARGS)
    && CellIs(q.mem, k.cells, ESP_BEFORE, AfterPop(s))
  }

  lemma CellsKept(m: Memory, m': Memory, k: Slot, t: iset<Word>, off: int)
    requires AgreeOutside(m, m', t) && t !! CellsOf(k)
    requires 0 <= off && off + 4 <= CELLS
    ensures LoadWord(m', Cell(k.cells, off)) == LoadWord(m, Cell(k.cells, off))
  {
    CellInside(k.cells, off);
    LoadAgree(m, m', t, Cell(k.cells, off), 4);
  }

  lemma AllCellsKept(m: Memory, m': Memory, k: Slot, t: iset<Word>)
    requires AgreeOutside(m, m', t) && t !! CellsOf(k)
    ensures forall off :: 0 <= off && off + 4 <= CELLS ==> LoadWord(m', Cell(k.cells, off)) == LoadWord(m, Cell(k.cells, off))
  {
    forall off | 0 <= off && off + 4 <= CELLS ensures LoadWord(m', Cell(k.cells, off)) == LoadWord(m, Cell(k.cells, off)) {
      CellsKept(m, m', k, t, off);
    }
  }

  /** Step 1: the captures. */
  lemma RunCapture(k: Slot, env: World, natives: iset<Word>, o: Oracle, c: Config) returns (d: Config)
    requires SlotPlaced(k, env, natives)
    requires CodeAt(c.s.mem, k.base, Flat(SlotProgram(k))) && c.s.eip == k.base
    requires Addresses(Span(AfterPop(c.s), 4 * MAX_ARGS)) !! CellsOf(k)
    ensures Run(natives, o, c, 20) == Some(d)
    ensures d.s == ExecAll(Listing(Capture(k.cells)), c.s)
    ensures CodeAt(d.s.mem, k.base, Flat(SlotProgram(k)))
    ensures d.s.eip == Wrap(k.base + OBSERVE_BEFORE) && d.clock == c.clock + 20
  {
    hide Flat, Run, CodeAt, Spares, Addresses, Capture, SlotProgram, ExecAll, IsPush, Wrap;
    FrontLengths(k);
    CaptureExec(k.cells, c.s, CodeOf(k));
    RunPartOfSlot(k, env, natives, o, c, 0);
    d := Config(ExecAll(Listing(Capture(k.cells)), c.s), c.clock + 20);
    CodeSpared(c.s.mem, d.s.mem, k.base, Flat(SlotProgram(k)), CellsOf(k));
    CaptureSize(k.cells);
  }

  lemma CaptureSize(cells: Word)
    ensures |Capture(cells)| == 20
  {
  }

  /** Step 2: the first observer. */
  lemma RunFirstObserver(k: Slot, env: World, natives: iset<Word>, o: Oracle, c: Config) returns (d: Config)
    requires SlotPlaced(k, env, natives) && StackFree(k, env, c.s.regs.esp)
    requires ObserverHonest(env, o, k.before)
    requires CodeAt(c.s.mem, k.base, Flat(SlotProgram(k))) && c.s.eip == Wrap(k.base + OBSERVE_BEFORE)
    ensures Run(natives, o, c, 8) == Some(d)
    ensures d.s.regs == c.s.regs && d.s.flags == c.s.flags && d.s.eip == k.base + ForwardAt(PushLength(k))
    ensures AgreeOutside(c.s.mem, d.s.mem, env.own + Addresses(Below(c.s.regs.esp, env.depth + FRAME)))
    ensures CodeAt(d.s.mem, k.base, Flat(SlotProgram(k)))
  {
    hide Flat, Run, CodeAt, Addresses, SlotProgram, IsPush, ObserverHonest, Wrap;
    FrontLengths(k);
    WordIsWrapped(k.base + OBSERVE_BEFORE);
    WordIsWrapped(k.base + ForwardAt(PushLength(k)));
    d := RunObserver(k, env, natives, o, c, 1);
    CodeSpared(c.s.mem, d.s.mem, k.base, Flat(SlotProgram(k)), env.own + Addresses(Below(c.s.regs.esp, env.depth + FRAME)));
  }

  lemma WordBelow(env: World, esp: Word)
    requires env.depth + FRAME < SIZE
    ensures Addresses(Span(Wrap(esp - 4), 4)) <= Addresses(Below(esp, env.depth + FRAME))
  {
    SpanInside(esp, -(env.depth + FRAME), env.depth + FRAME, -4, 4);
  }

  /** From the slot's trampoline to the real method. */
  lemma ReachMethod(k: Slot, env: World, natives: iset<Word>, o: Oracle, c: Config) returns (q: Config)
    requires SlotPlaced(k, env, natives) && StackFree(k, env, AfterPop(c.s))
    requires Addresses(Span(AfterPop(c.s), 4 * MAX_ARGS)) !! CellsOf(k)
    requires ObserverHonest(env, o, k.before)
    requires CodeAt(c.s.mem, k.base, Flat(SlotProgram(k))) && c.s.eip == k.base
    ensures Run(natives, o, c, 30) == Some(q)
    ensures Handed(k, env, c.s, q.s)
    ensures CodeAt(q.s.mem, k.base, Flat(SlotProgram(k)))
  {
    hide Flat, Run, CodeAt, Spares, Addresses, SlotProgram, ExecAll, IsPush, ObserverHonest, Wrap, Capture, Forward, Handed;
    hide Load, LE, FromLE, Store, ArgsKept, CellIs, Cell;
    var d := RunCapture(k, env, natives, o, c);
    CaptureExec(k.cells, c.s, CodeOf(k));
    var e := RunFirstObserver(k, env, natives, o, d);
    FrontLengths(k);
    WordBelow(env, e.s.regs.esp);
    ForwardExec(k, e.s, CodeOf(k));
    RunPartOfSlot(k, env, natives, o, e, 2);
    q := Config(ExecAll(Listing(Forward(k)), e.s), e.clock + 2);
    RunAdd(natives, o, c, 20, 8);
    RunAdd(natives, o, c, 28, 2);
    SpareTheCode(k, env, e.s, q.s);
    HandedOver(k, env, c.s, d.s, e.s, q.s);
  }

  lemma SpareTheCode(k: Slot, env: World, e: State, q: State)
    requires CodeAt(e.mem, k.base, Flat(SlotProgram(k)))
    requires q == ExecAll(Listing(Forward(k)), e) && Spares(Listing(Forward(k)), e, CodeOf(k))
    ensures CodeAt(q.mem, k.base, Flat(SlotProgram(k)))
  {
    hide Flat, CodeAt, SlotProgram, Forward, Addresses;
    RegionKept(Listing(Forward(k)), e, CodeOf(k));
    CodeKeptIn(e.mem, q.mem, k.base, Flat(SlotProgram(k)), CodeOf(k));
  }

  /** The three parts together hand the call over. */
  lemma HandedOver(k: Slot, env: World, s: State, d: State, e: State, q: State)
    requires env.depth + FRAME < SIZE
    requires StackFree(k, env, AfterPop(s)) && CellsOf(k) !! env.own
    requires Addresses(Span(k.methodCell, 4)) !! env.own + CellsOf(k)
    requires d.regs == s.regs.(eax := LoadWord(s.mem, Wrap(AfterPop(s) + 28)), esp := AfterPop(s)) && d.flags == s.flags
    requires AgreeOutside(s.mem, d.mem, CellsOf(k))
    requires CellIs(d.mem, k.cells, CALLER, Top(s)) && CellIs(d.mem, k.cells, THIS_PTR, s.regs.ecx)
    requires CellIs(d.mem, k.cells, EDX_CELL, s.regs.edx) && ArgsKept(d.mem, k.cells, s.mem, AfterPop(s), MAX_ARGS)
    requires e.regs == d.regs && e.flags == d.flags && e.eip == k.base + ForwardAt(PushLength(k))
    requires AgreeOutside(d.mem, e.mem, env.own + Addresses(Below(d.regs.esp, env.depth + FRAME)))
    requires q == State(e.regs.(esp := Wrap(e.regs.esp - 4)), e.flags, LoadWord(e.mem, k.methodCell),
                        StoreWord(StoreWord(e.mem, Cell(k.cells, ESP_BEFORE), e.regs.esp), Wrap(e.regs.esp - 4), Wrap(e.eip + 12)))
    ensures Handed(k, env, s, q)
  {
    hide Addresses, Wrap, Load, Store, LE, Cell, Disjoint, Below;
    var esp := AfterPop(s);
    var stack := Addresses(Below(esp, env.depth + FRAME));
    var m1 := StoreWord(e.mem, Cell(k.cells, ESP_BEFORE), esp);
    WordBelow(env, esp);
    AllCellsKept(d.mem, e.mem, k, env.own + stack);
    LoadAgree(d.mem, e.mem, env.own + stack, k.methodCell, 4);
    LoadAgree(s.mem, d.mem, CellsOf(k), k.methodCell, 4);
    CellStored(e.mem, e.mem, k.cells, ESP_BEFORE, esp);
    forall off | 0 <= off && off + 4 <= RETVAL ensures LoadWord(m1, Cell(k.cells, off)) == LoadWord(e.mem, Cell(k.cells, off)) {
      OtherCell(e.mem, k.cells, ESP_BEFORE, esp, off);
    }
    StoreFrame(m1, Wrap(esp - 4), LE(Wrap(e.eip + 12)));
    AllCellsKept(m1, q.mem, k, Addresses(Span(Wrap(esp - 4), 4)));
    LoadStoredWord(m1, Wrap(esp - 4), Wrap(e.eip + 12));
    WrapShift(s.regs.esp + 4, -4);
    WordIsWrapped(s.regs.esp);
    AgreeTrans(s.mem, d.mem, e.mem, CellsOf(k), env.own + stack, Touched(k, env, esp));
    AgreeTrans(s.mem, e.mem, m1, Touched(k, env, esp), CellsOf(k), Touched(k, env, esp));
    AgreeTrans(s.mem, m1, q.mem, Touched(k, env, esp), Addresses(Span(Wrap(esp - 4), 4)), Touched(k, env, esp));
    forall j | 0 <= j < MAX_ARGS ensures CellIs(q.mem, k.cells, ARGS + 4 * j, LoadWord(s.mem, Wrap(esp + 4 * j))) {
      assert CellIs(d.mem, k.cells, ARGS + 4 * j, LoadWord(s.mem, Wrap(esp + 4 * j)));
    }
  }

  /** What the trampoline does with the method's return `r`. */
  ghost predicate HandedBack(k: Slot, env: World, r: State, e: State) {
    && e.eip == LoadWord(r.mem, Cell(k.cells, CALLER))
    && e.regs == r.regs && e.flags == r.flags
    && AgreeOutside(r.mem, e.mem, Touched(k, env, r.regs.esp))
    && CellIs(e.mem, k.cells, ESP_AFTER, r.regs.esp)
    && CellIs(e.mem, k.cells, RETVAL, r.regs.eax)
    && (forall off :: off in {CALLER, THIS_PTR, EDX_CELL, ESP_BEFORE} ==>
          LoadWord(e.mem, Cell(k.cells, off)) == LoadWord(r.mem, Cell(k.cells, off)))
  }

  /** From the real method's return to the slot's caller: registers, flags and ESP are the method's. */
  lemma ReturnFromMethod(k: Slot, env: World, natives: iset<Word>, o: Oracle, c: Config) returns (e: Config)
    requires SlotPlaced(k, env, natives) && StackFree(k, env, c.s.regs.esp)
    requires ObserverHonest(env, o, k.after)
    requires CodeAt(c.s.mem, k.base, Flat(SlotProgram(k))) && c.s.eip == Wrap(k.base + RecordAt(PushLength(k)))
    ensures Run(natives, o, c, 12) == Some(e)
    ensures HandedBack(k, env, c.s, e.s)
  {
    hide Flat, Run, CodeAt, Spares, Addresses, SlotProgram, ExecAll, IsPush, ObserverHonest, Wrap, Record, Leave, HandedBack;
    FrontLengths(k);
    WordIsWrapped(k.base + RecordAt(PushLength(k)));
    RecordExec(k, c.s, CodeOf(k));
    RunPartOfSlot(k, env, natives, o, c, 3);
    var d := Config(ExecAll(Listing(Record(k)), c.s), c.clock + 2);
    RegionKept(Listing(Record(k)), c.s, CodeOf(k));
    CodeKeptIn(c.s.mem, d.s.mem, k.base, Flat(SlotProgram(k)), CodeOf(k));
    EipAfterRecord(k, env, natives, c.s, d.s);
    var f := RunObserver(k, env, natives, o, d, 4);
    CodeSpared(d.s.mem, f.s.mem, k.base, Flat(SlotProgram(k)), env.own + Addresses(Below(d.s.regs.esp, env.depth + FRAME)));
    WordBelow(env, f.s.regs.esp);
    LeaveExec(k, f.s, CodeOf(k));
    WordIsWrapped(k.base + LeaveAt(PushLength(k)));
    RunPartOfSlot(k, env, natives, o, f, 5);
    e := Config(ExecAll(Listing(Leave(k)), f.s), f.clock + 2);
    RunAdd(natives, o, c, 2, 8);
    RunAdd(natives, o, c, 10, 2);
    HandedBackAll(k, env, c.s, d.s, f.s, e.s);
  }

  lemma EipAfterRecord(k: Slot, env: World, natives: iset<Word>, s: State, d: State)
    requires SlotPlaced(k, env, natives)
    requires s.eip == k.base + RecordAt(PushLength(k)) && d.eip == Wrap(s.eip + 11)
    ensures d.eip == k.base + ObserveAfterAt(PushLength(k))
  {
    hide SlotProgram, Flat, Addresses, IsPush, Front, Wrap;
    FrontLengths(k);
    WordIsWrapped(k.base + ObserveAfterAt(PushLength(k)));
  }

  /** The two recording stores change their own cells only. */
  lemma Recorded(k: Slot, s: State, m: Memory)
    requires m == StoreWord(StoreWord(s.mem, Cell(k.cells, ESP_AFTER), s.regs.esp), Cell(k.cells, RETVAL), s.regs.eax)
    ensures AgreeOutside(s.mem, m, CellsOf(k))
    ensures CellIs(m, k.cells, ESP_AFTER, s.regs.esp) && CellIs(m, k.cells, RETVAL, s.regs.eax)
    ensures forall off :: off in {CALLER, THIS_PTR, EDX_CELL, ESP_BEFORE} ==>
              LoadWord(m, Cell(k.cells, off)) == LoadWord(s.mem, Cell(k.cells, off))
  {
    hide Addresses, Wrap, Load, Store, LE, Cell;
    var m1 := StoreWord(s.mem, Cell(k.cells, ESP_AFTER), s.regs.esp);
    CellStored(s.mem, s.mem, k.cells, ESP_AFTER, s.regs.esp);
    CellStored(s.mem, m1, k.cells, RETVAL, s.regs.eax);
    OtherCell(m1, k.cells, RETVAL, s.regs.eax, ESP_AFTER);
    forall off | off in {CALLER, THIS_PTR, EDX_CELL, ESP_BEFORE}
      ensures LoadWord(m, Cell(k.cells, off)) == LoadWord(s.mem, Cell(k.cells, off))
    {
      OtherCell(s.mem, k.cells, ESP_AFTER, s.regs.esp, off);
      OtherCell(m1, k.cells, RETVAL, s.regs.eax, off);
    }
  }

  lemma HandedBackAll(k: Slot, env: World, s: State, d: State, f: State, e: State)
    requires env.depth + FRAME < SIZE
    requires StackFree(k, env, s.regs.esp) && CellsOf(k) !! env.own
    requires d.regs == s.regs && d.flags == s.flags
    requires d.mem == StoreWord(StoreWord(s.mem, Cell(k.cells, ESP_AFTER), s.regs.esp), Cell(k.cells, RETVAL), s.regs.eax)
    requires f.regs == d.regs && f.flags == d.flags
    requires AgreeOutside(d.mem, f.mem, env.own + Addresses(Below(d.regs.esp, env.depth + FRAME)))
    requires var w := LoadWord(f.mem, Cell(k.cells, CALLER));
             e == f.(eip := w, mem := StoreWord(f.mem, Wrap(f.regs.esp - 4), w))
    ensures HandedBack(k, env, s, e)
  {
    hide Addresses, Wrap, Load, Store, LE, Cell, Below;
    var esp: int := s.regs.esp;
    var stack := Addresses(Below(esp, env.depth + FRAME));
    Recorded(k, s, d.mem);
    WordBelow(env, esp);
    StoreFrame(f.mem, Wrap(esp - 4), LE(e.eip));
    var t := env.own + stack;
    AgreeTrans(d.mem, f.mem, e.mem, t, Addresses(Span(Wrap(esp - 4), 4)), t);
    AllCellsKept(d.mem, e.mem, k, t);
    AllCellsKept(d.mem, f.mem, k, t);
    AgreeTrans(s.mem, d.mem, e.mem, CellsOf(k), t, Touched(k, env, esp));
  }

  /** A method that ends in `ret bytes`: it may do anything to registers, flags and memory except change
      the trampoline's code or the slot's saved return address and ESP (it does not re-enter the slot). */
  ghost predicate MethodReturns(k: Slot, q: State, r: State, bytes: nat) {
    && r.eip == Top(q)
    && r.regs.esp == Wrap(q.regs.esp + 4 + bytes)
    && (CodeAt(q.mem, k.base, Flat(SlotProgram(k))) ==> CodeAt(r.mem, k.base, Flat(SlotProgram(k))))
    && LoadWord(r.mem, Cell(k.cells, CALLER)) == LoadWord(q.mem, Cell(k.cells, CALLER))
    && LoadWord(r.mem, Cell(k.cells, ESP_BEFORE)) == LoadWord(q.mem, Cell(k.cells, ESP_BEFORE))
  }

  /** The observers' reading of the two recorded stack pointers. */
  function InferredArgs(espBefore: Word, espAfter: Word): int {
    var d := Wrap(espAfter - espBefore);
    var delta := if d < 0x8000_0000 then d else d - SIZE;
    if delta >= 0 then delta / 4 else -1
  }

  /** The count for every signed difference of the two: a quarter of it, rounded down, or -1 when it is negative. */
  lemma CountInferred(espBefore: Word, delta: int)
    requires -0x8000_0000 <= delta < 0x8000_0000
    ensures InferredArgs(espBefore, Wrap(espBefore + delta)) == if delta >= 0 then delta / 4 else -1
  {
    var before: int := espBefore;
    WrapShift(before + delta, -before);
    if delta >= 0 {
      WordIsWrapped(delta);
    } else {
      WrapIs(delta, -1, delta + SIZE);
    }
    hide Wrap;
  }

  /** Through the trampoline the caller sees exactly what the method did: control returns to the caller with the
      method's registers and flags and ESP advanced by 4 + bytes, and the recorded delta is `bytes`. */
  lemma SlotCallIsTheMethodCall(k: Slot, env: World, natives: iset<Word>, o: Oracle, c: Config, bytes: nat)
    returns (q: Config, r: Config, e: Config)
    requires SlotPlaced(k, env, natives)
    requires bytes < 0x1_0000
    requires StackFree(k, env, AfterPop(c.s)) && StackFree(k, env, Wrap(AfterPop(c.s) + bytes))
    requires Addresses(Span(AfterPop(c.s), 4 * MAX_ARGS)) !! CellsOf(k)
    requires ObserverHonest(env, o, k.before) && ObserverHonest(env, o, k.after)
    requires CodeAt(c.s.mem, k.base, Flat(SlotProgram(k))) && c.s.eip == k.base
    requires LoadWord(c.s.mem, k.methodCell) in natives
    requires forall clock: nat, q: State :: Handed(k, env, c.s, q) ==> MethodReturns(k, q, o(clock, q), bytes)
    ensures Run(natives, o, c, 30) == Some(q) && Handed(k, env, c.s, q.s) && r.s == o(q.clock, q.s)
    ensures Run(natives, o, c, 43) == Some(e)
    ensures e.s.eip == Top(c.s)
    ensures e.s.regs == r.s.regs && e.s.flags == r.s.flags && e.s.regs.esp == Wrap(c.s.regs.esp + 4 + bytes)
    ensures AgreeOutside(r.s.mem, e.s.mem, Touched(k, env, e.s.regs.esp))
    ensures InferredArgs(LoadWord(e.s.mem, Cell(k.cells, ESP_BEFORE)), LoadWord(e.s.mem, Cell(k.cells, ESP_AFTER))) == bytes / 4
  {
    hide Flat, Run, CodeAt, Addresses, SlotProgram, IsPush, ObserverHonest, Wrap, SlotPlaced, StackFree, InferredArgs;
    q := ReachMethod(k, env, natives, o, c);
    r := Config(o(q.clock, q.s), q.clock + 1);
    assert Run(natives, o, q, 1) == Some(r) by { RunOne(natives, o, q); }
    assert MethodReturns(k, q.s, r.s, bytes);
    ReturnedEsp(c.s.regs.esp, bytes);
    e := ReturnFromMethod(k, env, natives, o, r);
    RunAdd(natives, o, c, 30, 1);
    RunAdd(natives, o, c, 31, 12);
  }

  lemma ReturnedEsp(esp: Word, bytes: nat)
    requires bytes < 0x1_0000
    ensures Wrap(Wrap(esp + 4) + bytes) == Wrap(esp + 4 + bytes)
    ensures InferredArgs(Wrap(esp + 4), Wrap(esp + 4 + bytes)) == bytes / 4
  {
    var a: int, b: int := Wrap(esp + 4), Wrap(esp + 4 + bytes);
    WrapShift(esp + 4, bytes);
    assert Wrap(b - a) == bytes by {
      WrapShift(esp + 4 + bytes, -a);
      WrapShift(esp + 4, esp + 4 + bytes);
      WordIsWrapped(bytes);
      hide Wrap;
    }
    hide Wrap;
  }

  // --- what the observers are told ---

  /** An observer has been entered for slot `i` of the main vtable, or for slot `i` of sub-object `sub`. */
  ghost predicate EnteredFor(place: Place, q: State, observer: Word, ret: Word) {
    && q.eip == observer && Top(q) == ret
    && LoadWord(q.mem, Wrap(q.regs.esp + 4)) == match place
                                                case MainSlot(i) => i
                                                case SubSlot(sub, i) => 0x100 * sub + i
  }

  lemma PushedNumber(k: Slot)
    ensures k.Push().insn.PushImm? && k.Push().insn.imm == match k.place case MainSlot(i) => i case SubSlot(sub, i) => 0x100 * sub + i
  {
  }

  /** The observer's frame, and every cell as it was before. */
  lemma ObserverFinds(k: Slot, env: World, s: State, target: Word)
    requires env.depth + FRAME < SIZE && StackFree(k, env, s.regs.esp)
    ensures var q := AtObserver(s, k.Push(), target);
            && EnteredFor(k.place, q, target, Wrap(s.eip + 7 + PushLength(k)))
            && forall off :: 0 <= off && off + 4 <= CELLS ==> LoadWord(q.mem, Cell(k.cells, off)) == LoadWord(s.mem, Cell(k.cells, off))
  {
    hide Addresses, Load, Wrap, FromLE, FrameMemory, RegsImage, Slot.Push, CellsOf, CodeOf, Cell;
    PushedNumber(k);
    var esp: int := s.regs.esp;
    var q := AtObserver(s, k.Push(), target);
    FrameHolds(s.mem, s.regs.esp, RegsImage(s.regs), s.flags, k.Push().insn.imm, Wrap(s.eip + 7 + PushLength(k)));
    WrapShift(esp - 44, 4);
    SpanInside(esp, -(env.depth + FRAME), env.depth + FRAME, -FRAME, FRAME);
    AllCellsKept(s.mem, q.mem, k, Addresses(Below(esp, FRAME)));
  }

  /** From the slot's trampoline to the entry of the first observer: it is called with the slot's own number and finds the
      call's return address, object, EDX and stack words in the slot's cells. */
  lemma FirstObserverEntered(k: Slot, env: World, natives: iset<Word>, o: Oracle, c: Config) returns (q: Config)
    requires SlotPlaced(k, env, natives) && StackFree(k, env, AfterPop(c.s))
    requires Addresses(Span(AfterPop(c.s), 4 * MAX_ARGS)) !! CellsOf(k)
    requires CodeAt(c.s.mem, k.base, Flat(SlotProgram(k))) && c.s.eip == k.base
    ensures Run(natives, o, c, 24) == Some(q)
    ensures EnteredFor(k.place, q.s, k.before, Wrap(k.base + 96 + PushLength(k)))
    ensures CellIs(q.s.mem, k.cells, CALLER, Top(c.s)) && CellIs(q.s.mem, k.cells, THIS_PTR, c.s.regs.ecx)
    ensures CellIs(q.s.mem, k.cells, EDX_CELL, c.s.regs.edx) && ArgsKept(q.s.mem, k.cells, c.s.mem, AfterPop(c.s), MAX_ARGS)
  {
    hide Flat, Run, CodeAt, Spares, Addresses, SlotProgram, ExecAll, IsPush, Wrap, Capture, AtObserver, EnteredFor;
    hide Load, LE, FromLE, Store, Cell, Slot.Push;
    var d := RunCapture(k, env, natives, o, c);
    CaptureExec(k.cells, c.s, CodeOf(k));
    FrontLengths(k);
    WordIsWrapped(k.base + OBSERVE_BEFORE);
    ReachObserver(k, env, natives, o, d, 1);
    RunAdd(natives, o, c, 20, 4);
    q := Run(natives, o, c, 24).value;
    ObserverFinds(k, env, d.s, k.before);
    forall j | 0 <= j < MAX_ARGS ensures CellIs(q.s.mem, k.cells, ARGS + 4 * j, LoadWord(c.s.mem, Wrap(AfterPop(c.s) + 4 * j))) {
      assert CellIs(d.s.mem, k.cells, ARGS + 4 * j, LoadWord(c.s.mem, Wrap(AfterPop(c.s) + 4 * j)));
    }
  }

  /** From the method's return to the entry of the second observer: the same number, and the method's return value and ESP
      in the cells beside what the entry saved. */
  lemma SecondObserverEntered(k: Slot, env: World, natives: iset<Word>, o: Oracle, c: Config) returns (q: Config)
    requires SlotPlaced(k, env, natives) && StackFree(k, env, c.s.regs.esp)
    requires CodeAt(c.s.mem, k.base, Flat(SlotProgram(k))) && c.s.eip == Wrap(k.base + RecordAt(PushLength(k)))
    ensures Run(natives, o, c, 6) == Some(q)
    ensures EnteredFor(k.place, q.s, k.after, Wrap(k.base + 131 + 2 * PushLength(k)))
    ensures CellIs(q.s.mem, k.cells, ESP_AFTER, c.s.regs.esp) && CellIs(q.s.mem, k.cells, RETVAL, c.s.regs.eax)
    ensures forall off :: off in {CALLER, THIS_PTR, EDX_CELL, ESP_BEFORE} ==>
              LoadWord(q.s.mem, Cell(k.cells, off)) == LoadWord(c.s.mem, Cell(k.cells, off))
  {
    hide Flat, Run, CodeAt, Spares, Addresses, SlotProgram, ExecAll, IsPush, Wrap, Record, AtObserver, EnteredFor;
    hide Load, LE, FromLE, Store, Cell, Slot.Push;
    FrontLengths(k);
    WordIsWrapped(k.base + RecordAt(PushLength(k)));
    RecordExec(k, c.s, CodeOf(k));
    RunPartOfSlot(k, env, natives, o, c, 3);
    var d := Config(ExecAll(Listing(Record(k)), c.s), c.clock + 2);
    RegionKept(Listing(Record(k)), c.s, CodeOf(k));
    CodeKeptIn(c.s.mem, d.s.mem, k.base, Flat(SlotProgram(k)), CodeOf(k));
    EipAfterRecord(k, env, natives, c.s, d.s);
    ReachObserver(k, env, natives, o, d, 4);
    RunAdd(natives, o, c, 2, 4);
    q := Run(natives, o, c, 6).value;
    Recorded(k, c.s, d.s.mem);
    ObserverFinds(k, env, d.s, k.after);
  }

  /** In a call through a slot both observers are told the slot's own number: i for slot i of the main vtable,
      0x100 * sub + i for slot i of a sub-object's. */
  lemma ObserversToldTheirSlot(k: Slot, env: World, natives: iset<Word>, o: Oracle, c: Config, bytes: nat)
    returns (p: Config, q: Config)
    requires SlotPlaced(k, env, natives)
    requires StackFree(k, env, AfterPop(c.s)) && StackFree(k, env, Wrap(AfterPop(c.s) + bytes))
    requires Addresses(Span(AfterPop(c.s), 4 * MAX_ARGS)) !! CellsOf(k)
    requires ObserverHonest(env, o, k.before)
    requires CodeAt(c.s.mem, k.base, Flat(SlotProgram(k))) && c.s.eip == k.base
    requires LoadWord(c.s.mem, k.methodCell) in natives
    requires forall clock: nat, q: State :: Handed(k, env, c.s, q) ==> MethodReturns(k, q, o(clock, q), bytes)
    ensures Run(natives, o, c, 24) == Some(p) && EnteredFor(k.place, p.s, k.before, Wrap(k.base + 96 + PushLength(k)))
    ensures Run(natives, o, c, 37) == Some(q) && EnteredFor(k.place, q.s, k.after, Wrap(k.base + 131 + 2 * PushLength(k)))
    ensures bytes < 0x1_0000 ==>
              InferredArgs(LoadWord(q.s.mem, Cell(k.cells, ESP_BEFORE)), LoadWord(q.s.mem, Cell(k.cells, ESP_AFTER))) == bytes / 4
  {
    hide Flat, Run, CodeAt, Addresses, SlotProgram, IsPush, ObserverHonest, Wrap, SlotPlaced, StackFree, InferredArgs, EnteredFor;
    p := FirstObserverEntered(k, env, natives, o, c);
    var m := ReachMethod(k, env, natives, o, c);
    var r := Config(o(m.clock, m.s), m.clock + 1);
    assert Run(natives, o, m, 1) == Some(r) by { RunOne(natives, o, m); }
    assert MethodReturns(k, m.s, r.s, bytes);
    EspReturned(c.s.regs.esp, bytes);
    if bytes < 0x1_0000 { ReturnedEsp(c.s.regs.esp, bytes); }
    q := SecondObserverEntered(k, env, natives, o, r);
    RunAdd(natives, o, c, 30, 1);
    RunAdd(natives, o, c, 31, 6);
  }

  lemma EspReturned(esp: Word, bytes: nat)
    ensures Wrap(Wrap(esp + 4) + bytes) == Wrap(esp + 4 + bytes)
  {
    WrapShift(esp + 4, bytes);
  }
}
