/** The per-slot trampolines of the TerSafe vtables: observe, call the real method, observe, return. */
module VtableTrampoline {
  import opened Words
  import opened Machine
  import opened Decoder
  import opened Execution
  import opened Assembler
  import opened Hooks
  import opened ObserverCall
  import opened SlotCapture
  import opened SlotPlaces

  /** One slot: the trampoline's address, its static cells, the address of the word holding the real
      method, the two observers, and which slot of which vtable it is. */
  datatype Slot = Slot(base: Word, cells: Word, methodCell: Word, before: Word, after: Word, place: Place)
  {
    /** push imm8 for a main slot, push imm32 for a sub-slot. */
    function Push(): (c: Chunk)
      ensures IsPush(c) && |c.bytes| == if place.MainSlot? then 2 else 5
    {
      PushesEncode(Number(place) % 0x100, Number(place));
      if place.MainSlot? then PushByte(Number(place)) else PushDword(Number(place))
    }
  }

  /** Store ESP, call through the saved pointer. */
  function Forward(k: Slot): (p: Program)
    ensures |p| == 2
  {
    [StoreReg(0x25, ESP, Cell(k.cells, ESP_BEFORE)), Chunk([0xFF, 0x15] + LE(k.methodCell), CallRm(At(None, k.methodCell)))]
  }

  /** Store ESP and the return value. */
  function Record(k: Slot): (p: Program)
    ensures |p| == 2
  {
    [StoreReg(0x25, ESP, Cell(k.cells, ESP_AFTER)), StoreEax(Cell(k.cells, RETVAL))]
  }

  /** Return through the saved return address. */
  function Leave(k: Slot): (p: Program)
    ensures |p| == 2
  {
    [Chunk([0xFF, 0x35] + LE(Cell(k.cells, CALLER)), PushRm(At(None, Cell(k.cells, CALLER)))), Chunk([0xC3], Ret(0))]
  }

  // Offsets of the parts; `n` is the length of the push instruction.
  const OBSERVE_BEFORE := 89
  function ForwardAt(n: nat): nat { OBSERVE_BEFORE + 12 + n }
  function RecordAt(n: nat): nat { ForwardAt(n) + 12 }
  function ObserveAfterAt(n: nat): nat { RecordAt(n) + 11 }
  function LeaveAt(n: nat): nat { ObserveAfterAt(n) + 12 + n }

  function PushLength(k: Slot): nat {
    |k.Push().bytes|
  }

  function ObserveBefore(k: Slot): Program {
    Observe(Wrap(k.base + OBSERVE_BEFORE), k.Push(), k.before)
  }

  function ObserveAfter(k: Slot): Program {
    Observe(Wrap(k.base + ObserveAfterAt(PushLength(k))), k.Push(), k.after)
  }

  function SlotProgram(k: Slot): Program {
    Capture(k.cells) + ObserveBefore(k) + Forward(k) + Record(k) + ObserveAfter(k) + Leave(k)
  }

  lemma TailsAssembled(k: Slot)
    ensures Assembled(Forward(k)) && Assembled(Record(k)) && Assembled(Leave(k))
    ensures |Flat(Forward(k))| == 12 && |Flat(Record(k))| == 11 && |Flat(Leave(k))| == 7
    ensures StraightLine(Listing(Forward(k))) && StraightLine(Listing(Record(k))) && StraightLine(Listing(Leave(k)))
  {
    PointerEncodes(k.methodCell);
    PointerEncodes(Cell(k.cells, CALLER));
    hide Encodes, Cell, LE;
    StoresEncode(Cell(k.cells, ESP_BEFORE));
    StoresEncode(Cell(k.cells, ESP_AFTER));
    StoresEncode(Cell(k.cells, RETVAL));
    FlatTwo(Forward(k));
    FlatTwo(Record(k));
    FlatTwo(Leave(k));
  }

  lemma PointerEncodes(addr: Word)
    ensures Encodes([0xFF, 0x15] + LE(addr), CallRm(At(None, addr)))
    ensures Encodes([0xFF, 0x35] + LE(addr), PushRm(At(None, addr)))
    ensures Encodes([0xC3], Ret(0))
  {
    var c, p := [0xFF, 0x15] + LE(addr), [0xFF, 0x35] + LE(addr);
    FromLEofLE(addr);
    assert [c[2], c[3], c[4], c[5]] == LE(addr);
    assert [p[2], p[3], p[4], p[5]] == LE(addr);
  }

  lemma ObserveLength(a: Word, push: Chunk, target: Word)
    requires IsPush(push)
    ensures |Flat(Observe(a, push, target))| == 12 + |push.bytes|
  {
    hide Flat;
    EnterAssembled(a, push, target);
    FlatAppend(Enter(a, push, target), RESTORE);
  }

  ghost function CodeOf(k: Slot): iset<Word> {
    Addresses(Span(k.base, |Flat(SlotProgram(k))|))
  }

  ghost function CellsOf(k: Slot): iset<Word> {
    Addresses(CellsSpan(k.cells))
  }

  /** The trampoline's code, its cells, the pointer to the real method and the observers' memory lie apart. */
  ghost predicate SlotPlaced(k: Slot, env: World, natives: iset<Word>) {
    && env.depth + FRAME < SIZE
    && k.base + |Flat(SlotProgram(k))| < SIZE
    && k.before in natives && k.after in natives
    && CodeOf(k) !! natives + env.own + CellsOf(k)
    && CellsOf(k) !! env.own
    && Addresses(Span(k.methodCell, 4)) !! env.own + CellsOf(k)
  }

  /** The stack that the trampoline uses below `esp` is really stack. */
  ghost predicate StackFree(k: Slot, env: World, esp: Word) {
    Addresses(Below(esp, env.depth + FRAME)) !! env.own + CodeOf(k) + CellsOf(k) + Addresses(Span(k.methodCell, 4))
  }

  ghost function Touched(k: Slot, env: World, esp: Word): iset<Word> {
    env.own + CellsOf(k) + Addresses(Below(esp, env.depth + FRAME))
  }

  lemma ForwardExec(k: Slot, s: State, region: iset<Word>)
    requires region !! CellsOf(k) + Addresses(Span(Wrap(s.regs.esp - 4), 4))
    requires Addresses(Span(k.methodCell, 4)) !! CellsOf(k)
    ensures ExecAll(Listing(Forward(k)), s)
         == State(s.regs.(esp := Wrap(s.regs.esp - 4)), s.flags, LoadWord(s.mem, k.methodCell),
                  StoreWord(StoreWord(s.mem, Cell(k.cells, ESP_BEFORE), s.regs.esp), Wrap(s.regs.esp - 4), Wrap(s.eip + 12)))
    ensures Spares(Listing(Forward(k)), s, region)
  {
    hide Store, Wrap, Addresses, Exec, Writes, Load, LE;
    var l, eip: int, cell := Listing(Forward(k)), s.eip, Cell(k.cells, ESP_BEFORE);
    var m1 := StoreWord(s.mem, cell, s.regs.esp);
    var s1 := State(s.regs, s.flags, Wrap(eip + 6), m1);
    var s2 := State(s.regs.(esp := Wrap(s.regs.esp - 4)), s.flags, LoadWord(s.mem, k.methodCell),
                    StoreWord(m1, Wrap(s.regs.esp - 4), Wrap(eip + 12)));
    CellInside(k.cells, ESP_BEFORE);
    LoadPast(s.mem, cell, LE(s.regs.esp), k.methodCell, 4);
    assert Exec(l[0], s) == s1 by { StoreAbsIs(cell, ESP, 6, s); }
    assert Exec(l[1], s1) == s2 by { CallRmIs(At(None, k.methodCell), 6, s1); WrapShift(eip + 6, 6); }
    var ss := [s, s1, s2];
    assert Traces(l, ss, region) by { StoreAbsIs(cell, ESP, 6, s); CallRmIs(At(None, k.methodCell), 6, s1); }
    TraceEnds(l, ss, region);
  }

  lemma RecordExec(k: Slot, s: State, region: iset<Word>)
    requires region !! CellsOf(k)
    ensures ExecAll(Listing(Record(k)), s)
         == s.(eip := Wrap(s.eip + 11),
               mem := StoreWord(StoreWord(s.mem, Cell(k.cells, ESP_AFTER), s.regs.esp), Cell(k.cells, RETVAL), s.regs.eax))
    ensures Spares(Listing(Record(k)), s, region)
  {
    hide Store, Wrap, Addresses, Exec, Writes, Load, LE;
    var l, eip: int := Listing(Record(k)), s.eip;
    var c1, c2 := Cell(k.cells, ESP_AFTER), Cell(k.cells, RETVAL);
    var s1 := s.(eip := Wrap(eip + 6), mem := StoreWord(s.mem, c1, s.regs.esp));
    var s2 := s.(eip := Wrap(eip + 11), mem := StoreWord(s1.mem, c2, s.regs.eax));
    CellInside(k.cells, ESP_AFTER);
    CellInside(k.cells, RETVAL);
    assert Exec(l[0], s) == s1 by { StoreAbsIs(c1, ESP, 6, s); }
    assert Exec(l[1], s1) == s2 by { StoreAbsIs(c2, EAX, 5, s1); WrapShift(eip + 6, 5); }
    var ss := [s, s1, s2];
    assert Traces(l, ss, region) by { StoreAbsIs(c1, ESP, 6, s); StoreAbsIs(c2, EAX, 5, s1); }
    TraceEnds(l, ss, region);
  }

  lemma LeaveExec(k: Slot, s: State, region: iset<Word>)
    requires region !! Addresses(Span(Wrap(s.regs.esp - 4), 4))
    ensures var w := LoadWord(s.mem, Cell(k.cells, CALLER));
            ExecAll(Listing(Leave(k)), s) == s.(eip := w, mem := StoreWord(s.mem, Wrap(s.regs.esp - 4), w))
    ensures Spares(Listing(Leave(k)), s, region)
  {
    hide Store, Wrap, Addresses, Exec, Writes, Load, LE;
    var l, c := Listing(Leave(k)), Cell(k.cells, CALLER);
    var w := LoadWord(s.mem, c);
    var s1 := State(s.regs.(esp := Wrap(s.regs.esp - 4)), s.flags, Wrap(s.eip + 6), StoreWord(s.mem, Wrap(s.regs.esp - 4), w));
    var s2 := s.(eip := w, mem := s1.mem);
    assert Exec(l[0], s) == s1 by { PushAbsIs(c, s); }
    assert Exec(l[1], s1) == s2 by {
      RetIs(s1);
      LoadStoredWord(s.mem, Wrap(s.regs.esp - 4), w);
      WrapShift(s.regs.esp - 4, 4);
      WordIsWrapped(s.regs.esp);
    }
    var ss := [s, s1, s2];
    assert Traces(l, ss, region) by { PushAbsIs(c, s); RetIs(s1); NowhereEmpty(); }
    TraceEnds(l, ss, region);
  }

  /** The parts, in order. */
  function Part(k: Slot, i: nat): Program
    requires i < 6
  {
    [Capture(k.cells), ObserveBefore(k), Forward(k), Record(k), ObserveAfter(k), Leave(k)][i]
  }

  function Front(k: Slot, i: nat): Program
    requires i <= 6
  {
    if i == 0 then [] else Front(k, i - 1) + Part(k, i - 1)
  }

  function Rest(k: Slot, i: nat): Program
    requires i <= 6
    decreases 6 - i
  {
    if i == 6 then [] else Part(k, i) + Rest(k, i + 1)
  }

  lemma {:induction false} PartsMakeAll(k: Slot, i: nat)
    requires i <= 6
    ensures Front(k, i) + Rest(k, i) == SlotProgram(k)
    decreases i
  {
    hide Part;
    if i == 0 {
      AllParts(k);
    } else {
      PartsMakeAll(k, i - 1);
    }
  }

  lemma AllParts(k: Slot)
    ensures Rest(k, 0) == SlotProgram(k)
  {
    hide Capture, ObserveBefore, Forward, Record, ObserveAfter, Leave;
    var c, o, f, r, a, l := Capture(k.cells), ObserveBefore(k), Forward(k), Record(k), ObserveAfter(k), Leave(k);
    assert Rest(k, 6) == [] && Rest(k, 5) == l + Rest(k, 6) && Rest(k, 4) == a + Rest(k, 5);
    assert Rest(k, 3) == r + Rest(k, 4) && Rest(k, 2) == f + Rest(k, 3) && Rest(k, 1) == o + Rest(k, 2);
  }

  /** One part of the trampoline runs to its end. */
  lemma RunPartOfSlot(k: Slot, env: World, natives: iset<Word>, o: Oracle, c: Config, i: nat)
    requires i < 6 && i != 1 && i != 4
    requires SlotPlaced(k, env, natives)
    requires CodeAt(c.s.mem, k.base, Flat(SlotProgram(k)))
    requires |Flat(Front(k, i))| < |Flat(SlotProgram(k))| && c.s.eip == k.base + |Flat(Front(k, i))|
    requires Spares(Listing(Part(k, i)), c.s, CodeOf(k))
    ensures Run(natives, o, c, |Part(k, i)|)
         == Some(Config(ExecAll(Listing(Part(k, i)), c.s), c.clock + |Part(k, i)|))
  {
    hide Flat, Run, CodeAt, Spares, Addresses, Assembled, Capture, Forward, Record, Leave, SlotProgram, ExecAll, IsPush, Leaves;
    var p := Part(k, i);
    CaptureAssembled(k.cells);
    TailsAssembled(k);
    PartsMakeAll(k, i);
    assert Rest(k, i) == p + Rest(k, i + 1);
    assert Front(k, i) + p + Rest(k, i + 1) == SlotProgram(k);
    RunProgram(natives, o, c, k.base, Front(k, i), p, Rest(k, i + 1));
  }

  function ObserverOf(k: Slot, i: nat): Word {
    if i == 1 then k.before else k.after
  }

  /** The fourth or fifth part of the trampoline is an observer call at the place where it starts. */
  lemma ObservePart(k: Slot, env: World, natives: iset<Word>, s: State, i: nat)
    requires i == 1 || i == 4
    requires SlotPlaced(k, env, natives) && s.eip == k.base + |Flat(Front(k, i))|
    ensures Front(k, i) + Observe(s.eip, k.Push(), ObserverOf(k, i)) + Rest(k, i + 1) == SlotProgram(k)
  {
    hide Flat, Addresses, Capture, Forward, Record, Leave, SlotProgram, IsPush, Observe, Slot.Push;
    FrontLengths(k);
    PartsMakeAll(k, i);
    assert Rest(k, i) == Part(k, i) + Rest(k, i + 1);
    assert Front(k, i) + Part(k, i) + Rest(k, i + 1) == SlotProgram(k);
    WordIsWrapped(s.eip);
  }

  /** The observer is entered with the registers and flags saved, its argument and its return address on the stack. */
  lemma ReachObserver(k: Slot, env: World, natives: iset<Word>, o: Oracle, c: Config, i: nat)
    requires i == 1 || i == 4
    requires SlotPlaced(k, env, natives) && StackFree(k, env, c.s.regs.esp)
    requires CodeAt(c.s.mem, k.base, Flat(SlotProgram(k)))
    requires c.s.eip == k.base + |Flat(Front(k, i))|
    ensures Run(natives, o, c, 4) == Some(Config(AtObserver(c.s, k.Push(), ObserverOf(k, i)), c.clock + 4))
  {
    hide Flat, Run, CodeAt, Addresses, SlotProgram, Observe, Slot.Push, Front, Rest, AtObserver, IsPush;
    ObservePart(k, env, natives, c.s, i);
    FrontLengths(k);
    EnterRuns(env, natives, o, c, k.base, Front(k, i), k.Push(), ObserverOf(k, i), Rest(k, i + 1));
  }

  /** An observer call of the trampoline passes. */
  lemma RunObserver(k: Slot, env: World, natives: iset<Word>, o: Oracle, c: Config, i: nat) returns (d: Config)
    requires i == 1 || i == 4
    requires SlotPlaced(k, env, natives) && StackFree(k, env, c.s.regs.esp)
    requires ObserverHonest(env, o, ObserverOf(k, i))
    requires CodeAt(c.s.mem, k.base, Flat(SlotProgram(k)))
    requires c.s.eip == k.base + |Flat(Front(k, i))|
    ensures Run(natives, o, c, 8) == Some(d)
    ensures d.s.regs == c.s.regs && d.s.flags == c.s.flags && d.s.eip == Wrap(c.s.eip + 12 + PushLength(k))
    ensures AgreeOutside(c.s.mem, d.s.mem, env.own + Addresses(Below(c.s.regs.esp, env.depth + FRAME)))
  {
    hide Flat, Run, CodeAt, Addresses, SlotProgram, IsPush, ObserverHonest, Observe, Slot.Push, Front, Rest;
    ObservePart(k, env, natives, c.s, i);
    FrontLengths(k);
    d := ObserverPasses(env, natives, o, c, k.base, Front(k, i), k.Push(), ObserverOf(k, i), Rest(k, i + 1));
  }

  function PartSize(n: nat, i: nat): nat
    requires i < 6
  {
    [OBSERVE_BEFORE, 12 + n, 12, 11, 12 + n, 7][i]
  }

  function StartOf(n: nat, i: nat): nat
    requires i <= 6
  {
    if i == 0 then 0 else StartOf(n, i - 1) + PartSize(n, i - 1)
  }

  lemma PartLength(k: Slot, i: nat)
    requires i < 6
    ensures |Flat(Part(k, i))| == PartSize(PushLength(k), i)
  {
    hide Flat, Assembled, IsPush, Capture, Forward, Record, Leave, Observe;
    CaptureAssembled(k.cells);
    TailsAssembled(k);
    ObserveLength(Wrap(k.base + OBSERVE_BEFORE), k.Push(), k.before);
    ObserveLength(Wrap(k.base + ObserveAfterAt(PushLength(k))), k.Push(), k.after);
  }

  lemma {:induction false} FrontLength(k: Slot, i: nat)
    requires i <= 6
    ensures |Flat(Front(k, i))| == StartOf(PushLength(k), i)
    decreases i
  {
    hide Part, IsPush;
    if i > 0 {
      FrontLength(k, i - 1);
      PartLength(k, i - 1);
      FlatAppend(Front(k, i - 1), Part(k, i - 1));
    }
  }

  /** Where each part starts. */
  lemma FrontLengths(k: Slot)
    ensures var n := PushLength(k);
            && |Flat(Front(k, 0))| == 0
            && |Flat(Front(k, 1))| == OBSERVE_BEFORE
            && |Flat(Front(k, 2))| == ForwardAt(n)
            && |Flat(Front(k, 3))| == RecordAt(n)
            && |Flat(Front(k, 4))| == ObserveAfterAt(n)
            && |Flat(Front(k, 5))| == LeaveAt(n)
            && |Flat(SlotProgram(k))| == LeaveAt(n) + 7
  {
    hide Flat, Part, IsPush, SlotProgram, Front;
    forall i | 0 <= i <= 6 ensures |Flat(Front(k, i))| == StartOf(PushLength(k), i) {
      FrontLength(k, i);
    }
    PartsMakeAll(k, 6);
    assert Rest(k, 6) == [];
    assert Front(k, 6) + [] == Front(k, 6);
    Starts(PushLength(k));
  }

  lemma Starts(n: nat)
    ensures StartOf(n, 0) == 0 && StartOf(n, 1) == OBSERVE_BEFORE && StartOf(n, 2) == ForwardAt(n)
    ensures StartOf(n, 3) == RecordAt(n) && StartOf(n, 4) == ObserveAfterAt(n) && StartOf(n, 5) == LeaveAt(n)
    ensures StartOf(n, 6) == LeaveAt(n) + 7
  {
  }
}
