/** Nested calls through hooked slots: every slot keeps what it must remember in static cells. */
module NestedCalls {
  import opened Words
  import opened Machine
  import opened Decoder
  import opened Execution
  import opened Assembler
  import opened Hooks
  import opened ObserverCall
  import opened SlotCapture
  import opened VtableTrampoline
  import opened SlotForwarding

  /** A call through `slot` that saves `word` in the slot's cell, and the calls made meanwhile. */
  datatype Call = Call(slot: nat, word: Word, inner: seq<Call>)

  /** One cell of each slot. */
  type Cells = map<nat, Word>

  /** The cells after the calls: entry overwrites the cell, exit only reads it. */
  function After(cs: seq<Call>, cells: Cells): Cells
    decreases cs
  {
    if cs == [] then cells
    else var c := cs[0]; After(cs[1..], After(c.inner, cells[c.slot := c.word]))
  }

  /** Every call in the run finds its own word again at its exit. */
  predicate AllFindOwn(cs: seq<Call>, cells: Cells)
    decreases cs
  {
    cs == [] ||
    var c := cs[0];
    var entered := cells[c.slot := c.word];
    var atExit := After(c.inner, entered);
    && AllFindOwn(c.inner, entered)
    && c.slot in atExit && atExit[c.slot] == c.word
    && AllFindOwn(cs[1..], atExit)
  }

  /** The word saved by the last call through `slot` that was begun in the run. */
  function LastEntry(cs: seq<Call>, slot: nat): Option<Word>
    decreases cs
  {
    if cs == [] then None else
    var c := cs[0];
    var later := LastEntry(cs[1..], slot);
    var inside := LastEntry(c.inner, slot);
    if later.Some? then later
    else if inside.Some? then inside
    else if c.slot == slot then Some(c.word)
    else None
  }

  /** A slot re-entered while active is last re-entered with the same word. */
  predicate ReentersAlike(cs: seq<Call>)
    decreases cs
  {
    cs == [] ||
    var c := cs[0];
    && (LastEntry(c.inner, c.slot).Some? ==> LastEntry(c.inner, c.slot).value == c.word)
    && ReentersAlike(c.inner)
    && ReentersAlike(cs[1..])
  }

  predicate Enters(cs: seq<Call>, slot: nat)
    decreases cs
  {
    cs != [] && (cs[0].slot == slot || Enters(cs[0].inner, slot) || Enters(cs[1..], slot))
  }

  /** No slot is entered while a call through it is active. */
  predicate NoReentry(cs: seq<Call>)
    decreases cs
  {
    cs == [] || (!Enters(cs[0].inner, cs[0].slot) && NoReentry(cs[0].inner) && NoReentry(cs[1..]))
  }

  lemma {:induction false} CellIsLastEntry(cs: seq<Call>, cells: Cells, slot: nat)
    ensures var e := LastEntry(cs, slot);
            var after := After(cs, cells);
            if e.Some? then slot in after && after[slot] == e.value
            else (slot in after <==> slot in cells) && (slot in cells ==> after[slot] == cells[slot])
    decreases cs
  {
    if cs != [] {
      var c := cs[0];
      var entered := cells[c.slot := c.word];
      CellIsLastEntry(c.inner, entered, slot);
      CellIsLastEntry(cs[1..], After(c.inner, entered), slot);
    }
  }

  /** Exactly when a static cell is good enough: every call of a nested run finds its own word again if and only if no
      slot is last re-entered, while active, with another. */
  lemma {:induction false} CellsSufficeExactlyWhen(cs: seq<Call>, cells: Cells)
    ensures AllFindOwn(cs, cells) <==> ReentersAlike(cs)
    decreases cs
  {
    if cs != [] {
      var c := cs[0];
      var entered := cells[c.slot := c.word];
      CellIsLastEntry(c.inner, entered, c.slot);
      CellsSufficeExactlyWhen(c.inner, entered);
      CellsSufficeExactlyWhen(cs[1..], After(c.inner, entered));
    }
  }

  lemma {:induction false} NotEnteredHasNoEntry(cs: seq<Call>, slot: nat)
    ensures Enters(cs, slot) <==> LastEntry(cs, slot).Some?
    decreases cs
  {
    if cs != [] {
      NotEnteredHasNoEntry(cs[0].inner, slot);
      NotEnteredHasNoEntry(cs[1..], slot);
    }
  }

  lemma {:induction false} NoReentrySuffices(cs: seq<Call>)
    requires NoReentry(cs)
    ensures ReentersAlike(cs)
    decreases cs
  {
    if cs != [] {
      NotEnteredHasNoEntry(cs[0].inner, cs[0].slot);
      NoReentrySuffices(cs[0].inner);
      NoReentrySuffices(cs[1..]);
    }
  }

  // --- the machine ---

  /** What a slot saves at its entry in a cell of its own and uses when the method has returned: where to return to,
      ESP for the count of the arguments, and the object whose changes are logged. */
  datatype Saved = ReturnAddress | StackPointer | ThisPointer
  {
    function Offset(): int {
      match this
      case ReturnAddress => CALLER
      case StackPointer => ESP_BEFORE
      case ThisPointer => THIS_PTR
    }

    function Of(s: State): Word {
      match this
      case ReturnAddress => Top(s)
      case StackPointer => AfterPop(s)
      case ThisPointer => s.regs.ecx
    }
  }

  /** A process with hooked slots. */
  datatype Host = Host(slots: seq<Slot>, env: World, natives: iset<Word>, o: Oracle)
  {
    ghost predicate Valid() {
      && (forall i :: 0 <= i < |slots| ==>
            && SlotPlaced(slots[i], env, natives)
            && ObserverHonest(env, o, slots[i].before) && ObserverHonest(env, o, slots[i].after))
      && (forall i, j :: 0 <= i < |slots| && 0 <= j < |slots| && i != j ==>
            CellsOf(slots[i]) !! CellsOf(slots[j]) + CodeOf(slots[j]))
    }

    /** The stack below `esp` is free of every slot's code and cells. */
    ghost predicate Clear(esp: Word) {
      forall i :: 0 <= i < |slots| ==> StackFree(slots[i], env, esp)
    }

    ghost predicate InPlace(m: Memory) {
      forall i :: 0 <= i < |slots| ==> CodeAt(m, slots[i].base, Flat(SlotProgram(slots[i])))
    }

    function CellsFor(w: Saved, m: Memory): Cells {
      map i: nat | i < |slots| :: LoadWord(m, Cell(slots[i].cells, w.Offset()))
    }

    /** What the game's own code does between calls through slots: it leaves the trampolines and these cells alone. */
    ghost predicate Between(w: Saved, a: State, b: State) {
      CellsFor(w, a.mem) == CellsFor(w, b.mem) && (InPlace(a.mem) ==> InPlace(b.mem))
    }
  }

  /** A call through a slot as the machine makes it: at the trampoline, at the real method, back from the method, past
      the trampoline; and the calls made by the method meanwhile. */
  datatype Activation = Activation(slot: nat, entry: Config, handed: Config, returned: Config, exit: Config, inner: seq<Activation>)

  /** The two passes through the slot's trampoline are runs of its code. */
  ghost predicate Framed(h: Host, a: Activation) {
    && a.slot < |h.slots|
    && var k := h.slots[a.slot];
       && a.entry.s.eip == k.base && h.Clear(AfterPop(a.entry.s))
       && Addresses(Span(AfterPop(a.entry.s), 4 * MAX_ARGS)) !! CellsOf(k)
       && Run(h.natives, h.o, a.entry, 30) == Some(a.handed)
       && a.returned.s.eip == Wrap(k.base + RecordAt(PushLength(k))) && h.Clear(a.returned.s.regs.esp)
       && Run(h.natives, h.o, a.returned, 12) == Some(a.exit)
  }

  /** From `from` to `to` the process makes these calls through slots, one after the other, nested ones inside. */
  ghost predicate Happen(h: Host, w: Saved, from: State, calls: seq<Activation>, to: State)
    decreases calls
  {
    if calls == [] then h.Between(w, from, to)
    else
      var a := calls[0];
      && h.Between(w, from, a.entry.s) && Framed(h, a)
      && Happen(h, w, a.handed.s, a.inner, a.returned.s)
      && Happen(h, w, a.exit.s, calls[1..], to)
  }

  /** The difference of the two recorded stack pointers, as the observer finds them. */
  function RecordedDelta(k: Slot, m: Memory): Word {
    Wrap(LoadWord(m, Cell(k.cells, ESP_AFTER)) - LoadWord(m, Cell(k.cells, ESP_BEFORE)))
  }

  /** The call leaves its trampoline for the address its caller wanted; the recorded difference is what its own method
      popped; the object logged is its own. */
  predicate Right(h: Host, w: Saved, a: Activation)
    requires a.slot < |h.slots|
  {
    var k := h.slots[a.slot];
    match w
    case ReturnAddress => a.exit.s.eip == Top(a.entry.s)
    case StackPointer => RecordedDelta(k, a.exit.s.mem) == Wrap(a.returned.s.regs.esp - AfterPop(a.entry.s))
    case ThisPointer => LoadWord(a.exit.s.mem, Cell(k.cells, THIS_PTR)) == a.entry.s.regs.ecx
  }

  predicate AllRight(h: Host, w: Saved, calls: seq<Activation>)
    decreases calls
  {
    calls == [] ||
    (calls[0].slot < |h.slots| && Right(h, w, calls[0]) && AllRight(h, w, calls[0].inner) && AllRight(h, w, calls[1..]))
  }

  /** The shape of a run: slots and the words saved. */
  function Shape(w: Saved, calls: seq<Activation>): seq<Call>
    decreases calls
  {
    if calls == [] then [] else
    [Call(calls[0].slot, w.Of(calls[0].entry.s), Shape(w, calls[0].inner))] + Shape(w, calls[1..])
  }

  /** What touches one slot's cells and dead stack leaves every other slot's code and cell alone. */
  lemma OthersKept(h: Host, w: Saved, i: nat, esp: Word, m: Memory, m': Memory, j: nat)
    requires h.Valid() && i < |h.slots| && j < |h.slots| && h.Clear(esp)
    requires AgreeOutside(m, m', Touched(h.slots[i], h.env, esp))
    requires CodeAt(m, h.slots[j].base, Flat(SlotProgram(h.slots[j])))
    ensures CodeAt(m', h.slots[j].base, Flat(SlotProgram(h.slots[j])))
    ensures i != j ==> LoadWord(m', Cell(h.slots[j].cells, w.Offset())) == LoadWord(m, Cell(h.slots[j].cells, w.Offset()))
  {
    hide Flat, SlotProgram, CodeAt, Addresses, IsPush, ObserverHonest, Load, Below, Cell;
    var k := h.slots[j];
    assert SlotPlaced(k, h.env, h.natives) && SlotPlaced(h.slots[i], h.env, h.natives) && StackFree(k, h.env, esp);
    CodeSpared(m, m', k.base, Flat(SlotProgram(k)), Touched(h.slots[i], h.env, esp));
    if i != j {
      CellsKept(m, m', k, Touched(h.slots[i], h.env, esp), w.Offset());
    }
  }

  /** Entering a slot writes the caller's word into the slot's own cell and into no other. */
  lemma EntryWritesOwnCell(h: Host, w: Saved, a: Activation)
    requires h.Valid() && Framed(h, a) && h.InPlace(a.entry.s.mem)
    ensures h.InPlace(a.handed.s.mem)
    ensures h.CellsFor(w, a.handed.s.mem) == h.CellsFor(w, a.entry.s.mem)[a.slot := w.Of(a.entry.s)]
  {
    hide Flat, SlotProgram, CodeAt, Addresses, IsPush, ObserverHonest, Load, Below, Run, SlotPlaced, StackFree, Touched, Cell;
    var k := h.slots[a.slot];
    var q := ReachMethod(k, h.env, h.natives, h.o, a.entry);
    forall j: nat | j < |h.slots|
      ensures CodeAt(a.handed.s.mem, h.slots[j].base, Flat(SlotProgram(h.slots[j])))
      ensures j != a.slot ==> h.CellsFor(w, a.handed.s.mem)[j] == h.CellsFor(w, a.entry.s.mem)[j]
    {
      OthersKept(h, w, a.slot, AfterPop(a.entry.s), a.entry.s.mem, a.handed.s.mem, j);
    }
  }

  /** Leaving a slot writes no slot's cell, and is right if and only if the cell still holds the word saved at entry. */
  lemma ExitReadsOwnCell(h: Host, w: Saved, a: Activation)
    requires h.Valid() && Framed(h, a) && h.InPlace(a.returned.s.mem)
    ensures h.InPlace(a.exit.s.mem)
    ensures h.CellsFor(w, a.exit.s.mem) == h.CellsFor(w, a.returned.s.mem)
    ensures Right(h, w, a) <==> h.CellsFor(w, a.returned.s.mem)[a.slot] == w.Of(a.entry.s)
    ensures w.ReturnAddress? ==> a.exit.s.eip == h.CellsFor(w, a.returned.s.mem)[a.slot]
    ensures w.StackPointer? ==> RecordedDelta(h.slots[a.slot], a.exit.s.mem) ==
                                Wrap(a.returned.s.regs.esp - h.CellsFor(w, a.returned.s.mem)[a.slot])
  {
    hide Flat, SlotProgram, CodeAt, Addresses, IsPush, ObserverHonest, Load, Below, Run, SlotPlaced, StackFree, Touched, Cell, Wrap;
    var k := h.slots[a.slot];
    var e := ReturnFromMethod(k, h.env, h.natives, h.o, a.returned);
    forall j: nat | j < |h.slots|
      ensures CodeAt(a.exit.s.mem, h.slots[j].base, Flat(SlotProgram(h.slots[j])))
      ensures h.CellsFor(w, a.exit.s.mem)[j] == h.CellsFor(w, a.returned.s.mem)[j]
    {
      OthersKept(h, w, a.slot, a.returned.s.regs.esp, a.returned.s.mem, a.exit.s.mem, j);
    }
    SameDifference(a.returned.s.regs.esp, h.CellsFor(w, a.returned.s.mem)[a.slot], w.Of(a.entry.s));
  }

  lemma SameDifference(a: Word, b: Word, c: Word)
    ensures Wrap(a - b) == Wrap(a - c) <==> b == c
  {
  }

  /** Over every nested run of the machine the cells are those of its shape, and so is what the exits find. */
  lemma {:induction false} CellsFollowShape(h: Host, w: Saved, from: State, calls: seq<Activation>, to: State)
    requires h.Valid() && h.InPlace(from.mem) && Happen(h, w, from, calls, to)
    ensures h.InPlace(to.mem) && h.CellsFor(w, to.mem) == After(Shape(w, calls), h.CellsFor(w, from.mem))
    ensures AllRight(h, w, calls) <==> AllFindOwn(Shape(w, calls), h.CellsFor(w, from.mem))
    decreases calls
  {
    hide Host.Valid, Host.InPlace, Host.CellsFor, Framed, Right;
    if calls != [] {
      var a := calls[0];
      SlotKnown(h, w, a);
      EntryWritesOwnCell(h, w, a);
      CellsFollowShape(h, w, a.handed.s, a.inner, a.returned.s);
      ExitReadsOwnCell(h, w, a);
      CellsFollowShape(h, w, a.exit.s, calls[1..], to);
      assert Shape(w, calls)[1..] == Shape(w, calls[1..]);
    }
  }

  lemma SlotKnown(h: Host, w: Saved, a: Activation)
    requires Framed(h, a)
    ensures a.slot < |h.slots| && a.slot in h.CellsFor(w, a.returned.s.mem)
  {
    hide Run, Addresses, StackFree;
  }

  /** In every nested run of the trampolines' code, of any depth and over any slots, every call leaves for its own
      caller if and only if no slot is last re-entered, while active, from another place; every recorded difference of
      ESP is what the call's own method popped if and only if none is last re-entered at another ESP; and every object
      logged is the call's own if and only if none is last re-entered for another object. */
  lemma RightExactlyWhen(h: Host, w: Saved, from: State, calls: seq<Activation>, to: State)
    requires h.Valid() && h.InPlace(from.mem) && Happen(h, w, from, calls, to)
    ensures AllRight(h, w, calls) <==> ReentersAlike(Shape(w, calls))
  {
    hide Host.Valid, Host.InPlace, Happen;
    CellsFollowShape(h, w, from, calls, to);
    CellsSufficeExactlyWhen(Shape(w, calls), h.CellsFor(w, from.mem));
  }

  /** Slots may nest in any order and depth as long as none is re-entered while active. */
  lemma NoReentryIsSafe(h: Host, w: Saved, from: State, calls: seq<Activation>, to: State)
    requires h.Valid() && h.InPlace(from.mem) && Happen(h, w, from, calls, to) && NoReentry(Shape(w, calls))
    ensures AllRight(h, w, calls)
  {
    hide Host.Valid, Host.InPlace, Happen;
    RightExactlyWhen(h, w, from, calls, to);
    NoReentrySuffices(Shape(w, calls));
  }

  /** The count that the observer infers from a right difference: a quarter of the bytes the method popped. */
  lemma RightDifferenceCounts(h: Host, a: Activation, bytes: nat)
    requires a.slot < |h.slots| && Right(h, StackPointer, a)
    requires bytes < 0x8000_0000 && a.returned.s.regs.esp == Wrap(AfterPop(a.entry.s) + bytes)
    ensures var k, m := h.slots[a.slot], a.exit.s.mem;
            InferredArgs(LoadWord(m, Cell(k.cells, ESP_BEFORE)), LoadWord(m, Cell(k.cells, ESP_AFTER))) == bytes / 4
  {
    hide LoadWord, Cell, AfterPop;
    var esp: int := AfterPop(a.entry.s);
    WrapShift(esp + bytes, -esp);
    WordIsWrapped(bytes);
    hide Wrap;
  }

  /** A method that re-enters its own slot with another word leaves its own call wrong: the call exits to where the inner
      call was made from, or records the distance to the inner call's ESP. */
  lemma ReentryGoesAstray(h: Host, w: Saved, from: State, a: Activation, b: Activation, to: State)
    requires h.Valid() && h.InPlace(from.mem) && Happen(h, w, from, [a], to)
    requires a.inner == [b] && b.slot == a.slot && b.inner == [] && w.Of(b.entry.s) != w.Of(a.entry.s)
    ensures a.slot < |h.slots| && !Right(h, w, a)
    ensures w.ReturnAddress? ==> a.exit.s.eip == Top(b.entry.s)
    ensures w.StackPointer? ==>
              RecordedDelta(h.slots[a.slot], a.exit.s.mem) == Wrap(a.returned.s.regs.esp - AfterPop(b.entry.s))
  {
    hide Host.Valid, Host.InPlace, Host.CellsFor, Framed, Top, Right, AfterPop, RecordedDelta, Wrap;
    assert [a][0] == a && [b][0] == b && [b][1..] == [];
    SlotKnown(h, w, a);
    EntryWritesOwnCell(h, w, a);
    CellsFollowShape(h, w, a.handed.s, [b], a.returned.s);
    var c := Call(b.slot, w.Of(b.entry.s), []);
    assert Shape(w, [b]) == [c] && [c][0] == c && [c][1..] == [] by { assert Shape(w, []) == []; }
    var cells := h.CellsFor(w, a.handed.s.mem);
    assert After([], cells[c.slot := c.word]) == cells[c.slot := c.word];
    assert After([c], cells) == cells[c.slot := c.word];
    ExitReadsOwnCell(h, w, a);
  }
}
