/** The first part of a vtable trampoline: the return address, ECX, EDX and eight stack words
    go to the slot's static cells. */
module SlotCapture {
  import opened Words
  import opened Machine
  import opened Execution
  import opened Assembler

  // SlotState: caller, this_ptr, edx, args[8], retval, esp_before, esp_after (56 bytes), then the observers' snapshots.
  const CALLER := 0
  const THIS_PTR := 4
  const EDX_CELL := 8
  const ARGS := 12
  const MAX_ARGS := 8
  const RETVAL := 44
  const ESP_BEFORE := 48
  const ESP_AFTER := 52
  const CELLS := 56

  function Cell(cells: Word, off: int): Word {
    Wrap(cells + off)
  }

  function CellsSpan(cells: Word): Span {
    Span(cells, CELLS)
  }

  function StoreEax(addr: Word): Chunk {
    Chunk([0xA3] + LE(addr), MovStore(At(None, addr), EAX))
  }

  /** mov [addr], reg for ECX (ModRM 0D), EDX (15) and ESP (25) */
  function StoreReg(modrm: Byte, r: Reg, addr: Word): Chunk {
    Chunk([0x89, modrm] + LE(addr), MovStore(At(None, addr), r))
  }

  /** mov eax, [esp + 4 i] */
  function LoadArg(i: nat): Chunk
    requires i < MAX_ARGS
  {
    if i == 0 then Chunk([0x8B, 0x04, 0x24], MovLoad(EAX, At(Some(ESP), 0)))
    else Chunk([0x8B, 0x44, 0x24, 4 * i], MovLoad(EAX, At(Some(ESP), 4 * i)))
  }

  function Entry(cells: Word): (p: Program)
    ensures |p| == 4
  {
    [Chunk([0x58], PopReg(EAX)), StoreEax(Cell(cells, CALLER)), StoreReg(0x0D, ECX, Cell(cells, THIS_PTR)),
     StoreReg(0x15, EDX, Cell(cells, EDX_CELL))]
  }

  function CopyArg(cells: Word, i: nat): (p: Program)
    requires i < MAX_ARGS
    ensures |p| == 2
  {
    [LoadArg(i), StoreEax(Cell(cells, ARGS + 4 * i))]
  }

  function CopyArgs(cells: Word, k: nat): (p: Program)
    requires k <= MAX_ARGS
    ensures |p| == 2 * k
  {
    if k == 0 then [] else CopyArgs(cells, k - 1) + CopyArg(cells, k - 1)
  }

  function Capture(cells: Word): Program {
    Entry(cells) + CopyArgs(cells, MAX_ARGS)
  }

  lemma StoresEncode(addr: Word)
    ensures Encodes(StoreEax(addr).bytes, StoreEax(addr).insn)
    ensures Encodes(StoreReg(0x0D, ECX, addr).bytes, StoreReg(0x0D, ECX, addr).insn)
    ensures Encodes(StoreReg(0x15, EDX, addr).bytes, StoreReg(0x15, EDX, addr).insn)
    ensures Encodes(StoreReg(0x25, ESP, addr).bytes, StoreReg(0x25, ESP, addr).insn)
  {
    var bs, c := StoreEax(addr).bytes, LE(addr);
    FromLEofLE(addr);
    assert [bs[1], bs[2], bs[3], bs[4]] == c;
    assert var r := [0x89 as Byte, 0x0D] + c; [r[2], r[3], r[4], r[5]] == c;
    assert var r := [0x89 as Byte, 0x15] + c; [r[2], r[3], r[4], r[5]] == c;
    assert var r := [0x89 as Byte, 0x25] + c; [r[2], r[3], r[4], r[5]] == c;
  }

  lemma LoadEncodes(i: nat)
    requires i < MAX_ARGS
    ensures Encodes(LoadArg(i).bytes, LoadArg(i).insn)
  {
  }

  lemma CopyArgAssembled(cells: Word, i: nat)
    requires i < MAX_ARGS
    ensures Assembled(CopyArg(cells, i)) && |Flat(CopyArg(cells, i))| == if i == 0 then 8 else 9
    ensures NoneLeaves(CopyArg(cells, i))
  {
    hide Encodes, Cell;
    LoadEncodes(i);
    StoresEncode(Cell(cells, ARGS + 4 * i));
    FlatTwo(CopyArg(cells, i));
  }

  lemma EmptyAssembled()
    ensures Assembled([]) && NoneLeaves([])
  {
  }

  lemma {:induction false} CopyArgsAssembled(cells: Word, k: nat)
    requires k <= MAX_ARGS
    ensures Assembled(CopyArgs(cells, k)) && NoneLeaves(CopyArgs(cells, k))
  {
    hide Assembled, NoneLeaves, CopyArg, Flat;
    if k == 0 {
      EmptyAssembled();
    } else {
      CopyArgsAssembled(cells, k - 1);
      CopyArgAssembled(cells, k - 1);
      AssembledAppend(CopyArgs(cells, k - 1), CopyArg(cells, k - 1));
    }
  }

  lemma {:induction false} CopyArgsLength(cells: Word, k: nat)
    requires k <= MAX_ARGS
    ensures |Flat(CopyArgs(cells, k))| == if k == 0 then 0 else 9 * k - 1
  {
    hide Assembled, NoneLeaves, CopyArg;
    if k > 0 {
      CopyArgsLength(cells, k - 1);
      CopyArgAssembled(cells, k - 1);
      hide Flat;
      FlatAppend(CopyArgs(cells, k - 1), CopyArg(cells, k - 1));
    }
  }

  lemma PopEncodes()
    ensures Encodes([0x58], PopReg(EAX))
  {
  }

  lemma EntryAssembled(cells: Word)
    ensures Assembled(Entry(cells)) && |Flat(Entry(cells))| == 18
    ensures NoneLeaves(Entry(cells))
  {
    hide Encodes, Cell, LE;
    PopEncodes();
    StoresEncode(Cell(cells, CALLER));
    StoresEncode(Cell(cells, THIS_PTR));
    StoresEncode(Cell(cells, EDX_CELL));
    FlatFour(Entry(cells));
  }

  lemma CaptureAssembled(cells: Word)
    ensures Assembled(Capture(cells)) && |Flat(Capture(cells))| == 89 && NoneLeaves(Capture(cells))
  {
    hide Assembled, Flat, Entry, CopyArgs, Leaves;
    EntryAssembled(cells);
    CopyArgsAssembled(cells, MAX_ARGS);
    CopyArgsLength(cells, MAX_ARGS);
    AssembledAppend(Entry(cells), CopyArgs(cells, MAX_ARGS));
    FlatAppend(Entry(cells), CopyArgs(cells, MAX_ARGS));
  }

  lemma ListingAppend(p: Program, q: Program)
    ensures Listing(p + q) == Listing(p) + Listing(q)
  {
  }

  lemma {:induction false} SparesAppend(l: seq<Fetched>, l': seq<Fetched>, s: State, region: iset<Word>)
    requires Spares(l, s, region) && Spares(l', ExecAll(l, s), region)
    ensures Spares(l + l', s, region)
    decreases |l|
  {
    hide Exec, Writes;
    if l == [] {
      assert l + l' == l';
    } else {
      SparesAppend(l[1..], l', Exec(l[0], s), region);
      assert (l + l')[1..] == l[1..] + l';
    }
  }

  /** The word at cell offset `off` holds `w`. */
  predicate CellIs(m: Memory, cells: Word, off: int, w: Word) {
    LoadWord(m, Cell(cells, off)) == w
  }

  lemma OtherCell(m: Memory, cells: Word, off: int, w: Word, off': int)
    requires (0 <= off && off + 4 <= off' && off' + 4 <= CELLS) || (0 <= off' && off' + 4 <= off && off + 4 <= CELLS)
    ensures LoadWord(StoreWord(m, Cell(cells, off), w), Cell(cells, off')) == LoadWord(m, Cell(cells, off'))
  {
    if off + 4 <= off' {
      SpansApart(cells, off, 4, off', 4);
    } else {
      SpansApart(cells, off', 4, off, 4);
    }
    LoadPast(m, Cell(cells, off), LE(w), Cell(cells, off'), 4);
  }

  lemma CellInside(cells: Word, off: int)
    requires 0 <= off && off + 4 <= CELLS
    ensures Addresses(Span(Cell(cells, off), 4)) <= Addresses(CellsSpan(cells))
  {
    SpanInside(cells, 0, CELLS, off, 4);
    WordIsWrapped(cells);
  }

  lemma CellStored(m0: Memory, m: Memory, cells: Word, off: int, w: Word)
    requires 0 <= off && off + 4 <= CELLS
    requires AgreeOutside(m0, m, Addresses(CellsSpan(cells)))
    ensures AgreeOutside(m0, StoreWord(m, Cell(cells, off), w), Addresses(CellsSpan(cells)))
    ensures CellIs(StoreWord(m, Cell(cells, off), w), cells, off, w)
  {
    CellInside(cells, off);
    StoreFrame(m, Cell(cells, off), LE(w));
    LoadStoredWord(m, Cell(cells, off), w);
    hide Store, Addresses, Load;
    AgreeTrans(m0, m, StoreWord(m, Cell(cells, off), w), Addresses(CellsSpan(cells)),
               Addresses(Span(Cell(cells, off), 4)), Addresses(CellsSpan(cells)));
  }

  /** The state after `Entry`: the return address is popped and kept, with ECX and EDX. */
  lemma EntryExec(cells: Word, s: State, region: iset<Word>)
    requires region !! Addresses(CellsSpan(cells))
    ensures var r := ExecAll(Listing(Entry(cells)), s);
            && r.regs == s.regs.(eax := Top(s), esp := Wrap(s.regs.esp + 4))
            && r.flags == s.flags && r.eip == Wrap(s.eip + 18)
            && AgreeOutside(s.mem, r.mem, Addresses(CellsSpan(cells)))
            && CellIs(r.mem, cells, CALLER, Top(s))
            && CellIs(r.mem, cells, THIS_PTR, s.regs.ecx)
            && CellIs(r.mem, cells, EDX_CELL, s.regs.edx)
    ensures Spares(Listing(Entry(cells)), s, region)
  {
    hide Store, Wrap, Addresses, Exec, Writes, Load, LE;
    var l, eip: int, ret := Listing(Entry(cells)), s.eip, Top(s);
    var regs := s.regs.(eax := ret, esp := Wrap(s.regs.esp + 4));
    var m1 := StoreWord(s.mem, Cell(cells, CALLER), ret);
    var m2 := StoreWord(m1, Cell(cells, THIS_PTR), s.regs.ecx);
    var m3 := StoreWord(m2, Cell(cells, EDX_CELL), s.regs.edx);
    var s1 := State(regs, s.flags, Wrap(eip + 1), s.mem);
    var s2 := State(regs, s.flags, Wrap(eip + 6), m1);
    var s3 := State(regs, s.flags, Wrap(eip + 12), m2);
    var s4 := State(regs, s.flags, Wrap(eip + 18), m3);
    assert Exec(l[0], s) == s1 by { PopRegIs(s); }
    assert Exec(l[1], s1) == s2 by { StoreAbsIs(Cell(cells, CALLER), EAX, 5, s1); WrapShift(eip + 1, 5); }
    assert Exec(l[2], s2) == s3 by { StoreAbsIs(Cell(cells, THIS_PTR), ECX, 6, s2); WrapShift(eip + 6, 6); }
    assert Exec(l[3], s3) == s4 by { StoreAbsIs(Cell(cells, EDX_CELL), EDX, 6, s3); WrapShift(eip + 12, 6); }
    var ss := [s, s1, s2, s3, s4];
    assert Traces(l, ss, region) by {
      PopRegIs(s);
      StoreAbsIs(Cell(cells, CALLER), EAX, 5, s1);
      StoreAbsIs(Cell(cells, THIS_PTR), ECX, 6, s2);
      StoreAbsIs(Cell(cells, EDX_CELL), EDX, 6, s3);
      CellInside(cells, CALLER);
      CellInside(cells, THIS_PTR);
      CellInside(cells, EDX_CELL);
      NowhereEmpty();
    }
    TraceEnds(l, ss, region);
    CellStored(s.mem, s.mem, cells, CALLER, ret);
    CellStored(s.mem, m1, cells, THIS_PTR, s.regs.ecx);
    CellStored(s.mem, m2, cells, EDX_CELL, s.regs.edx);
    OtherCell(m1, cells, THIS_PTR, s.regs.ecx, CALLER);
    OtherCell(m2, cells, EDX_CELL, s.regs.edx, CALLER);
    OtherCell(m2, cells, EDX_CELL, s.regs.edx, THIS_PTR);
  }

  /** One stack word copied: nothing else but EAX and its cell changes. */
  lemma CopyArgExec(cells: Word, i: nat, s: State, region: iset<Word>)
    requires i < MAX_ARGS
    requires region !! Addresses(CellsSpan(cells))
    ensures var r, w := ExecAll(Listing(CopyArg(cells, i)), s), LoadWord(s.mem, Wrap(s.regs.esp + 4 * i));
            && r == State(s.regs.(eax := w), s.flags, Wrap(s.eip + if i == 0 then 8 else 9),
                          StoreWord(s.mem, Cell(cells, ARGS + 4 * i), w))
    ensures Spares(Listing(CopyArg(cells, i)), s, region)
  {
    hide Store, Wrap, Addresses, Exec, Writes, Load, LE;
    var l, eip: int, w := Listing(CopyArg(cells, i)), s.eip, LoadWord(s.mem, Wrap(s.regs.esp + 4 * i));
    var n := if i == 0 then 3 else 4;
    var s1 := State(s.regs.(eax := w), s.flags, Wrap(eip + n), s.mem);
    var s2 := State(s1.regs, s.flags, Wrap(eip + n + 5), StoreWord(s.mem, Cell(cells, ARGS + 4 * i), w));
    assert Exec(l[0], s) == s1 by { LoadStackIs(4 * i, n, s); }
    assert Exec(l[1], s1) == s2 by { StoreAbsIs(Cell(cells, ARGS + 4 * i), EAX, 5, s1); WrapShift(eip + n, 5); }
    var ss := [s, s1, s2];
    assert Traces(l, ss, region) by {
      LoadStackIs(4 * i, n, s);
      StoreAbsIs(Cell(cells, ARGS + 4 * i), EAX, 5, s1);
      CellInside(cells, ARGS + 4 * i);
      NowhereEmpty();
    }
    TraceEnds(l, ss, region);
  }

  /** The first `k` argument cells hold the stack words found above `esp`. */
  ghost predicate ArgsKept(m: Memory, cells: Word, m0: Memory, esp: Word, k: nat) {
    forall j :: 0 <= j < k ==> CellIs(m, cells, ARGS + 4 * j, LoadWord(m0, Wrap(esp + 4 * j)))
  }

  lemma StackWord(m0: Memory, m: Memory, cells: Word, esp: Word, i: nat)
    requires i < MAX_ARGS
    requires AgreeOutside(m0, m, Addresses(CellsSpan(cells)))
    requires Addresses(Span(esp, 4 * MAX_ARGS)) !! Addresses(CellsSpan(cells))
    ensures LoadWord(m, Wrap(esp + 4 * i)) == LoadWord(m0, Wrap(esp + 4 * i))
  {
    SpanInside(esp, 0, 4 * MAX_ARGS, 4 * i, 4);
    WordIsWrapped(esp);
    LoadAgree(m0, m, Addresses(CellsSpan(cells)), Wrap(esp + 4 * i), 4);
  }

  /** All that the copy loop does: EAX ends as the last word, the cells hold the words, the rest is untouched. */
  ghost predicate Copied(cells: Word, k: nat, s: State, r: State) {
    && r.regs == s.regs.(eax := if k == 0 then s.regs.eax else LoadWord(s.mem, Wrap(s.regs.esp + 4 * (k - 1))))
    && r.flags == s.flags
    && r.eip == Wrap(s.eip + if k == 0 then 0 else 9 * k - 1)
    && AgreeOutside(s.mem, r.mem, Addresses(CellsSpan(cells)))
    && ArgsKept(r.mem, cells, s.mem, s.regs.esp, k)
    && (forall off :: off in {CALLER, THIS_PTR, EDX_CELL} ==> LoadWord(r.mem, Cell(cells, off)) == LoadWord(s.mem, Cell(cells, off)))
  }

  lemma ArgsKeptOneMore(m: Memory, cells: Word, m0: Memory, esp: Word, i: nat, w: Word)
    requires i < MAX_ARGS && ArgsKept(m, cells, m0, esp, i) && w == LoadWord(m0, Wrap(esp + 4 * i))
    ensures ArgsKept(StoreWord(m, Cell(cells, ARGS + 4 * i), w), cells, m0, esp, i + 1)
  {
    hide Store, Load, LE, FromLE, Wrap, Cell;
    LoadStoredWord(m, Cell(cells, ARGS + 4 * i), w);
    forall j | 0 <= j < i
      ensures CellIs(StoreWord(m, Cell(cells, ARGS + 4 * i), w), cells, ARGS + 4 * j, LoadWord(m0, Wrap(esp + 4 * j)))
    {
      assert CellIs(m, cells, ARGS + 4 * j, LoadWord(m0, Wrap(esp + 4 * j)));
      OtherCell(m, cells, ARGS + 4 * i, w, ARGS + 4 * j);
    }
  }

  lemma CopyOneMore(cells: Word, k: nat, s: State, r: State, r': State)
    requires 0 < k <= MAX_ARGS
    requires Addresses(Span(s.regs.esp, 4 * MAX_ARGS)) !! Addresses(CellsSpan(cells))
    requires Copied(cells, k - 1, s, r)
    requires var w := LoadWord(r.mem, Wrap(r.regs.esp + 4 * (k - 1)));
             r' == State(r.regs.(eax := w), r.flags, Wrap(r.eip + if k == 1 then 8 else 9),
                         StoreWord(r.mem, Cell(cells, ARGS + 4 * (k - 1)), w))
    ensures Copied(cells, k, s, r')
  {
    hide Store, Addresses, Load, LE, Wrap, Cell, ArgsKept;
    var i, w := k - 1, LoadWord(r.mem, Wrap(r.regs.esp + 4 * (k - 1)));
    var off := ARGS + 4 * i;
    StackWord(s.mem, r.mem, cells, s.regs.esp, i);
    CellStored(s.mem, r.mem, cells, off, w);
    OtherCell(r.mem, cells, off, w, CALLER);
    OtherCell(r.mem, cells, off, w, THIS_PTR);
    OtherCell(r.mem, cells, off, w, EDX_CELL);
    ArgsKeptOneMore(r.mem, cells, s.mem, s.regs.esp, i, w);
    WrapShift(s.eip + if i == 0 then 0 else 9 * i - 1, if k == 1 then 8 else 9);
  }

  lemma CopyNone(cells: Word, s: State, region: iset<Word>)
    ensures Copied(cells, 0, s, ExecAll(Listing(CopyArgs(cells, 0)), s))
    ensures Spares(Listing(CopyArgs(cells, 0)), s, region)
  {
    hide Exec, Addresses;
    WordIsWrapped(s.eip);
    assert Listing(CopyArgs(cells, 0)) == [];
  }

  lemma {:induction false} CopyArgsExec(cells: Word, k: nat, s: State, region: iset<Word>)
    requires k <= MAX_ARGS
    requires region !! Addresses(CellsSpan(cells))
    requires Addresses(Span(s.regs.esp, 4 * MAX_ARGS)) !! Addresses(CellsSpan(cells))
    ensures Copied(cells, k, s, ExecAll(Listing(CopyArgs(cells, k)), s))
    ensures Spares(Listing(CopyArgs(cells, k)), s, region)
  {
    hide Exec, Copied, Addresses, Spares, ExecAll, CopyArg, Store, Load, Listing, Wrap, LE;
    if k == 0 {
      CopyNone(cells, s, region);
    } else {
      CopyArgsExec(cells, k - 1, s, region);
      var r := ExecAll(Listing(CopyArgs(cells, k - 1)), s);
      CopyArgExec(cells, k - 1, r, region);
      ListingAppend(CopyArgs(cells, k - 1), CopyArg(cells, k - 1));
      ExecAllAppend(Listing(CopyArgs(cells, k - 1)), Listing(CopyArg(cells, k - 1)), s);
      SparesAppend(Listing(CopyArgs(cells, k - 1)), Listing(CopyArg(cells, k - 1)), s, region);
      CopyOneMore(cells, k, s, r, ExecAll(Listing(CopyArg(cells, k - 1)), r));
    }
  }

  /** The state in which the observer is called: the stack as the caller's arguments start, EAX clobbered. */
  lemma CaptureExec(cells: Word, s: State, region: iset<Word>)
    requires region !! Addresses(CellsSpan(cells))
    requires Addresses(Span(Wrap(s.regs.esp + 4), 4 * MAX_ARGS)) !! Addresses(CellsSpan(cells))
    ensures var r, esp := ExecAll(Listing(Capture(cells)), s), Wrap(s.regs.esp + 4);
            && r.regs == s.regs.(eax := LoadWord(s.mem, Wrap(esp + 28)), esp := esp)
            && r.flags == s.flags && r.eip == Wrap(s.eip + 89)
            && AgreeOutside(s.mem, r.mem, Addresses(CellsSpan(cells)))
            && CellIs(r.mem, cells, CALLER, Top(s))
            && CellIs(r.mem, cells, THIS_PTR, s.regs.ecx)
            && CellIs(r.mem, cells, EDX_CELL, s.regs.edx)
            && ArgsKept(r.mem, cells, s.mem, esp, MAX_ARGS)
    ensures Spares(Listing(Capture(cells)), s, region)
  {
    hide Exec, Addresses, Spares, ExecAll, Entry, CopyArgs, Store, Load, Listing, Wrap, Cell;
    var e, esp := ExecAll(Listing(Entry(cells)), s), Wrap(s.regs.esp + 4);
    EntryExec(cells, s, region);
    CopyArgsExec(cells, MAX_ARGS, e, region);
    var r := ExecAll(Listing(CopyArgs(cells, MAX_ARGS)), e);
    ListingAppend(Entry(cells), CopyArgs(cells, MAX_ARGS));
    ExecAllAppend(Listing(Entry(cells)), Listing(CopyArgs(cells, MAX_ARGS)), s);
    SparesAppend(Listing(Entry(cells)), Listing(CopyArgs(cells, MAX_ARGS)), s, region);
    forall j | 0 <= j < MAX_ARGS ensures LoadWord(e.mem, Wrap(esp + 4 * j)) == LoadWord(s.mem, Wrap(esp + 4 * j)) {
      StackWord(s.mem, e.mem, cells, esp, j);
    }
    assert LoadWord(e.mem, Wrap(esp + 4 * 7)) == LoadWord(s.mem, Wrap(esp + 4 * 7));
    forall j | 0 <= j < MAX_ARGS ensures CellIs(r.mem, cells, ARGS + 4 * j, LoadWord(s.mem, Wrap(esp + 4 * j))) {
      assert CellIs(r.mem, cells, ARGS + 4 * j, LoadWord(e.mem, Wrap(esp + 4 * j)));
    }
    assert forall off :: off in {CALLER, THIS_PTR, EDX_CELL} ==> LoadWord(r.mem, Cell(cells, off)) == LoadWord(e.mem, Cell(cells, off));
    WrapShift(s.eip + 18, 71);
    AgreeTrans(s.mem, e.mem, r.mem, Addresses(CellsSpan(cells)), Addresses(CellsSpan(cells)), Addresses(CellsSpan(cells)));
  }
}
