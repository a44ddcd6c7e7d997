/** Finding a command's dispatcher stub and list offset by decoding the game's jump tables. */
module Resolver {
  import opened Words
  import opened Machine
  import opened Decoder
  import opened Execution
  import opened Hooks
  import opened Installation
  import opened Mobility
  import opened Patch

  /** Memory as ReadProcessMemory sees it. */
  datatype View = View(mem: Memory, readable: iset<Word>)
  {
    ghost predicate CanRead(a: Word, n: nat) {
      a >= 0x10000 && n > 0 && a + n <= SIZE && Addresses(Span(a, n)) <= readable
    }
  }

  /** safe_read_bytes */
  ghost function SafeRead(v: View, a: Word, n: nat): (r: Option<seq<Byte>>)
    ensures r.Some? ==> |r.value| == n && v.CanRead(a, n)
  {
    if v.CanRead(a, n) then Some(Load(v.mem, a, n)) else None
  }

  datatype Found = Found(stub: Word, listOffset: Word)

  /** Where the selector byte and the jump-table word of a command live; None outside both ranges. */
  datatype Tables = Tables(selector: Word, jumpTable: Word)

  function TablesOf(base: Word, cmd: Word): Option<Tables> {
    if 1 <= cmd <= 0x201 then
      if cmd - 1 >= 0x10e then None
      else Some(Tables(Wrap(base + 0x6639ec + (cmd - 1)), Wrap(base + 0x6637b4)))
    else if 0x202 <= cmd <= 0x501 then
      if cmd - 0x202 >= 0x208 then None
      else Some(Tables(Wrap(base + 0x663e3c + (cmd - 0x202)), Wrap(base + 0x663afc)))
    else None
  }

  /** The thunk must start 8D 42 10 and jump at byte 7; bytes 3 to 6 are not looked at. */
  predicate ThunkLooksRight(tb: seq<Byte>)
    requires |tb| == 12
  {
    tb[0] == 0x8D && tb[1] == 0x42 && tb[2] == 0x10 && tb[7] == 0xE9
  }

  ghost function ThunkOf(v: View, base: Word, cmd: Word): Option<Word> {
    if base == 0 then None else
    match TablesOf(base, cmd)
    case None => None
    case Some(t) =>
      match SafeRead(v, t.selector, 1)
      case None => None
      case Some(sel) =>
        match SafeRead(v, Wrap(t.jumpTable + (sel[0] as int) * 4), 4)
        case None => None
        case Some(w) => Some(FromLE(w))
  }

  ghost function StubOf(v: View, thunk: Word): Option<Word> {
    match SafeRead(v, thunk, 12)
    case None => None
    case Some(tb) => if ThunkLooksRight(tb) then Some(Wrap(thunk + 12 + FromLE(tb[8..12]))) else None
  }

  /** Bytes 5 and 6 of the stub must be 8B B1; its first five bytes may be a hook. */
  ghost function ListOffset(v: View, stub: Word): Option<Word> {
    match SafeRead(v, stub, 11)
    case None => None
    case Some(sb) => if sb[5] == 0x8B && sb[6] == 0xB1 then Some(FromLE(sb[7..11])) else None
  }

  ghost function Resolve(v: View, base: Word, cmd: Word): Option<Found> {
    match ThunkOf(v, base, cmd)
    case None => None
    case Some(thunk) =>
      match StubOf(v, thunk)
      case None => None
      case Some(stub) =>
        match ListOffset(v, stub)
        case None => None
        case Some(off) => Some(Found(stub, off))
  }

  // --- what the answer is ---

  /** A read succeeds if and only if it is at or above 64 KiB, not empty, inside the address space and every byte is
      readable; and then it gives those bytes. */
  lemma ReadExactlyWhen(v: View, a: Word, n: nat)
    ensures SafeRead(v, a, n).Some? <==> 0x10000 <= a && 0 < n && a + n <= 0x1_0000_0000 && forall x: Word :: a <= x < a + n ==> x in v.readable
    ensures SafeRead(v, a, n).Some? ==> SafeRead(v, a, n).value == v.mem[a..a + n]
  {
    if a + n <= SIZE {
      forall x: Word ensures x in Addresses(Span(a, n)) <==> a <= x < a + n {
        WrapInside(a, n, x);
      }
      LoadIsSlice(v.mem, a, n);
    }
  }

  lemma SelectorAndWord(base: Word, cmd: Word, k: Byte)
    ensures 1 <= cmd <= 0x10e ==> TablesOf(base, cmd).Some? && TablesOf(base, cmd).value.selector == Wrap(base + 0x6639ec + cmd - 1)
                                  && Wrap(TablesOf(base, cmd).value.jumpTable + k * 4) == Wrap(base + 0x6637b4 + 4 * k)
    ensures 0x202 <= cmd <= 0x409 ==> TablesOf(base, cmd).Some? && TablesOf(base, cmd).value.selector == Wrap(base + 0x663e3c + cmd - 0x202)
                                      && Wrap(TablesOf(base, cmd).value.jumpTable + k * 4) == Wrap(base + 0x663afc + 4 * k)
    ensures !(1 <= cmd <= 0x10e) && !(0x202 <= cmd <= 0x409) ==> TablesOf(base, cmd).None?
  {
    WrapShift(base + 0x6637b4, 4 * k);
    WrapShift(base + 0x663afc, 4 * k);
    hide Wrap;
  }

  lemma ThunkRead(v: View, base: Word, cmd: Word, selector: Word, word: Word)
    requires base != 0 && v.CanRead(selector, 1)
    requires var k: int := v.mem[selector];
             || (1 <= cmd <= 0x10e && selector == Wrap(base + 0x6639ec + cmd - 1) && word == Wrap(base + 0x6637b4 + 4 * k))
             || (0x202 <= cmd <= 0x409 && selector == Wrap(base + 0x663e3c + cmd - 0x202) && word == Wrap(base + 0x663afc + 4 * k))
    ensures ThunkOf(v, base, cmd) == if v.CanRead(word, 4) then Some(LoadWord(v.mem, word)) else None
  {
    SelectorAndWord(base, cmd, v.mem[selector]);
    assert Load(v.mem, selector, 1)[0] == v.mem[selector] by { WordIsWrapped(selector); }
    hide Load, FromLE, Wrap, View.CanRead, TablesOf;
  }

  lemma StubRead(v: View, thunk: Word)
    ensures StubOf(v, thunk) ==
              if v.CanRead(thunk, 12) && v.mem[thunk..thunk + 3] == [0x8D, 0x42, 0x10] && v.mem[thunk + 7] == 0xE9
              then Some(Wrap(thunk + 12 + FromLE(v.mem[thunk + 8..thunk + 12]))) else None
  {
    hide FromLE, Wrap;
    if v.CanRead(thunk, 12) {
      LoadIsSlice(v.mem, thunk, 12);
      hide Load, Addresses;
      var tb := v.mem[thunk..thunk + 12];
      assert tb[..3] == v.mem[thunk..thunk + 3] && tb[8..12] == v.mem[thunk + 8..thunk + 12];
      assert tb[..3] == [tb[0], tb[1], tb[2]];
    }
  }

  lemma OffsetRead(v: View, stub: Word)
    ensures ListOffset(v, stub) ==
              if v.CanRead(stub, 11) && v.mem[stub + 5..stub + 7] == [0x8B, 0xB1] then Some(FromLE(v.mem[stub + 7..stub + 11])) else None
  {
    hide FromLE;
    if v.CanRead(stub, 11) {
      LoadIsSlice(v.mem, stub, 11);
      hide Load, Addresses;
      var sb := v.mem[stub..stub + 11];
      assert sb[5..7] == v.mem[stub + 5..stub + 7] && sb[7..11] == v.mem[stub + 7..stub + 11];
      assert sb[5..7] == [sb[5], sb[6]];
    }
  }

  /** The answer, read off memory: `k` is the command's selector byte, `word` the table word that it picks, `thunk` what
      that word holds. */
  lemma ResolveAnswers(v: View, base: Word, cmd: Word, selector: Word, k: Byte, word: Word, thunk: Word, stub: Word, offset: Word)
    requires base != 0
    requires || (1 <= cmd <= 0x10e && selector == Wrap(base + 0x6639ec + cmd - 1) && word == Wrap(base + 0x6637b4 + 4 * k))
             || (0x202 <= cmd <= 0x409 && selector == Wrap(base + 0x663e3c + cmd - 0x202) && word == Wrap(base + 0x663afc + 4 * k))
    requires v.CanRead(selector, 1) && v.mem[selector] == k
    requires v.CanRead(word, 4) && LoadWord(v.mem, word) == thunk
    requires v.CanRead(thunk, 12) && v.mem[thunk..thunk + 3] == [0x8D, 0x42, 0x10] && v.mem[thunk + 7] == 0xE9
    requires stub == Wrap(thunk + 12 + FromLE(v.mem[thunk + 8..thunk + 12]))
    requires v.CanRead(stub, 11) && v.mem[stub + 5..stub + 7] == [0x8B, 0xB1] && offset == FromLE(v.mem[stub + 7..stub + 11])
    ensures Resolve(v, base, cmd) == Some(Found(stub, offset))
  {
    hide LoadWord, FromLE, Wrap, View.CanRead, TablesOf, ThunkOf, StubOf, ListOffset;
    ThunkRead(v, base, cmd, selector, word);
    StubRead(v, thunk);
    OffsetRead(v, stub);
  }

  /** There is no answer if and only if the module is not loaded, the command lies outside both ranges, or one of the
      reads or byte checks fails. */
  lemma UnresolvedExactlyWhen(v: View, base: Word, cmd: Word)
    ensures Resolve(v, base, cmd).None? <==>
              || base == 0
              || (!(1 <= cmd <= 0x10e) && !(0x202 <= cmd <= 0x409))
              || (var low := cmd <= 0x10e;
                  var selector := if low then Wrap(base + 0x6639ec + cmd - 1) else Wrap(base + 0x663e3c + cmd - 0x202);
                  !v.CanRead(selector, 1) ||
                  var k: int := v.mem[selector];
                  var word := if low then Wrap(base + 0x6637b4 + 4 * k) else Wrap(base + 0x663afc + 4 * k);
                  !v.CanRead(word, 4) ||
                  var thunk := LoadWord(v.mem, word);
                  !v.CanRead(thunk, 12) || v.mem[thunk..thunk + 3] != [0x8D, 0x42, 0x10] || v.mem[thunk + 7] != 0xE9 ||
                  var stub := Wrap(thunk + 12 + FromLE(v.mem[thunk + 8..thunk + 12]));
                  !v.CanRead(stub, 11) || v.mem[stub + 5..stub + 7] != [0x8B, 0xB1])
  {
    hide LoadWord, FromLE, Wrap, StubOf, ListOffset;
    SelectorAndWord(base, cmd, 0);
    if base != 0 && (1 <= cmd <= 0x10e || 0x202 <= cmd <= 0x409) {
      var low := cmd <= 0x10e;
      var selector := if low then Wrap(base + 0x6639ec + cmd - 1) else Wrap(base + 0x663e3c + cmd - 0x202);
      if v.CanRead(selector, 1) {
        var k: int := v.mem[selector];
        var word := if low then Wrap(base + 0x6637b4 + 4 * k) else Wrap(base + 0x663afc + 4 * k);
        ThunkRead(v, base, cmd, selector, word);
        if v.CanRead(word, 4) {
          var thunk := LoadWord(v.mem, word);
          StubRead(v, thunk);
          if v.CanRead(thunk, 12) {
            OffsetRead(v, Wrap(thunk + 12 + FromLE(v.mem[thunk + 8..thunk + 12])));
          }
        }
      }
    }
  }

  // --- stability under patching ---

  /** The bytes one read looks at. */
  ghost function Looks(v: View, a: Word, n: nat): iset<Word> {
    if v.CanRead(a, n) then Addresses(Span(a, n)) else iset{}
  }

  /** The bytes that lead to the stub, as far as the resolver comes: selector, table word and thunk. */
  ghost function LeadsToStub(v: View, base: Word, cmd: Word): iset<Word> {
    if base == 0 then iset{} else
    match TablesOf(base, cmd)
    case None => iset{}
    case Some(t) =>
      Looks(v, t.selector, 1) +
      match SafeRead(v, t.selector, 1)
      case None => iset{}
      case Some(sel) =>
        Looks(v, Wrap(t.jumpTable + (sel[0] as int) * 4), 4) +
        match ThunkOf(v, base, cmd)
        case None => iset{}
        case Some(thunk) => Looks(v, thunk, 12)
  }

  /** The bytes of the stub that count: none when the resolver does not come to a readable stub. */
  ghost function StubTail(v: View, base: Word, cmd: Word): iset<Word> {
    match ThunkOf(v, base, cmd)
    case None => iset{}
    case Some(thunk) =>
      match StubOf(v, thunk)
      case None => iset{}
      case Some(stub) => if v.CanRead(stub, 11) then Addresses(Span(Wrap(stub + 5), 6)) else iset{}
  }

  /** The bytes that decide the answer, whatever it is. */
  ghost function Decides(v: View, base: Word, cmd: Word): iset<Word> {
    LeadsToStub(v, base, cmd) + StubTail(v, base, cmd)
  }

  lemma ReadSame(v: View, v': View, t: iset<Word>, a: Word, n: nat)
    requires v'.readable == v.readable && AgreeOutside(v.mem, v'.mem, t)
    requires n <= SIZE && Looks(v, a, n) !! t
    ensures SafeRead(v', a, n) == SafeRead(v, a, n)
  {
    if v.CanRead(a, n) {
      LoadAgree(v.mem, v'.mem, t, a, n);
    }
  }

  lemma ThunkSame(v: View, v': View, t: iset<Word>, base: Word, cmd: Word)
    requires v'.readable == v.readable && AgreeOutside(v.mem, v'.mem, t)
    requires LeadsToStub(v, base, cmd) !! t
    ensures ThunkOf(v', base, cmd) == ThunkOf(v, base, cmd)
  {
    hide Addresses, Load, Looks, TablesOf, AgreeOutside;
    if base != 0 && TablesOf(base, cmd).Some? {
      var tb := TablesOf(base, cmd).value;
      ReadSame(v, v', t, tb.selector, 1);
      var sel := SafeRead(v, tb.selector, 1);
      if sel.Some? {
        ReadSame(v, v', t, Wrap(tb.jumpTable + (sel.value[0] as int) * 4), 4);
      }
    }
  }

  lemma ThunkLooksLead(v: View, base: Word, cmd: Word, thunk: Word)
    requires ThunkOf(v, base, cmd) == Some(thunk)
    ensures Looks(v, thunk, 12) <= LeadsToStub(v, base, cmd)
  {
    hide Addresses, Load, Looks, TablesOf;
  }

  /** A patch that misses the deciding bytes leaves the resolver's answer as it was, found or not. */
  lemma ResolveStable(v: View, v': View, t: iset<Word>, base: Word, cmd: Word)
    requires v'.readable == v.readable && AgreeOutside(v.mem, v'.mem, t)
    requires Decides(v, base, cmd) !! t
    ensures Resolve(v', base, cmd) == Resolve(v, base, cmd)
  {
    hide Addresses, Load, Looks, TablesOf, ThunkOf, LeadsToStub, ListOffset, SafeRead, AgreeOutside;
    ThunkSame(v, v', t, base, cmd);
    if ThunkOf(v, base, cmd).Some? {
      var thunk := ThunkOf(v, base, cmd).value;
      ThunkLooksLead(v, base, cmd, thunk);
      ReadSame(v, v', t, thunk, 12);
      if StubOf(v, thunk).Some? {
        StubTailSame(v, v', t, StubOf(v, thunk).value);
      }
    }
  }

  lemma StubTailSame(v: View, v': View, t: iset<Word>, stub: Word)
    requires v'.readable == v.readable && AgreeOutside(v.mem, v'.mem, t)
    requires v.CanRead(stub, 11) ==> Addresses(Span(Wrap(stub + 5), 6)) !! t
    ensures ListOffset(v', stub) == ListOffset(v, stub)
  {
    if v.CanRead(stub, 11) {
      ReadableTailSame(v, v', t, stub);
    }
  }

  lemma ReadableTailSame(v: View, v': View, t: iset<Word>, stub: Word)
    requires v'.readable == v.readable && AgreeOutside(v.mem, v'.mem, t)
    requires v.CanRead(stub, 11) && Addresses(Span(Wrap(stub + 5), 6)) !! t
    ensures ListOffset(v', stub) == ListOffset(v, stub)
  {
    LoadAgree(v.mem, v'.mem, t, Wrap(stub + 5), 6);
    LoadIsSlice(v.mem, stub, 11);
    LoadIsSlice(v'.mem, stub, 11);
    WordIsWrapped(stub + 5);
    LoadIsSlice(v.mem, stub + 5, 6);
    LoadIsSlice(v'.mem, stub + 5, 6);
    hide Load;
    var a, b := v.mem[stub..stub + 11], v'.mem[stub..stub + 11];
    assert a[5..] == v.mem[stub + 5..stub + 11] && b[5..] == v'.mem[stub + 5..stub + 11];
    assert a[5] == a[5..][0] && b[5] == b[5..][0] && a[6] == a[5..][1] && b[6] == b[5..][1];
    assert a[7..11] == a[5..][2..6] && b[7..11] == b[5..][2..6];
  }

  /** After any batch of jmp hooks whose ranges miss the deciding bytes the answer is the same. */
  lemma ResolveAfterInstall(v: View, hs: seq<Hook>, base: Word, cmd: Word)
    requires Separate(hs) && Footprint(hs) !! Decides(v, base, cmd)
    ensures Resolve(v.(mem := InstallAll(v.mem, hs)), base, cmd) == Resolve(v, base, cmd)
  {
    BatchInstalled(v.mem, hs);
    hide Decides, Footprint, InstallAll, Separate;
    ResolveStable(v, v.(mem := InstallAll(v.mem, hs)), Footprint(hs), base, cmd);
  }

  /** Nor does any batch of call hooks that misses them change it. */
  lemma ResolveAfterCalls(v: View, at: Word, es: seq<CallHookEntry>, base: Word, cmd: Word)
    requires CallFootprint(at, es) !! Decides(v, base, cmd)
    ensures Resolve(v.(mem := CallsInstalled(v.mem, at, es)), base, cmd) == Resolve(v, base, cmd)
  {
    CallsKeepTheRest(v.mem, at, es);
    hide Decides, CallFootprint, CallsInstalled;
    ResolveStable(v, v.(mem := CallsInstalled(v.mem, at, es)), CallFootprint(at, es), base, cmd);
  }

  /** Nor any batch of NOP patches. */
  lemma ResolveAfterNops(v: View, at: Word, es: seq<NopPatchEntry>, base: Word, cmd: Word)
    requires NopFootprint(at, es) !! Decides(v, base, cmd)
    ensures Resolve(v.(mem := NopsInstalled(v.mem, at, es)), base, cmd) == Resolve(v, base, cmd)
  {
    NopsKeepTheRest(v.mem, at, es);
    hide Decides, NopFootprint, NopsInstalled;
    ResolveStable(v, v.(mem := NopsInstalled(v.mem, at, es)), NopFootprint(at, es), base, cmd);
  }

  /** A five-byte hook on a stub misses the stub's deciding bytes. */
  lemma StubHookMissesTail(stub: Word, h: Hook)
    requires h.site == stub && |h.stolen| == 5
    ensures Addresses(SiteSpan(h)) !! Addresses(Span(Wrap(stub + 5), 6))
  {
    SpansApart(stub, 0, 5, 5, 6);
    WordIsWrapped(stub);
  }

  /** The resolver keeps its answer after the stub it comes to has been hooked with five bytes. */
  lemma ResolveAfterStubHook(v: View, h: Hook, base: Word, cmd: Word)
    requires ThunkOf(v, base, cmd).Some? && StubOf(v, ThunkOf(v, base, cmd).value) == Some(h.site) && |h.stolen| == 5
    requires Placed(h) && Addresses(SiteSpan(h)) !! LeadsToStub(v, base, cmd)
    requires Addresses(TrampSpan(h)) !! Decides(v, base, cmd)
    ensures Resolve(v.(mem := InstallAll(v.mem, [h])), base, cmd) == Resolve(v, base, cmd)
  {
    hide Addresses, TablesOf, SafeRead, ThunkOf, StubOf, ListOffset, LeadsToStub;
    StubHookMissesTail(h.site, h);
    assert StubTail(v, base, cmd) <= Addresses(Span(Wrap(h.site + 5), 6));
    assert Footprint([h]) == FootprintOf(h) by {
      forall x: Word ensures Touched([h], x) <==> x in FootprintOf(h) {
        assert h in [h];
      }
    }
    hide Resolve, StubTail;
    ResolveAfterInstall(v, [h], base, cmd);
  }

  // --- soundness against the machine ---

  /** In state `q` the instruction goes on to its successor at `next`. */
  predicate FallsOn(i: Insn, q: State, next: Word) {
    match i
    case JmpRel(rel) => rel == 0
    case CallRel(rel) => rel == 0
    case Jcc(cc, rel) => !Taken(cc, q.flags) || rel == 0
    case Loop(kind, rel) => !LoopTaken(kind, q.regs.ecx, q.flags) || rel == 0
    case JmpRm(rm) => Value(rm, q) == next
    case CallRm(rm) => Value(rm, q) == next
    case Ret(_) => Top(q) == next
    case _ => true
  }

  lemma ArrivesExactlyWhen(f: Fetched, q: State)
    ensures var next := Wrap(q.eip + f.len); Exec(f, q).eip == next <==> FallsOn(f.insn, q, next)
  {
    hide Wrap, Load, Store, LE, FromLE, Taken, LoopTaken, LoopCount, AluFlags, AluResult, RegsImage, RegsFromImage, FallsOn;
    var next: int := Wrap(q.eip + f.len);
    if !Leaves(f.insn) {
      ExecNext(f, q);
      FallsOnUnlessLeaving(f.insn, q, next);
    } else if IsRelativeJump(f.insn) || f.insn.CallRel? {
      NoDistance(next, f.insn.rel);
      RelativeFallsOn(f, q, next);
    } else {
      AbsoluteFallsOn(f, q, next);
    }
  }

  lemma FallsOnUnlessLeaving(i: Insn, q: State, next: Word)
    requires !Leaves(i)
    ensures FallsOn(i, q, next)
  {
  }

  lemma NoDistance(next: Word, rel: Word)
    ensures Wrap(next + rel) == next <==> rel == 0
  {
  }

  lemma RelativeFallsOn(f: Fetched, q: State, next: Word)
    requires IsRelativeJump(f.insn) || f.insn.CallRel?
    requires next == Wrap(q.eip + f.len) && (Wrap(next + f.insn.rel) == next <==> f.insn.rel == 0)
    ensures Exec(f, q).eip == next <==> FallsOn(f.insn, q, next)
  {
    hide Exec, Wrap, Taken, LoopTaken;
    if f.insn.CallRel? {
      CallGoes(f, q);
    } else {
      RelativeJumpIs(f, q);
    }
  }

  lemma AbsoluteFallsOn(f: Fetched, q: State, next: Word)
    requires f.insn.JmpRm? || f.insn.CallRm? || f.insn.Ret?
    ensures Exec(f, q).eip == next <==> FallsOn(f.insn, q, next)
  {
    hide Wrap, Load, Store, LE, FromLE;
  }

  /** The instruction goes on to its successor from every state of the machine. */
  ghost predicate NeverStrays(f: Fetched) {
    forall q: State :: Exec(f, q).eip == Wrap(q.eip + f.len)
  }

  predicate CannotLeave(i: Insn) {
    Leaves(i) ==> (IsRelativeJump(i) || i.CallRel?) && i.rel == 0
  }

  /** Which bytes can be trusted without looking at the state: an instruction never strays if and only if it cannot
      leave, or goes a distance of 0. */
  lemma NeverStraysExactlyWhen(f: Fetched)
    ensures NeverStrays(f) <==> CannotLeave(f.insn)
  {
    hide Exec, Wrap, Taken, LoopTaken, Load, FromLE, Value, Top;
    if CannotLeave(f.insn) {
      forall q: State ensures Exec(f, q).eip == Wrap(q.eip + f.len) {
        ArrivesExactlyWhen(f, q);
      }
    } else {
      var q := Revealing(f.insn, Wrap(7 - f.len));
      ArrivesExactlyWhen(f, q);
      RevealingStrays(f);
      assert Exec(f, q).eip != Wrap(q.eip + f.len);
    }
  }

  lemma RevealingStrays(f: Fetched)
    requires !CannotLeave(f.insn)
    ensures var q := Revealing(f.insn, Wrap(7 - f.len)); !FallsOn(f.insn, q, Wrap(q.eip + f.len))
  {
    var q := Revealing(f.insn, Wrap(7 - f.len));
    WrapShift(7 - f.len, f.len);
    if IsRelativeJump(f.insn) {
      RevealingJumps(f.insn, q.eip);
      hide Taken, LoopTaken, Revealing, Wrap;
    } else {
      hide Wrap;
      WordIsWrapped(7);
      ZeroesInside(f.insn, q.eip);
    }
  }

  lemma ZeroesInside(i: Insn, eip: Word)
    requires !IsRelativeJump(i)
    ensures var q := Revealing(i, eip);
            Top(q) == 0 && (i.JmpRm? || i.CallRm? ==> Value(i.rm, q) == 0)
  {
    var q := Revealing(i, eip);
    hide Wrap, LoadWord, TakingFlags;
    ZeroWord(q.regs.esp);
    if (i.JmpRm? || i.CallRm?) && i.rm.At? {
      ZeroWord(Address(i.rm, q.regs));
    }
  }

  lemma ZeroWord(a: Word)
    ensures LoadWord(seq(SIZE, x => 0), a) == 0
  {
    var m: Memory := seq(SIZE, x => 0);
    forall i | 0 <= i < 4 ensures Load(m, a, 4)[i] == 0 {
      assert Load(m, a, 4)[i] == m[Wrap(a + i)];
    }
  }

  const THUNK_LEA := Fetched(Lea(EAX, At(Option.Some(EDX), 0x10)), 3)

  /** Whether the thunk's jump is executed: with bytes 3 to 6 whole instructions of which only the last may leave, the
      machine started at the thunk comes to its byte 7 if and only if that last instruction falls on in the state it
      meets; and from there the next step is at the resolved stub. */
  lemma ThunkReachesStub(v: View, thunk: Word, stub: Word, l: seq<Fetched>, s: State)
    requires StubOf(v, thunk) == Some(stub)
    requires s.mem == v.mem && s.eip == thunk
    requires Disassemble(v.mem[thunk + 3..thunk + 7]) == Some(l) && StraightLine(l)
    requires Spares([THUNK_LEA] + l, s, Addresses(Span(thunk, 12)))
    ensures |l| > 0
    ensures var q := ExecAll([THUNK_LEA] + l[..|l| - 1], s);
            var falls := FallsOn(l[|l| - 1].insn, q, thunk + 7);
            && Steps(s, |l| + 1).Some? && (Steps(s, |l| + 1).value.eip == thunk + 7 <==> falls)
            && (falls ==> Steps(s, |l| + 2).Some? && Steps(s, |l| + 2).value.eip == stub)
  {
    hide Exec, Decode, Disassemble, Spares, Addresses, ExecAll, Steps, StubOf, Leaves, CodeAt, FromLE, FallsOn, StraightLine, Wrap;
    ThunkParts(v, thunk, stub);
    var code, all := v.mem[thunk..thunk + 12], [THUNK_LEA] + l;
    SliceOfSlice(v.mem, thunk, thunk + 12, 3, 7);
    ThunkFront(code, l);
    PartInside(thunk, 12, 0, 7);
    SparesLess(all, s, Addresses(Span(thunk, 12)), Addresses(Span(thunk, 7)));
    assert CodeAt(s.mem, thunk, [] + code[..7] + code[7..]) by { WholeCode(s.mem, thunk, code); }
    RunBare(s, thunk, [], code[..7], code[7..], all);
    LastArrives(code, l, s);
    var r := ExecAll(all, s);
    RegionKept(all, s, Addresses(Span(thunk, 12)));
    assert CodeAt(s.mem, thunk, code) by { WholeCode(s.mem, thunk, code); }
    CodeKeptIn(s.mem, r.mem, thunk, code, Addresses(Span(thunk, 12)));
    if r.eip == thunk + 7 {
      LastJump(r, thunk, code, stub);
      OneMore(s, |l| + 1, r, stub);
    }
  }

  lemma TrustedFallsOn(i: Insn, q: State, next: Word)
    requires CannotLeave(i)
    ensures FallsOn(i, q, next)
  {
  }

  const POP_EBP := Fetched(PopReg(EBP), 1)
  const MOV_COMMAND := Fetched(MovStore(At(Option.Some(EBP), 8), EAX), 3)

  /** The thunk the game is documented to have, 8D 42 10 89 45 08 5D E9 rel32, leads to its stub from every state whose
      store to the argument at EBP + 8 spares the thunk. */
  lemma DocumentedThunkReachesStub(v: View, thunk: Word, stub: Word, s: State)
    requires StubOf(v, thunk) == Some(stub) && v.mem[thunk + 3..thunk + 7] == [0x89, 0x45, 0x08, 0x5D]
    requires s.mem == v.mem && s.eip == thunk
    requires Addresses(Span(Wrap(s.regs.ebp + 8), 4)) !! Addresses(Span(thunk, 12))
    ensures Steps(s, 4).Some? && Steps(s, 4).value.eip == stub
  {
    hide Exec, Decode, Disassemble, Addresses, Steps, StubOf, FallsOn, Wrap, ThunkLooksRight, Encodes;
    var l := [MOV_COMMAND, POP_EBP];
    ThunkParts(v, thunk, stub);
    StoreAndPopEncode();
    DisassembleOne([0x89, 0x45, 0x08], MOV_COMMAND.insn);
    DisassembleSnoc([0x89, 0x45, 0x08], [MOV_COMMAND], [0x5D], POP_EBP.insn, l);
    assert [0x89, 0x45, 0x08] + [0x5D] == [0x89, 0x45, 0x08, 0x5D];
    DocumentedSpares(s, Addresses(Span(thunk, 12)));
    assert [THUNK_LEA] + l == [THUNK_LEA, MOV_COMMAND, POP_EBP];
    ThunkReachesStub(v, thunk, stub, l, s);
    TrustedFallsOn(l[1].insn, ExecAll([THUNK_LEA] + l[..1], s), thunk + 7);
  }

  lemma StoreAndPopEncode()
    ensures Encodes([0x89, 0x45, 0x08], MOV_COMMAND.insn) && Encodes([0x5D], POP_EBP.insn)
  {
  }

  lemma DocumentedSpares(s: State, region: iset<Word>)
    requires Addresses(Span(Wrap(s.regs.ebp + 8), 4)) !! region
    ensures Spares([THUNK_LEA, MOV_COMMAND, POP_EBP], s, region)
  {
    hide Addresses, Load, Store, Wrap;
    NowhereEmpty();
    var l := [THUNK_LEA, MOV_COMMAND, POP_EBP];
    var s1 := Exec(l[0], s);
    var s2 := Exec(l[1], s1);
    assert l[1..] == [MOV_COMMAND, POP_EBP] && l[2..] == [POP_EBP] && l[3..] == [];
    assert Spares(l[3..], Exec(l[2], s2), region);
    Peel(l, 2, s2, Exec(l[2], s2), Exec(l[2], s2), region);
    Peel(l, 1, s1, s2, Exec(l[2], s2), region);
    Peel(l, 0, s, s1, Exec(l[2], s2), region);
    assert l[0..] == l;
  }

  // --- thunks in which any instruction may leave ---

  /** Each instruction in turn goes on to its successor. */
  ghost predicate AllFallOn(l: seq<Fetched>, q: State) {
    l == [] || (FallsOn(l[0].insn, q, Wrap(q.eip + l[0].len)) && AllFallOn(l[1..], Exec(l[0], q)))
  }

  /** None of them writes to `region`, up to the first that does not go on. */
  ghost predicate SparesOnTheWay(l: seq<Fetched>, q: State, region: iset<Word>) {
    l == [] ||
    (Addresses(Writes(l[0].insn, q)) !! region &&
     (FallsOn(l[0].insn, q, Wrap(q.eip + l[0].len)) ==> SparesOnTheWay(l[1..], Exec(l[0], q), region)))
  }

  /** The machine comes to every instruction in turn, from number `k` on, and to the end. */
  ghost predicate InTurn(s: State, l: seq<Fetched>, k: nat) {
    forall i: nat :: k <= i <= |l| ==> Steps(s, i).Some? && Steps(s, i).value.eip == Wrap(s.eip + OffsetOf(l, i))
  }

  lemma {:induction false} InTurnFrom(s: State, code: seq<Byte>, l: seq<Fetched>, k: nat, q: State)
    requires |code| == 12 && Disassemble(code[..7]) == Some(l) && s.eip + 12 <= SIZE && k <= |l|
    requires Steps(s, k) == Some(q) && q.eip == Wrap(s.eip + OffsetOf(l, k)) && CodeAt(q.mem, s.eip, code)
    requires SparesOnTheWay(l[k..], q, Addresses(Span(s.eip, 12)))
    ensures InTurn(s, l, k) <==> AllFallOn(l[k..], q)
    ensures AllFallOn(l[k..], q) ==> CodeAt(Steps(s, |l|).value.mem, s.eip, code)
    decreases |l| - k
  {
    hide Exec, Decode, Disassemble, Steps, CodeAt, Addresses, Wrap, FallsOn, Writes, OffsetOf;
    if k < |l| {
      var f := l[k];
      StepsOn(s, code, l, k, q);
      var r := Exec(f, q);
      ArrivesExactlyWhen(f, q);
      NextPlace(s.eip, l, k);
      assert l[k..][1..] == l[k + 1..];
      if FallsOn(f.insn, q, Wrap(q.eip + f.len)) {
        ExecFrame(f, q);
        CodeSpared(q.mem, r.mem, s.eip, code, Addresses(Writes(f.insn, q)));
        InTurnFrom(s, code, l, k + 1, r);
      }
    }
  }

  lemma NextPlace(a: Word, l: seq<Fetched>, k: nat)
    requires k < |l|
    ensures Wrap(Wrap(a + OffsetOf(l, k)) + l[k].len) == Wrap(a + OffsetOf(l, k + 1))
  {
    WrapShift(a + OffsetOf(l, k), l[k].len);
  }

  lemma StepsOn(s: State, code: seq<Byte>, l: seq<Fetched>, k: nat, q: State)
    requires |code| == 12 && Disassemble(code[..7]) == Some(l) && s.eip + 12 <= SIZE && k < |l|
    requires Steps(s, k) == Some(q) && q.eip == Wrap(s.eip + OffsetOf(l, k)) && CodeAt(q.mem, s.eip, code)
    ensures Steps(s, k + 1) == Some(Exec(l[k], q))
  {
    hide Exec, Decode, Disassemble, OffsetOf, CodeAt;
    OffsetsInside(code[..7], l, k);
    var x := OffsetOf(l, k);
    DecodeLength(code[..7][x..]);
    DecodeLocal(code[..7][x..], code[x..]);
    WordIsWrapped(s.eip + x);
    FetchCode(q.mem, s.eip, code, x);
  }

  /** Every thunk, whatever instructions bytes 3 to 6 are: the machine executes them one after the other up to the jump
      if and only if each goes on in the state it meets, and then it goes to the resolved stub. */
  lemma ThunkInTurnExactlyWhen(v: View, thunk: Word, stub: Word, l: seq<Fetched>, s: State)
    requires StubOf(v, thunk) == Some(stub)
    requires s.mem == v.mem && s.eip == thunk
    requires Disassemble(v.mem[thunk + 3..thunk + 7]) == Some(l)
    requires SparesOnTheWay([THUNK_LEA] + l, s, Addresses(Span(thunk, 12)))
    ensures InTurn(s, [THUNK_LEA] + l, 0) <==> AllFallOn([THUNK_LEA] + l, s)
    ensures AllFallOn([THUNK_LEA] + l, s) ==> Steps(s, |l| + 2).Some? && Steps(s, |l| + 2).value.eip == stub
  {
    hide Exec, Decode, Disassemble, SparesOnTheWay, AllFallOn, Addresses, StubOf, CodeAt, FromLE, Wrap, Step;
    ThunkParts(v, thunk, stub);
    var code, all := v.mem[thunk..thunk + 12], [THUNK_LEA] + l;
    SliceOfSlice(v.mem, thunk, thunk + 12, 3, 7);
    ThunkListing(code, l);
    assert CodeAt(s.mem, thunk, code) by { WholeCode(s.mem, thunk, code); }
    WordIsWrapped(thunk);
    assert OffsetOf(all, 0) == 0 && all[0..] == all;
    InTurnFrom(s, code, all, 0, s);
    if AllFallOn(all, s) {
      OffsetsInside(code[..7], all, |all|);
      WordIsWrapped(thunk + 7);
      var r := Steps(s, |all|).value;
      LastJump(r, thunk, code, stub);
      OneMore(s, |all|, r, stub);
    }
  }

  /** The last of the instructions before the jump decides whether the jump is met. */
  lemma LastArrives(code: seq<Byte>, l: seq<Fetched>, s: State)
    requires |code| == 12 && s.eip + 12 <= SIZE && l != []
    requires Disassemble(code[..7]) == Some([THUNK_LEA] + l) && StraightLine([THUNK_LEA] + l)
    ensures var q := ExecAll([THUNK_LEA] + l[..|l| - 1], s);
            ExecAll([THUNK_LEA] + l, s).eip == s.eip + 7 <==> FallsOn(l[|l| - 1].insn, q, s.eip + 7)
  {
    hide Exec, Disassemble, ExecAll, FallsOn, Wrap, OffsetOf;
    var n := |l|;
    var all, front, last := [THUNK_LEA] + l, [THUNK_LEA] + l[..n - 1], l[n - 1];
    assert all == front + [last] && all[..n] == front;
    var q := ExecAll(front, s);
    ExecAllAppend(front, [last], s);
    assert ExecAll([last], q) == Exec(last, q) by { OneExec(last, q); }
    OffsetsInside(code[..7], all, n);
    OffsetsInside(code[..7], all, n + 1);
    NextIsBoundary(all, n);
    FrontArrives(all, n, s);
    WrapShift(s.eip + OffsetOf(all, n), last.len);
    WordIsWrapped(s.eip + 7);
    ArrivesExactlyWhen(last, q);
  }

  lemma OneExec(f: Fetched, q: State)
    ensures ExecAll([f], q) == Exec(f, q)
  {
    hide Exec;
    assert [f][1..] == [];
  }

  lemma {:induction false} FrontArrives(l: seq<Fetched>, i: nat, s: State)
    requires i < |l| && StraightLine(l)
    ensures ExecAll(l[..i], s).eip == Wrap(s.eip + OffsetOf(l, i))
    decreases i
  {
    hide Exec, Leaves, Wrap;
    if i == 0 {
      WordIsWrapped(s.eip);
    } else {
      FrontArrives(l, i - 1, s);
      assert l[..i] == l[..i - 1] + [l[i - 1]];
      ExecAllAppend(l[..i - 1], [l[i - 1]], s);
      var q := ExecAll(l[..i - 1], s);
      OneExec(l[i - 1], q);
      ExecNext(l[i - 1], q);
      WrapShift(s.eip + OffsetOf(l, i - 1), l[i - 1].len);
    }
  }

  lemma WholeCode(m: Memory, a: Word, code: seq<Byte>)
    requires a + 12 <= SIZE && code == m[a..a + 12]
    ensures CodeAt(m, a, code) && CodeAt(m, a, [] + code[..7] + code[7..])
  {
    assert [] + code[..7] + code[7..] == code;
  }

  lemma ThunkListing(code: seq<Byte>, l: seq<Fetched>)
    requires |code| == 12 && code[..3] == [0x8D, 0x42, 0x10] && Disassemble(code[3..7]) == Some(l)
    ensures Disassemble(code[..7]) == Some([THUNK_LEA] + l)
  {
    hide Decode, Disassemble;
    LeaEncodes();
    DisassembleOne([0x8D, 0x42, 0x10], THUNK_LEA.insn);
    DisassembleAppend([0x8D, 0x42, 0x10], [THUNK_LEA], code[3..7], l);
    assert code[..7] == [0x8D, 0x42, 0x10] + code[3..7];
  }

  lemma ThunkFront(code: seq<Byte>, l: seq<Fetched>)
    requires |code| == 12 && code[..3] == [0x8D, 0x42, 0x10]
    requires Disassemble(code[3..7]) == Some(l) && StraightLine(l)
    ensures Disassemble(code[..7]) == Some([THUNK_LEA] + l) && StraightLine([THUNK_LEA] + l) && l != []
  {
    hide Decode, Disassemble;
    ThunkListing(code, l);
    assert l != [] by { SomethingThere(code[3..7], l); }
  }

  lemma SomethingThere(code: seq<Byte>, l: seq<Fetched>)
    requires code != [] && Disassemble(code) == Some(l)
    ensures l != []
  {
    hide Decode;
  }

  lemma LeaEncodes()
    ensures Encodes([0x8D, 0x42, 0x10], Lea(EAX, At(Option.Some(EDX), 0x10)))
  {
  }

  lemma ThunkParts(v: View, thunk: Word, stub: Word)
    requires StubOf(v, thunk) == Some(stub)
    ensures thunk + 12 <= SIZE && v.CanRead(thunk, 12)
    ensures var code := v.mem[thunk..thunk + 12];
            && code[..3] == [0x8D, 0x42, 0x10] && code[7] == 0xE9 && stub == Wrap(thunk + 12 + FromLE(code[8..12]))
  {
    LoadIsSlice(v.mem, thunk, 12);
  }

  lemma LastJump(q: State, thunk: Word, code: seq<Byte>, stub: Word)
    requires |code| == 12 && CodeAt(q.mem, thunk, code) && q.eip == thunk + 7
    requires code[7] == 0xE9 && stub == Wrap(thunk + 12 + FromLE(code[8..12]))
    ensures Step(q).Some? && Step(q).value.eip == stub
  {
    var rel := FromLE(code[8..12]);
    var bs := code[7..];
    assert [bs[1], bs[2], bs[3], bs[4]] == code[8..12];
    assert Decode(bs) == Some(Fetched(JmpRel(rel), 5));
    FetchCode(q.mem, thunk, code, 7);
    JmpRelIs(rel, q);
    WrapShift(thunk + 12, rel);
  }

  lemma OneMore(s: State, n: nat, q: State, stub: Word)
    requires Steps(s, n) == Some(q) && Step(q).Some? && Step(q).value.eip == stub
    ensures Steps(s, n + 1).Some? && Steps(s, n + 1).value.eip == stub
  {
    hide Exec, Decode;
  }

  /** The offset is the displacement of the stub's `mov esi,[ecx+disp32]`. */
  lemma OffsetIsTheDisplacement(v: View, stub: Word, off: Word)
    requires ListOffset(v, stub) == Some(off)
    ensures Fetch(v.mem, Wrap(stub + 5)) == Some(Fetched(MovLoad(ESI, At(Option.Some(ECX), off)), 6))
  {
    hide Load;
    LoadIsSlice(v.mem, stub, 11);
    WordIsWrapped(stub + 5);
    var sb := v.mem[stub..stub + 11];
    var code := [0x8B, 0xB1] + LE(off);
    LEofFromLE(sb[7..11]);
    assert code == sb[5..] == v.mem[stub + 5..stub + 11];
    MovEsiDecodes(off);
    assert code[0..] == code;
    FetchCode(v.mem, stub + 5, code, 0);
  }

  lemma MovEsiDecodes(off: Word)
    ensures Decode([0x8B, 0xB1] + LE(off)) == Some(Fetched(MovLoad(ESI, At(Option.Some(ECX), off)), 6))
  {
    var bs := [0x8B, 0xB1] + LE(off);
    FromLEofLE(off);
    assert [bs[2], bs[3], bs[4], bs[5]] == LE(off);
  }

  /** The resolver does not see what stands in bytes 3 to 6: a thunk with a return at byte 3 resolves all the same, and
      control goes to whatever is on the stack. */
  lemma UncheckedReturn(v: View, thunk: Word, stub: Word, s: State)
    requires StubOf(v, thunk) == Some(stub)
    requires v.mem[thunk + 3] == 0xC3 && s.mem == v.mem && s.eip == thunk
    ensures Steps(s, 2).Some? && Steps(s, 2).value.eip == Top(s)
  {
    hide Exec, Decode, Fetch, Step, Encodes, StubOf, Addresses, Disassemble, Load, Steps;
    ThunkParts(v, thunk, stub);
    var lea := Fetched(Lea(EAX, At(Option.Some(EDX), 0x10)), 3);
    var code := v.mem[thunk..thunk + 4];
    assert code == [0x8D, 0x42, 0x10] + [0xC3] by {
      SliceOfSlice(v.mem, thunk, thunk + 12, 0, 3);
      assert code[..3] == v.mem[thunk..thunk + 3] && code == code[..3] + [code[3]];
    }
    LeaEncodes();
    RetEncodes();
    DisassembleOne([0x8D, 0x42, 0x10], lea.insn);
    DisassembleSnoc([0x8D, 0x42, 0x10], [lea], [0xC3], Ret(0), [lea, Fetched(Ret(0), 1)]);
    var l := [lea, Fetched(Ret(0), 1)];
    var t := s.(regs := s.regs.(eax := Address(lea.insn.rm, s.regs)), eip := Wrap(thunk + 3));
    LeaIs(lea.insn.rm, s);
    RetIs(t);
    NowhereEmpty();
    var region := Addresses(Span(thunk, 4));
    assert l[2..] == [] && l[0..] == l;
    Peel(l, 1, t, Exec(l[1], t), Exec(l[1], t), region);
    Peel(l, 0, s, t, Exec(l[1], t), region);
    assert [] + code + [] == code;
    RunBare(s, thunk, [], code, [], l);
  }

  lemma RetEncodes()
    ensures Encodes([0xC3], Ret(0))
  {
  }

  /** Whatever else memory holds, such a thunk has a state from which it goes neither to its jump nor to the stub. */
  lemma ReturnGoesAstray(v: View, thunk: Word, stub: Word) returns (s: State)
    requires StubOf(v, thunk) == Some(stub) && v.mem[thunk + 3] == 0xC3
    ensures s.mem == v.mem && s.eip == thunk
    ensures Steps(s, 2).Some? && Steps(s, 2).value.eip != thunk + 7 && Steps(s, 2).value.eip != stub
  {
    hide StubOf, Steps;
    ThunkParts(v, thunk, stub);
    var code := v.mem[thunk..thunk + 12];
    assert code[..3][0] == code[0] && code[..3][1] == code[1] && code[..3][2] == code[2];
    LowByte(v.mem, thunk);
    LowByte(v.mem, thunk + 1);
    LowByte(v.mem, thunk + 2);
    var w0, w1, w2 := LoadWord(v.mem, thunk), LoadWord(v.mem, thunk + 1), LoadWord(v.mem, thunk + 2);
    assert w0 != w1 && w1 != w2 && w0 != w2;
    hide LoadWord, ThunkLooksRight;
    var esp: Word := if w0 != thunk + 7 && w0 != stub then thunk else if w1 != thunk + 7 && w1 != stub then thunk + 1 else thunk + 2;
    s := State(Regs(0, 0, 0, 0, esp, 0, 0, 0), 0, thunk, v.mem);
    UncheckedReturn(v, thunk, stub, s);
  }

  lemma LowByte(m: Memory, a: Word)
    ensures LoadWord(m, a) % 256 == m[a]
  {
    assert Load(m, a, 4)[0] == m[Wrap(a + 0)] == m[a];
  }
}
