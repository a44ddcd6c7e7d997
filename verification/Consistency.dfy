/** The hypotheses of the two transparency theorems can be met: concrete processes that satisfy all of them. */
module Consistency {
  import opened Words
  import opened Machine
  import opened Decoder
  import opened Execution
  import opened Hooks
  import opened Assembler
  import opened ObserverCall
  import opened SlotCapture
  import opened VtableTrampoline
  import opened SlotForwarding
  import opened SlotPlaces
  import opened Simulation
  import opened Installation
  import opened NestedCalls

  function NopListing(n: nat): (l: seq<Fetched>)
    ensures |l| == n && forall i :: 0 <= i < n ==> l[i] == Fetched(Nop, 1)
  {
    seq(n, i => Fetched(Nop, 1))
  }

  lemma {:induction false} NopsDisassemble(n: nat)
    ensures Disassemble(Nops(n)) == Some(NopListing(n))
  {
    if n > 0 {
      NopsDisassemble(n - 1);
      assert Encodes([0x90], Nop);
      hide Encodes, Decode;
      DisassembleSnocNop(n);
    } else {
      assert Nops(0) == [] && NopListing(0) == [];
    }
  }

  lemma DisassembleSnocNop(n: nat)
    requires n > 0 && Disassemble(Nops(n - 1)) == Some(NopListing(n - 1)) && Encodes([0x90], Nop)
    ensures Disassemble(Nops(n)) == Some(NopListing(n))
  {
    hide Encodes, Decode, Disassemble;
    DisassembleSnoc(Nops(n - 1), NopListing(n - 1), [0x90], Nop, NopListing(n));
    assert Nops(n - 1) + [0x90] == Nops(n);
  }

  lemma {:induction false} NopsAreQuiet(l: seq<Fetched>, s: State, t: Taint, guard: iset<Word>)
    requires forall i :: 0 <= i < |l| ==> l[i] == Fetched(Nop, 1)
    ensures AllQuiet(l, s, t, guard)
    decreases |l|
  {
    if l != [] {
      NowhereEmpty();
      NopsAreQuiet(l[1..], Exec(l[0], s), TaintAfter(l[0].insn, s, t), guard);
    }
  }

  /** A process with five NOPs hooked, a callback that returns, and a run that passes the hook. */
  lemma HookedProcessExists() returns (w: World, o: Oracle, s: State)
    ensures w.Valid() && w.Honest(o) && |w.hooks| == 1
    ensures Separate(w.hooks) && OriginalsIn(w, s.mem)
    ensures AtHook(w, s.eip) && Behaves(w, s, Taint(w.Guard(), false), 5)
  {
    hide Disassemble, Addresses, Store, Wrap, Load, CodeAt, World.Honest, Nops;
    var h := Hook(0x40_1000, Nops(5), 0x1000_0000, 0x2000_0000);
    w := World([h], Addresses(Span(0x1000_0000, 1)), 0);
    o := Returning();
    NopsRelocate();
    CallbacksReturn(w);
    var zero: Memory := seq(SIZE, i => 0);
    s := State(Regs(0, 0, 0, 0, 0x3000_0000, 0, 0, 0), 0, h.site, Store(zero, h.site, h.stolen));
    StoredCode(zero, h.site, h.stolen);
    FourApart(h, w);
    assert w.hooks[0] == h && w.HookFits(h);
    assert HookAt(w, s.eip) == h;
    NopsAreQuiet(NopListing(5), s, HookTaint(w, s, Taint(w.Guard(), false)), w.Guard());
  }

  lemma NopsRelocate()
    ensures |Nops(5)| == 5 && Disassemble(Nops(5)) == Some(NopListing(5)) && Relocates(Nops(5))
  {
    hide Disassemble, Decode;
    NopsDisassemble(5);
  }

  /** Every native function returns at once. */
  function Returning(): Oracle {
    (clock: nat, q: State) => State(q.regs.(esp := Wrap(q.regs.esp + 4)), q.flags, Top(q), q.mem)
  }

  lemma CallbacksReturn(w: World)
    ensures w.Honest(Returning())
  {
    hide Addresses, Load, Wrap;
  }

  ghost predicate Apart4(h: Hook, w: World) {
    && w.own !! Addresses(SiteSpan(h)) && w.own !! Addresses(TrampSpan(h))
    && Addresses(SiteSpan(h)) !! Addresses(TrampSpan(h))
    && Addresses(w.Scratch(0x3000_0000)) !! w.Guard()
    && h.callback in w.own
  }

  lemma FourApart(h: Hook, w: World)
    requires h == Hook(0x40_1000, Nops(5), 0x1000_0000, 0x2000_0000)
    requires w == World([h], Addresses(Span(0x1000_0000, 1)), 0)
    ensures Apart4(h, w)
  {
    SpansApart(0, 0x40_1000, 5, 0x1000_0000, 1);
    SpansApart(0, 0x1000_0000, 1, 0x2000_0000, 26);
    SpansApart(0, 0x40_1000, 5, 0x2000_0000, 26);
    SpansApart(0, 0x40_1000, 5, 0x2FFF_FFD8, 40);
    SpansApart(0, 0x1000_0000, 1, 0x2FFF_FFD8, 40);
    SpansApart(0, 0x2000_0000, 26, 0x2FFF_FFD8, 40);
    assert In(0x1000_0000, Span(0x1000_0000, 1));
    forall x | x in w.Guard() ensures x !in Addresses(w.Scratch(0x3000_0000)) {
      if x !in w.own {
        var i :| 0 <= i < |w.hooks| && (In(x, SiteSpan(w.hooks[i])) || In(x, TrampSpan(w.hooks[i])));
        assert x in Addresses(SiteSpan(h)) || x in Addresses(TrampSpan(h));
      }
    }
  }

  // --- the same for a vtable slot ---

  const OBSERVER_BEFORE := 0x1000_1000
  const OBSERVER_AFTER := 0x1000_2000
  const METHOD := 0x1000_3000

  ghost predicate ExampleSlot(k: Slot) {
    && k.base == 0x2000_0000 && k.cells == 0x1001_0000 && k.methodCell == 0x1002_0000
    && k.before == OBSERVER_BEFORE && k.after == OBSERVER_AFTER && k.place == MainSlot(3)
  }

  ghost function ExampleNatives(): iset<Word> {
    iset{OBSERVER_BEFORE, OBSERVER_AFTER, METHOD}
  }

  /** The observers return; the method pops `bytes` of arguments. */
  function ExampleOracle(bytes: nat): Oracle {
    (clock: nat, q: State) => State(q.regs.(esp := Wrap(q.regs.esp + 4 + if q.eip == METHOD then bytes else 0)), q.flags, Top(q), q.mem)
  }

  /** A process in which a slot's trampoline is about to run, with honest observers and a method ending in ret 8. */
  lemma HookedSlotExists() returns (k: Slot, env: World, natives: iset<Word>, o: Oracle, c: Config)
    ensures ExampleSlot(k) && env == World([], iset{}, 0) && natives == ExampleNatives() && c.s.regs.esp == 0x3000_0000
    ensures SlotPlaced(k, env, natives)
    ensures StackFree(k, env, AfterPop(c.s)) && StackFree(k, env, Wrap(AfterPop(c.s) + 8))
    ensures Addresses(Span(AfterPop(c.s), 4 * MAX_ARGS)) !! CellsOf(k)
    ensures ObserverHonest(env, o, k.before) && ObserverHonest(env, o, k.after)
    ensures CodeAt(c.s.mem, k.base, Flat(SlotProgram(k))) && c.s.eip == k.base
    ensures LoadWord(c.s.mem, k.methodCell) in natives
    ensures forall clock: nat, q: State :: Handed(k, env, c.s, q) ==> MethodReturns(k, q, o(clock, q), 8)
  {
    k :| ExampleSlot(k) by {
      assert ExampleSlot(Slot(0x2000_0000, 0x1001_0000, 0x1002_0000, OBSERVER_BEFORE, OBSERVER_AFTER, MainSlot(3)));
    }
    env, natives, o := World([], iset{}, 0), ExampleNatives(), ExampleOracle(8);
    SlotApart(k, env, natives);
    var m := ExampleMemory(k);
    c := Config(State(Regs(0, 0, 0, 0, 0x3000_0000, 0, 0, 0), 0, k.base, m), 0);
    assert AfterPop(c.s) == 0x3000_0004 && Wrap(AfterPop(c.s) + 8) == 0x3000_000C;
    hide SlotPlaced, StackFree, ObserverHonest, Addresses, Flat, SlotProgram, Handed, CodeAt, Load, MethodReturns, Wrap, ExampleOracle;
    ExampleObservers(env);
    forall clock: nat, q: State | Handed(k, env, c.s, q) ensures MethodReturns(k, q, o(clock, q), 8) {
      ExampleMethod(k, env, c.s, q, clock);
    }
  }

  /** The trampoline's code in place, and the method's address in its word. */
  lemma ExampleMemory(k: Slot) returns (m: Memory)
    requires ExampleSlot(k)
    ensures CodeAt(m, k.base, Flat(SlotProgram(k))) && LoadWord(m, k.methodCell) == METHOD
  {
    hide Flat, SlotProgram, Addresses, Load, Store, LE, CodeAt, IsPush;
    var code := Flat(SlotProgram(k));
    ExampleLength(k);
    var before := Store(seq(SIZE, i => 0), k.base, code);
    StoredCode(seq(SIZE, i => 0), k.base, code);
    m := StoreWord(before, k.methodCell, METHOD);
    LoadStoredWord(before, k.methodCell, METHOD);
    StoreFrame(before, k.methodCell, LE(METHOD));
    SpansApart(0, 0x1002_0000, 4, 0x2000_0000, 147);
    CodeSpared(before, m, k.base, code, Addresses(Span(k.methodCell, 4)));
  }

  lemma ExampleLength(k: Slot)
    requires ExampleSlot(k)
    ensures |Flat(SlotProgram(k))| == 147
  {
    hide Flat, SlotProgram, IsPush, Front;
    FrontLengths(k);
  }

  lemma ExampleObservers(env: World)
    ensures ObserverHonest(env, ExampleOracle(8), OBSERVER_BEFORE) && ObserverHonest(env, ExampleOracle(8), OBSERVER_AFTER)
  {
    hide Addresses, Load;
  }

  lemma ExampleMethod(k: Slot, env: World, s: State, q: State, clock: nat)
    requires Handed(k, env, s, q) && LoadWord(s.mem, k.methodCell) == METHOD
    ensures MethodReturns(k, q, ExampleOracle(8)(clock, q), 8)
  {
    hide Addresses, Load, CodeAt, Flat, SlotProgram, ArgsKept;
  }

  lemma SlotApart(k: Slot, env: World, natives: iset<Word>)
    requires ExampleSlot(k) && env == World([], iset{}, 0) && natives == ExampleNatives()
    ensures SlotPlaced(k, env, natives)
    ensures StackFree(k, env, 0x3000_0004) && StackFree(k, env, 0x3000_000C)
    ensures Addresses(Span(0x3000_0004, 4 * MAX_ARGS)) !! CellsOf(k)
  {
    hide Flat, SlotProgram, IsPush, Addresses, ExampleNatives, In;
    ExampleLength(k);
    NativesElsewhere(natives);
    SpansApart(0, 0x1001_0000, 56, 0x2000_0000, 147);
    SpansApart(0, 0x1001_0000, 56, 0x1002_0000, 4);
    SpansApart(0, 0x1001_0000, 56, 0x3000_0004, 32);
    StackApart(0x2FFF_FFD8);
    StackApart(0x2FFF_FFE0);
  }

  lemma NativesElsewhere(natives: iset<Word>)
    requires natives == ExampleNatives()
    ensures Addresses(Span(0x2000_0000, 147)) !! natives && OBSERVER_BEFORE in natives && OBSERVER_AFTER in natives
  {
  }

  lemma StackApart(low: Word)
    requires 0x2FFF_0000 <= low <= 0x2FFF_FFE0
    ensures Addresses(Span(low, 44)) !! Addresses(Span(0x2000_0000, 147)) + Addresses(Span(0x1001_0000, 56)) + Addresses(Span(0x1002_0000, 4))
  {
    SpansApart(0, 0x2000_0000, 147, low, 44);
    SpansApart(0, 0x1001_0000, 56, low, 44);
    SpansApart(0, 0x1002_0000, 4, low, 44);
    WordIsWrapped(low);
  }

  /** A host and a run with a call through a slot, as the nested-run theorem speaks of. */
  lemma SlotRunExists(w: Saved) returns (h: Host, a: Activation)
    ensures h.Valid() && h.InPlace(a.entry.s.mem) && Happen(h, w, a.entry.s, [a], a.exit.s)
  {
    hide SlotPlaced, StackFree, ObserverHonest, Addresses, Flat, SlotProgram, Handed, HandedBack, CodeAt, Load, Wrap, Run, MethodReturns;
    var k, env, natives, o, c := HookedSlotExists();
    h := Host([k], env, natives, o);
    var q := ReachMethod(k, env, natives, o, c);
    var r := ReturnedWith(k, AfterPop(c.s), q.s);
    var e := ReturnFromMethod(k, env, natives, o, r);
    a := Activation(0, c, q, r, e, []);
    assert h.slots[0] == k;
    assert Framed(h, a);
    BetweenSame(h, w, c.s, c.s);
    BetweenSame(h, w, q.s, r.s);
    BetweenSame(h, w, e.s, e.s);
    assert [a][0] == a && [a][1..] == [];
  }

  lemma BetweenSame(h: Host, w: Saved, s: State, t: State)
    requires t.mem == s.mem
    ensures h.Between(w, s, t) && Happen(h, w, s, [], t)
  {
    hide Host.CellsFor, Host.InPlace;
  }

  /** The method of the outer call, entered at `q`, calls the slot again. */
  lemma InnerEntry(k: Slot, s: State, q: State) returns (d: Config)
    requires ExampleSlot(k) && CodeAt(q.mem, k.base, Flat(SlotProgram(k)))
    ensures d.s.eip == k.base && d.s.regs.esp == 0x2FFF_FFF8 && d.s.regs.ecx != s.regs.ecx && Top(d.s) != Top(s)
    ensures CodeAt(d.s.mem, k.base, Flat(SlotProgram(k)))
    ensures forall w: Saved :: LoadWord(d.s.mem, Cell(k.cells, w.Offset())) == LoadWord(q.mem, Cell(k.cells, w.Offset()))
  {
    hide Flat, SlotProgram, Addresses, Load, Store, LE, CodeAt, IsPush, Cell;
    var ret: Word := if Top(s) == 0 then 1 else 0;
    var ecx: Word := if s.regs.ecx == 0 then 1 else 0;
    var m := StoreWord(q.mem, 0x2FFF_FFF8, ret);
    d := Config(State(q.regs.(esp := 0x2FFF_FFF8, ecx := ecx), q.flags, k.base, m), 0);
    LoadStoredWord(q.mem, 0x2FFF_FFF8, ret);
    StoreFrame(q.mem, 0x2FFF_FFF8, LE(ret));
    ExampleLength(k);
    SpansApart(0, 0x2000_0000, 147, 0x2FFF_FFF8, 4);
    SpansApart(0, 0x1001_0000, 56, 0x2FFF_FFF8, 4);
    CodeSpared(q.mem, m, k.base, Flat(SlotProgram(k)), Addresses(Span(0x2FFF_FFF8, 4)));
    AllCellsKept(q.mem, m, k, Addresses(Span(0x2FFF_FFF8, 4)));
  }

  /** The empty method: control is back in the trampoline with eight bytes popped. */
  function ReturnedWith(k: Slot, esp: Word, q: State): Config {
    Config(State(q.regs.(esp := Wrap(esp + 8)), 0, Wrap(k.base + RecordAt(PushLength(k))), q.mem), 0)
  }

  /** A run in which a method re-enters its own slot from another place, at another ESP and for another object. */
  lemma ReentryExists() returns (h: Host, a: Activation, b: Activation)
    ensures h.Valid() && h.InPlace(a.entry.s.mem)
    ensures forall w: Saved :: Happen(h, w, a.entry.s, [a], a.exit.s) && w.Of(b.entry.s) != w.Of(a.entry.s)
    ensures a.inner == [b] && b.slot == a.slot && b.inner == []
  {
    hide SlotPlaced, StackFree, ObserverHonest, Addresses, Flat, SlotProgram, Handed, HandedBack, CodeAt, Load, Wrap, Run, MethodReturns;
    var k, env, natives, o, c := HookedSlotExists();
    h := Host([k], env, natives, o);
    assert h.slots[0] == k;
    var q := ReachMethod(k, env, natives, o, c);
    var d := InnerEntry(k, c.s, q.s);
    InnerStack(k, env, natives);
    assert AfterPop(d.s) == 0x2FFF_FFFC && Wrap(0x2FFF_FFFC + 8) == 0x3000_0004 && AfterPop(c.s) == 0x3000_0004 by {
      WordIsWrapped(0x2FFF_FFFC);
      WordIsWrapped(0x3000_0004);
    }
    var q' := ReachMethod(k, env, natives, o, d);
    var r' := ReturnedWith(k, AfterPop(d.s), q'.s);
    var e' := ReturnFromMethod(k, env, natives, o, r');
    b := Activation(0, d, q', r', e', []);
    assert Framed(h, b);
    ExitReadsOwnCell(h, ReturnAddress, b);
    var r := ReturnedWith(k, AfterPop(c.s), e'.s);
    var e := ReturnFromMethod(k, env, natives, o, r);
    a := Activation(0, c, q, r, e, [b]);
    assert Framed(h, a);
    forall w: Saved ensures Happen(h, w, a.entry.s, [a], a.exit.s) && w.Of(b.entry.s) != w.Of(a.entry.s) {
      assert h.Between(w, q.s, d.s) by { assert h.CellsFor(w, q.s.mem) == h.CellsFor(w, d.s.mem); }
      NestedOnce(h, w, a, b);
      hide Top, AfterPop;
    }
  }

  /** One call inside another, with nothing done between them. */
  lemma NestedOnce(h: Host, w: Saved, a: Activation, b: Activation)
    requires Framed(h, a) && Framed(h, b) && a.inner == [b] && b.inner == []
    requires h.Between(w, a.handed.s, b.entry.s)
    requires b.returned.s.mem == b.handed.s.mem && a.returned.s.mem == b.exit.s.mem
    ensures Happen(h, w, a.entry.s, [a], a.exit.s)
  {
    hide Framed, Host.Between;
    BetweenSame(h, w, a.entry.s, a.entry.s);
    BetweenSame(h, w, b.handed.s, b.returned.s);
    BetweenSame(h, w, b.exit.s, a.returned.s);
    BetweenSame(h, w, a.exit.s, a.exit.s);
    assert [a][0] == a && [a][1..] == [] && [b][0] == b && [b][1..] == [];
  }

  lemma InnerStack(k: Slot, env: World, natives: iset<Word>)
    requires ExampleSlot(k) && env == World([], iset{}, 0) && natives == ExampleNatives()
    ensures StackFree(k, env, 0x2FFF_FFFC) && StackFree(k, env, 0x3000_0004)
    ensures Addresses(Span(0x2FFF_FFFC, 4 * MAX_ARGS)) !! CellsOf(k)
  {
    hide Flat, SlotProgram, IsPush, Addresses, ExampleNatives, In;
    SlotApart(k, env, natives);
    ExampleLength(k);
    SpansApart(0, 0x1001_0000, 56, 0x2FFF_FFFC, 32);
    StackApart(0x2FFF_FFD0);
  }
}
