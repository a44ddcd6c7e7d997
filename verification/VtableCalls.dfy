/** From a replaced word of a vtable to the method that was there: the installer, the emitted trampolines and the machine
    put together. */
module VtableCalls {
  import opened Words
  import opened Machine
  import opened Decoder
  import opened Execution
  import opened Assembler
  import opened Hooks
  import opened ObserverCall
  import opened SlotCapture
  import opened SlotPlaces
  import opened VtableTrampoline
  import opened SlotForwarding
  import opened VtableInstall

  /** The statics of the DLL: g_slot, g_sub_slot, g_real_vt, g_real_sub and the four observers. */
  datatype Statics = Statics(slots: Word, subSlots: Word, realVt: Word, realSub: Word,
                             before: Word, after: Word, subBefore: Word, subAfter: Word)

  /** sizeof(SlotState) */
  const SLOT_STATE := 900

  /** The trampoline that is emitted for a slot into the page allocated for it. */
  function SlotAt(y: Statics, p: Place, page: Word): Slot {
    match p
    case MainSlot(i) => Slot(page, Wrap(y.slots + SLOT_STATE * i), Wrap(y.realVt + 4 * i), y.before, y.after, p)
    case SubSlot(sub, i) =>
      var k := SUB_SLOTS * sub + i;
      Slot(page, Wrap(y.subSlots + SLOT_STATE * k), Wrap(y.realSub + 4 * k), y.subBefore, y.subAfter, p)
  }

  /** The machine's memory holds what the installer left: the words of the vtables, every trampoline on its page, and the
      saved methods in g_real_vt and g_real_sub. */
  ghost predicate Installed(m: Memory, y: Statics, now: Dwords, pages: seq<Word>, target: map<nat, Word>)
    requires |pages| == TRAMPOLINES
  {
    && (forall i :: 0 <= i < DWORDS ==> LoadWord(m, 4 * i) == now[i])
    && (forall p: Place :: pages[IdOf(p)] != 0 ==>
          CodeAt(m, pages[IdOf(p)], Flat(SlotProgram(SlotAt(y, p, pages[IdOf(p)])))))
    && (forall p: Place :: IdOf(p) in target ==> LoadWord(m, SlotAt(y, p, pages[IdOf(p)]).methodCell) == target[IdOf(p)])
  }

  /** A virtual call through a replaced word: the observer is told the number of the slot the word belongs to, and then the
      method that stood in the word is entered, with the caller's registers, flags and stack. */
  lemma ReplacedWordCallsOriginal(m: Memory, y: Statics, now: Dwords, orig: Dwords, pages: seq<Word>, target: map<nat, Word>,
                                  owner: Owners, i: nat, p: Place, env: World, natives: iset<Word>, o: Oracle, c: Config)
    returns (first: Config, q: Config)
    requires |pages| == TRAMPOLINES && WrappedOnce(now, orig, pages, target, owner) && i in owner && owner[i] == IdOf(p)
    requires Installed(m, y, now, pages, target) && c.s.mem == m && c.s.eip == LoadWord(m, 4 * i)
    requires var k := SlotAt(y, p, pages[IdOf(p)]);
             && SlotPlaced(k, env, natives) && StackFree(k, env, AfterPop(c.s)) && ObserverHonest(env, o, k.before)
             && Addresses(Span(AfterPop(c.s), 4 * MAX_ARGS)) !! CellsOf(k)
    ensures var k := SlotAt(y, p, pages[IdOf(p)]);
            && Run(natives, o, c, 24) == Some(first) && EnteredFor(p, first.s, k.before, Wrap(k.base + 96 + PushLength(k)))
            && Run(natives, o, c, 30) == Some(q) && Handed(k, env, c.s, q.s) && q.s.eip == orig[i]
  {
    hide Flat, SlotProgram, CodeAt, Run, Load, Addresses, SlotPlaced, StackFree, ObserverHonest, Handed, EnteredFor;
    var k := SlotAt(y, p, pages[IdOf(p)]);
    assert pages[IdOf(p)] != 0 && IdOf(p) in target && now[i] == pages[IdOf(p)] && target[IdOf(p)] == orig[i];
    assert c.s.eip == k.base && k.place == p;
    first := FirstObserverEntered(k, env, natives, o, c);
    q := ReachMethod(k, env, natives, o, c);
    HandedTo(k, env, c.s, q.s);
  }

  lemma HandedTo(k: Slot, env: World, s: State, q: State)
    requires Handed(k, env, s, q)
    ensures q.eip == LoadWord(s.mem, k.methodCell)
  {
    hide Addresses, Load, Flat, SlotProgram, ArgsKept, CellIs;
  }

  /** Word `s` of the main vtable belongs to main slot `s`, word `s` of a sub-vtable to that sub-object's slot `s`. */
  lemma WordsBelongToTheirSlots(owner: Owners, pages: seq<Word>, vtable: Word, subVt: Word, sub: nat, stop: nat, s: nat)
    requires |pages| == TRAMPOLINES && sub < NUM_SUBS && stop <= SUB_SLOTS
    requires Owned(owner, vtable, pages, 0, NUM_SLOTS) && Owned(owner, subVt, pages, SubId(sub, 0), stop)
    ensures s < NUM_SLOTS && pages[IdOf(MainSlot(s))] != 0 ==>
              Index(vtable, s) in owner && owner[Index(vtable, s)] == IdOf(MainSlot(s))
    ensures s < stop && pages[IdOf(SubSlot(sub, s))] != 0 ==>
              Index(subVt, s) in owner && owner[Index(subVt, s)] == IdOf(SubSlot(sub, s))
  {
    hide Index;
  }
}
