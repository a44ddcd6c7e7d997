/** What a batch of patches amounts to, and that the patched program still means the same. */
module Installation {
  import opened Words
  import opened Machine
  import opened Decoder
  import opened Execution
  import opened Hooks
  import opened Trampoline
  import opened Simulation
  import opened Patch

  ghost function FootprintOf(h: Hook): iset<Word> {
    Addresses(SiteSpan(h)) + Addresses(TrampSpan(h))
  }

  ghost predicate Touched(hs: seq<Hook>, x: Word) {
    exists h :: h in hs && x in FootprintOf(h)
  }

  ghost function Footprint(hs: seq<Hook>): iset<Word> {
    iset x: Word | Touched(hs, x)
  }

  /** The allocation succeeded, and site and trampoline lie apart inside the address space. */
  ghost predicate Placed(h: Hook) {
    && |h.stolen| >= 5 && h.tramp != 0
    && h.site + |h.stolen| <= SIZE && h.tramp + 21 + |h.stolen| <= SIZE
    && Addresses(SiteSpan(h)) !! Addresses(TrampSpan(h))
  }

  ghost predicate Separate(hs: seq<Hook>) {
    && (forall i :: 0 <= i < |hs| ==> Placed(hs[i]))
    && (forall i, j :: 0 <= i < j < |hs| ==> FootprintOf(hs[i]) !! FootprintOf(hs[j]))
  }

  lemma OneInstalled(m: Memory, h: Hook)
    requires Placed(h)
    ensures Hooked(InstallOne(m, h), h)
    ensures AgreeOutside(m, InstallOne(m, h), FootprintOf(h))
  {
    hide Addresses, Store, TrampolineBytes, Branch, CodeAt;
    assert Overwrite(h) == SiteBytes(h);
    var m1 := Store(m, h.tramp, TrampolineBytes(h));
    var m2 := Store(m1, h.site, SiteBytes(h));
    StoredCode(m, h.tramp, TrampolineBytes(h));
    StoredCode(m1, h.site, SiteBytes(h));
    StoreFrame(m, h.tramp, TrampolineBytes(h));
    StoreFrame(m1, h.site, SiteBytes(h));
    CodeSpared(m1, m2, h.tramp, TrampolineBytes(h), Addresses(SiteSpan(h)));
    AgreeTrans(m, m1, m2, Addresses(TrampSpan(h)), Addresses(SiteSpan(h)), FootprintOf(h));
  }

  /** After the batch every entry is in place and nothing outside the entries' ranges has changed. */
  lemma {:induction false} BatchInstalled(m: Memory, hs: seq<Hook>)
    requires Separate(hs)
    ensures forall i :: 0 <= i < |hs| ==> Hooked(InstallAll(m, hs), hs[i])
    ensures AgreeOutside(m, InstallAll(m, hs), Footprint(hs))
    decreases |hs|
  {
    hide FootprintOf, InstallOne, Hooked, Placed;
    if hs != [] {
      var front, h := hs[..|hs| - 1], hs[|hs| - 1];
      var before := InstallAll(m, front);
      BatchInstalled(m, front);
      OneInstalled(before, h);
      forall i | 0 <= i < |front| ensures Hooked(InstallAll(m, hs), hs[i]) {
        assert front[i] == hs[i];
        StaysHooked(before, InstallOne(before, h), hs[i], FootprintOf(h));
      }
      forall x | x in Footprint(front) ensures x in Footprint(hs) {
        var g :| g in front && x in FootprintOf(g);
        assert g in hs;
      }
      assert h in hs;
      AgreeTrans(m, before, InstallAll(m, hs), Footprint(front), FootprintOf(h), Footprint(hs));
    }
  }

  lemma StaysHooked(m: Memory, m': Memory, h: Hook, t: iset<Word>)
    requires Hooked(m, h)
    requires AgreeOutside(m, m', t) && t !! FootprintOf(h)
    ensures Hooked(m', h)
  {
    hide Addresses, TrampolineBytes, SiteBytes, CodeAt;
    CodeSpared(m, m', h.site, SiteBytes(h), t);
    CodeSpared(m, m', h.tramp, TrampolineBytes(h), t);
  }

  lemma HookedDetermines(m: Memory, m': Memory, h: Hook, x: Word)
    requires Hooked(m, h) && Hooked(m', h) && Placed(h)
    requires x in FootprintOf(h)
    ensures m[x] == m'[x]
  {
    if In(x, SiteSpan(h)) {
      WrapInside(h.site, |h.stolen|, x);
      assert m[h.site..h.site + |h.stolen|][x - h.site] == m'[h.site..h.site + |h.stolen|][x - h.site];
    } else {
      WrapInside(h.tramp, 21 + |h.stolen|, x);
      assert m[h.tramp..h.tramp + 21 + |h.stolen|][x - h.tramp] == m'[h.tramp..h.tramp + 21 + |h.stolen|][x - h.tramp];
    }
  }

  /** The order of the table does not matter. */
  lemma OrderIrrelevant(m: Memory, hs: seq<Hook>, hs': seq<Hook>)
    requires Separate(hs) && Separate(hs')
    requires forall h :: h in hs <==> h in hs'
    ensures InstallAll(m, hs) == InstallAll(m, hs')
  {
    hide FootprintOf, InstallAll, Hooked, Placed;
    var r, r' := InstallAll(m, hs), InstallAll(m, hs');
    BatchInstalled(m, hs);
    BatchInstalled(m, hs');
    forall x | 0 <= x < SIZE ensures r[x] == r'[x] {
      assert Touched(hs, x) <==> Touched(hs', x);
      if Touched(hs, x) {
        var h :| h in hs && x in FootprintOf(h);
        HookedDetermines(r, r', h, x);
      } else {
        assert x !in Footprint(hs) && x !in Footprint(hs');
      }
    }
  }

  /** All hooks of a table are transparent together: patch a program with the batch installer and every
      well-behaved run of the original is a run of the patched one. */
  lemma InstalledProgramMeansTheSame(w: World, o: Oracle, s: State, n: nat) returns (k: nat)
    requires w.Valid() && w.Honest(o)
    requires Separate(w.hooks) && OriginalsIn(w, s.mem)
    requires Behaves(w, s, Taint(w.Guard(), false), n)
    ensures var start := Config(s.(mem := InstallAll(s.mem, w.hooks)), 0);
            var t := TaintAlong(w, s, Taint(w.Guard(), false), n);
            && Steps(s, n).Some? && Run(w.Callbacks(), o, start, k).Some?
            && Related(w, Steps(s, n).value, Run(w.Callbacks(), o, start, k).value.s, t)
  {
    var start := Config(s.(mem := InstallAll(s.mem, w.hooks)), 0);
    assert Related(w, s, start.s, Taint(w.Guard(), false)) by { InstalledIsRelated(w, s); }
    hide Related, Behaves, Run, Steps, TaintAlong;
    k := HookedProgramMeansTheSame(w, o, s, start, Taint(w.Guard(), false), n);
  }

  lemma InstalledIsRelated(w: World, s: State)
    requires w.Valid() && Separate(w.hooks) && OriginalsIn(w, s.mem)
    ensures Related(w, s, s.(mem := InstallAll(s.mem, w.hooks)), Taint(w.Guard(), false))
  {
    hide Addresses, InstallAll, Hooked, CodeAt;
    BatchInstalled(s.mem, w.hooks);
    forall x | x in Footprint(w.hooks) ensures x in w.Guard() {
      var h :| h in w.hooks && x in FootprintOf(h);
      GuardHolds(w, h);
    }
  }

  // --- tables of jmp hooks ---

  function EntrySpan(base: Word, e: JmpHookEntry): Span {
    Span(Wrap(base + e.offset), |e.stolen|)
  }

  function GrantSpan(e: JmpHookEntry, grant: Word): Span {
    Span(grant, 21 + |e.stolen|)
  }

  ghost function EntryFootprint(base: Word, e: JmpHookEntry, grant: Word): iset<Word> {
    Addresses(EntrySpan(base, e)) + Addresses(GrantSpan(e, grant))
  }

  /** Every allocation succeeded; all sites and all trampolines lie apart inside the address space. */
  ghost predicate EntriesApart(base: Word, es: seq<JmpHookEntry>, grants: seq<Word>)
    requires |grants| == |es|
  {
    && (forall i :: 0 <= i < |es| ==>
          && |es[i].stolen| >= 5 && grants[i] != 0
          && Wrap(base + es[i].offset) + |es[i].stolen| <= SIZE && grants[i] + 21 + |es[i].stolen| <= SIZE
          && Addresses(EntrySpan(base, es[i])) !! Addresses(GrantSpan(es[i], grants[i])))
    && (forall i, j :: 0 <= i < j < |es| ==>
          EntryFootprint(base, es[i], grants[i]) !! EntryFootprint(base, es[j], grants[j]))
  }

  /** What entry `i` asks for is in memory: the jump at its site, padded with NOPs, and the trampoline at its grant, with
      its own callback, its own stolen bytes and the way back to its own site. */
  lemma EntryInPlace(m: Memory, base: Word, es: seq<JmpHookEntry>, grants: seq<Word>, i: nat)
    requires |grants| == |es| && EntriesApart(base, es, grants) && i < |es|
    ensures var r, site, n, stolen := InstallAll(m, HooksOf(base, es, grants)), Wrap(base + es[i].offset), |es[i].stolen|, es[i].stolen;
            && CodeAt(r, site, Branch(0xE9, site, grants[i]) + Nops(n - 5))
            && CodeAt(r, grants[i], CallPart(es[i].callback) + RESTORE_PART + stolen +
                                    Branch(0xE9, grants[i] + 16 + n, Wrap(base + es[i].offset + n)))
  {
    hide Addresses, InstallAll, CodeAt, Branch, CallPart, Wrap;
    var hs := HooksOf(base, es, grants);
    assert Separate(hs) by {
      forall j, k | 0 <= j < k < |hs| ensures FootprintOf(hs[j]) !! FootprintOf(hs[k]) {
        assert FootprintOf(hs[j]) == EntryFootprint(base, es[j], grants[j]);
        assert FootprintOf(hs[k]) == EntryFootprint(base, es[k], grants[k]);
      }
    }
    BatchInstalled(m, hs);
    assert Hooked(InstallAll(m, hs), hs[i]);
    WrapShift(base + es[i].offset, |es[i].stolen|);
    WordIsWrapped(grants[i] + 16 + |es[i].stolen|);
  }

  /** In a process patched with a whole table, entry `i`'s site leads to entry `i`'s callback: six steps, the registers
      saved, their image as the argument, and the return address in the entry's own trampoline. */
  lemma EntryReachesCallback(m: Memory, base: Word, es: seq<JmpHookEntry>, grants: seq<Word>, i: nat, s: State)
    requires |grants| == |es| && EntriesApart(base, es, grants) && i < |es|
    requires s.mem == InstallAll(m, HooksOf(base, es, grants)) && s.eip == Wrap(base + es[i].offset)
    requires Addresses(Span(Wrap(s.regs.esp - 40), 40)) !! Addresses(GrantSpan(es[i], grants[i]))
    ensures Steps(s, 6).Some?
    ensures var q, esp := Steps(s, 6).value, s.regs.esp;
            && q.eip == es[i].callback && Top(q) == grants[i] + 12
            && q.regs == s.regs.(eax := es[i].callback, esp := Wrap(esp - 40)) && q.flags == s.flags
            && LoadWord(q.mem, Wrap(esp - 36)) == Wrap(esp - 32) && Load(q.mem, Wrap(esp - 32), 32) == RegsImage(s.regs)
            && AgreeOutside(s.mem, q.mem, Addresses(Span(Wrap(esp - 40), 40)))
  {
    hide Exec, Decode, Disassemble, Addresses, InstallAll, CodeAt, Branch, CallPart, Wrap, Step, Spares, FrameMemory, RegsImage, Load, EntriesApart;
    EntryInPlace(m, base, es, grants, i);
    EntryFits(base, es, grants, i);
    var site, n, cb, tramp := Wrap(base + es[i].offset), |es[i].stolen|, es[i].callback, grants[i];
    var jump := Branch(0xE9, site, tramp);
    var post := RESTORE_PART + es[i].stolen + Branch(0xE9, tramp + 16 + n, Wrap(base + es[i].offset + n));
    var s1 := s.(eip := tramp);
    assert [] + jump + Nops(n - 5) == jump + Nops(n - 5);
    CodePart(s.mem, site, [], jump, Nops(n - 5));
    JumpLands(s, site, tramp);
    CallDecodes(cb);
    PartInside(tramp, 21 + n, 0, 12);
    CallExec(cb, s1, Addresses(Span(tramp, 12)));
    assert [] + CallPart(cb) + post == CallPart(cb) + RESTORE_PART + es[i].stolen + Branch(0xE9, tramp + 16 + n, Wrap(base + es[i].offset + n));
    RunBare(s1, tramp, [], CallPart(cb), post, CallListing(cb));
    OneStep(s, s1);
    hide Steps;
    StepsAdd(s, s1, 5);
    FrameMemoryHolds(s.mem, s.regs.esp, RegsImage(s.regs), Wrap(tramp + 12));
    WordIsWrapped(tramp + 12);
  }

  lemma StepsAdd(s: State, s1: State, n: nat)
    requires Steps(s, 1) == Some(s1)
    ensures Steps(s, n + 1) == Steps(s1, n)
  {
    hide Step, Iterate;
    IterateAdd(Step, s, 1, n);
  }

  lemma EntryFits(base: Word, es: seq<JmpHookEntry>, grants: seq<Word>, i: nat)
    requires |grants| == |es| && EntriesApart(base, es, grants) && i < |es|
    ensures |es[i].stolen| >= 5 && grants[i] + 21 + |es[i].stolen| <= SIZE
    ensures Wrap(base + es[i].offset) + |es[i].stolen| <= SIZE
  {
  }

  /** Once a callback has returned into entry `i`'s trampoline, with the trampoline as it was, the registers are taken from
      the context and the next instruction is the first of the entry's stolen bytes; behind those, control goes back to
      the byte after the entry's site. */
  lemma EntryReturnsHome(m: Memory, base: Word, es: seq<JmpHookEntry>, grants: seq<Word>, i: nat, r: State, t: iset<Word>)
    requires |grants| == |es| && EntriesApart(base, es, grants) && i < |es|
    requires AgreeOutside(InstallAll(m, HooksOf(base, es, grants)), r.mem, t) && t !! Addresses(GrantSpan(es[i], grants[i]))
    ensures CodeAt(r.mem, grants[i] + 16, es[i].stolen)
    ensures r.eip == grants[i] + 12 ==>
              Steps(r, 2) == Some(State(RegsFromImage(Load(r.mem, Wrap(r.regs.esp + 4), 32), Wrap(r.regs.esp + 36)),
                                        AluFlags(Add, r.regs.esp, 4), grants[i] + 16, r.mem))
    ensures r.eip == grants[i] + 16 + |es[i].stolen| ==>
              Step(r) == Some(r.(eip := Wrap(base + es[i].offset + |es[i].stolen|)))
  {
    hide Exec, Decode, Disassemble, Addresses, InstallAll, CodeAt, Branch, CallPart, Wrap, Step, Spares, Load, EntriesApart, Steps;
    hide RegsFromImage, AluFlags;
    EntryInPlace(m, base, es, grants, i);
    EntryFits(base, es, grants, i);
    var n, cb, tramp := |es[i].stolen|, es[i].callback, grants[i];
    var back := Branch(0xE9, tramp + 16 + n, Wrap(base + es[i].offset + n));
    var code := CallPart(cb) + RESTORE_PART + es[i].stolen + back;
    CodeSpared(InstallAll(m, HooksOf(base, es, grants)), r.mem, tramp, code, t);
    assert code == (CallPart(cb) + RESTORE_PART) + es[i].stolen + back;
    CodePart(r.mem, tramp, CallPart(cb) + RESTORE_PART, es[i].stolen, back);
    assert code == (CallPart(cb) + RESTORE_PART + es[i].stolen) + back + [];
    CodePart(r.mem, tramp, CallPart(cb) + RESTORE_PART + es[i].stolen, back, []);
    if r.eip == tramp + 12 {
      assert code == CallPart(cb) + RESTORE_PART + (es[i].stolen + back);
      RestoreDecodes();
      RestoreExec(r, Addresses(Span(tramp + 12, 4)));
      RunBare(r, tramp, CallPart(cb), RESTORE_PART, es[i].stolen + back, RESTORE_LISTING);
      WordIsWrapped(tramp + 16);
    }
    if r.eip == tramp + 16 + n {
      JumpLands(r, tramp + 16 + n, Wrap(base + es[i].offset + n));
    }
  }

  // --- call hooks ---

  function CallSite(base: Word, e: CallHookEntry): Word {
    Wrap(base + e.offset)
  }

  function CallSpan(base: Word, e: CallHookEntry): Span {
    Span(CallSite(base, e), 5)
  }

  ghost predicate CallTouched(base: Word, es: seq<CallHookEntry>, x: Word) {
    exists e :: e in es && In(x, CallSpan(base, e))
  }

  /** The bytes a table of call hooks may change. */
  ghost function CallFootprint(base: Word, es: seq<CallHookEntry>): iset<Word> {
    iset x: Word | CallTouched(base, es, x)
  }

  /** The sites lie inside the address space and apart from each other. */
  ghost predicate CallsApart(base: Word, es: seq<CallHookEntry>) {
    && (forall i :: 0 <= i < |es| ==> CallSite(base, es[i]) + 5 <= SIZE)
    && (forall i, j :: 0 <= i < j < |es| ==> Addresses(CallSpan(base, es[i])) !! Addresses(CallSpan(base, es[j])))
  }

  ghost predicate CallInPlace(m: Memory, base: Word, e: CallHookEntry) {
    CodeAt(m, CallSite(base, e), Branch(0xE8, CallSite(base, e), e.target))
  }

  lemma {:induction false} CallsKeepTheRest(m: Memory, base: Word, es: seq<CallHookEntry>)
    ensures AgreeOutside(m, CallsInstalled(m, base, es), CallFootprint(base, es))
    decreases |es|
  {
    hide Store, Branch, Wrap, In;
    if es != [] {
      var front, e := es[..|es| - 1], es[|es| - 1];
      var site := CallSite(base, e);
      CallsKeepTheRest(m, base, front);
      StoreFrame(CallsInstalled(m, base, front), site, Branch(0xE8, site, e.target));
      assert es == front + [e] && forall g :: g in es <==> g in front || g == e;
      assert forall x: Word :: CallTouched(base, front, x) || In(x, CallSpan(base, e)) ==> CallTouched(base, es, x);
    }
  }

  /** After the batch every call site holds its call. */
  lemma {:induction false} CallsInPlace(m: Memory, base: Word, es: seq<CallHookEntry>)
    requires CallsApart(base, es)
    ensures forall i :: 0 <= i < |es| ==> CallInPlace(CallsInstalled(m, base, es), base, es[i])
    decreases |es|
  {
    hide Store, Branch, CallSite, CodeAt, Addresses;
    if es != [] {
      var front, e := es[..|es| - 1], es[|es| - 1];
      var before, site := CallsInstalled(m, base, front), CallSite(base, e);
      CallsInPlace(m, base, front);
      LastCall(m, base, es);
      StoredCode(before, site, Branch(0xE8, site, e.target));
      StoreFrame(before, site, Branch(0xE8, site, e.target));
      forall i | 0 <= i < |front| ensures CallInPlace(CallsInstalled(m, base, es), base, es[i]) {
        assert front[i] == es[i];
        var other := CallSite(base, es[i]);
        CodeSpared(before, CallsInstalled(m, base, es), other, Branch(0xE8, other, es[i].target), Addresses(CallSpan(base, e)));
      }
    }
  }

  lemma LastCall(m: Memory, base: Word, es: seq<CallHookEntry>)
    requires es != []
    ensures var e := es[|es| - 1];
            CallsInstalled(m, base, es) ==
            Store(CallsInstalled(m, base, es[..|es| - 1]), CallSite(base, e), Branch(0xE8, CallSite(base, e), e.target))
  {
    hide Store, Branch, Wrap, LE;
  }

  lemma CallDetermines(m: Memory, m': Memory, base: Word, e: CallHookEntry, x: Word)
    requires CallInPlace(m, base, e) && CallInPlace(m', base, e) && In(x, CallSpan(base, e))
    ensures m[x] == m'[x]
  {
    hide Branch, CallSite;
    var site := CallSite(base, e);
    WrapInside(site, 5, x);
    assert m[site..site + 5][x - site] == m'[site..site + 5][x - site];
  }

  /** The order of the table does not matter. */
  lemma CallOrderIrrelevant(m: Memory, base: Word, es: seq<CallHookEntry>, es': seq<CallHookEntry>)
    requires CallsApart(base, es) && CallsApart(base, es') && forall e :: e in es <==> e in es'
    ensures CallsInstalled(m, base, es) == CallsInstalled(m, base, es')
  {
    hide CallSite, CallsInstalled, CallInPlace, In, CallsApart;
    var r, r' := CallsInstalled(m, base, es), CallsInstalled(m, base, es');
    CallsInPlace(m, base, es);
    CallsInPlace(m, base, es');
    CallsKeepTheRest(m, base, es);
    CallsKeepTheRest(m, base, es');
    forall x | 0 <= x < SIZE ensures r[x] == r'[x] {
      assert CallTouched(base, es, x) <==> CallTouched(base, es', x);
      if CallTouched(base, es, x) {
        var e :| e in es && In(x, CallSpan(base, e));
        CallDetermines(r, r', base, e, x);
      } else {
        assert x !in CallFootprint(base, es) && x !in CallFootprint(base, es');
      }
    }
  }

  /** In a process patched with a whole table, every entry's site calls its replacement, with the return address and
      the registers of the original call. */
  lemma CallSiteRedirected(m: Memory, base: Word, es: seq<CallHookEntry>, i: nat, s: State)
    requires CallsApart(base, es) && i < |es|
    requires s.mem == CallsInstalled(m, base, es) && s.eip == CallSite(base, es[i])
    ensures Step(s).Some?
    ensures var t := Step(s).value;
            && t.eip == es[i].target
            && t.regs == s.regs.(esp := Wrap(s.regs.esp - 4))
            && Top(t) == Wrap(CallSite(base, es[i]) + 5)
  {
    hide Store, CodeAt, Wrap, Branch, Encodes, Load, Step, Exec, CallSite, CallsInstalled, CallsApart;
    CallsInPlace(m, base, es);
    var e, site: int := es[i], CallSite(base, es[i]);
    assert CallInPlace(s.mem, base, e);
    var rel := Wrap(e.target - (site + 5));
    BranchEncodes(site, e.target);
    StepOver(s, Branch(0xE8, site, e.target), CallRel(rel));
    CallRelIs(rel, s);
    LoadStoredWord(s.mem, Wrap(s.regs.esp - 4), Wrap(site + 5));
    WrapShift(site + 5, rel);
    WrapShift(e.target - (site + 5), site + 5);
    WordIsWrapped(e.target);
  }

  // --- NOP patches ---

  function NopSpan(base: Word, e: NopPatchEntry): Span {
    Span(Wrap(base + e.offset), e.count)
  }

  ghost predicate NopTouched(base: Word, es: seq<NopPatchEntry>, x: Word) {
    exists e :: e in es && In(x, NopSpan(base, e))
  }

  /** The bytes a table of NOP patches may change. */
  ghost function NopFootprint(base: Word, es: seq<NopPatchEntry>): iset<Word> {
    iset x: Word | NopTouched(base, es, x)
  }

  /** After the batch every byte of every range is 90, however the ranges overlap, and every other byte is as it was. */
  lemma {:induction false} NopsInPlace(m: Memory, base: Word, es: seq<NopPatchEntry>)
    ensures forall x: Word :: NopsInstalled(m, base, es)[x] == if NopTouched(base, es, x) then 0x90 else m[x]
    decreases |es|
  {
    hide Wrap, In, Store;
    if es != [] {
      var front, e := es[..|es| - 1], es[|es| - 1];
      NopsInPlace(m, base, front);
      assert es == front + [e] && forall g :: g in es <==> g in front || g == e;
      forall x: Word
        ensures NopsInstalled(m, base, es)[x] == if NopTouched(base, es, x) then 0x90 else m[x]
      {
        assert NopTouched(base, es, x) <==> NopTouched(base, front, x) || In(x, NopSpan(base, e));
        NopStored(NopsInstalled(m, base, front), NopSpan(base, e), x);
      }
    }
  }

  lemma NopStored(m: Memory, sp: Span, x: Word)
    ensures Store(m, sp.start, Nops(sp.count))[x] == if In(x, sp) then 0x90 else m[x]
  {
  }

  lemma NopsKeepTheRest(m: Memory, base: Word, es: seq<NopPatchEntry>)
    ensures AgreeOutside(m, NopsInstalled(m, base, es), NopFootprint(base, es))
  {
    NopsInPlace(m, base, es);
    hide NopsInstalled, NopTouched;
  }

  /** Neither the order of the table matters, nor how it divides the ranges. */
  lemma NopOrderIrrelevant(m: Memory, base: Word, es: seq<NopPatchEntry>, es': seq<NopPatchEntry>)
    requires NopFootprint(base, es) == NopFootprint(base, es')
    ensures NopsInstalled(m, base, es) == NopsInstalled(m, base, es')
  {
    hide NopsInstalled, NopTouched;
    NopsInPlace(m, base, es);
    NopsInPlace(m, base, es');
    forall x | 0 <= x < SIZE ensures NopsInstalled(m, base, es)[x] == NopsInstalled(m, base, es')[x] {
      assert x in NopFootprint(base, es) <==> x in NopFootprint(base, es');
    }
  }

  lemma NopStep(s: State, a: Word, count: nat, k: nat)
    requires CodeAt(s.mem, a, Nops(count)) && a + count < SIZE && k < count && s.eip == a + k
    ensures Step(s) == Some(s.(eip := a + k + 1))
  {
    hide CodeAt, Store, Addresses;
    assert Encodes([0x90], Nop);
    DecodeLocal([0x90], Nops(count)[k..]);
    FetchCode(s.mem, a, Nops(count), k);
  }

  lemma {:induction false} NopsWalked(s: State, a: Word, count: nat, k: nat)
    requires CodeAt(s.mem, a, Nops(count)) && a + count < SIZE
    requires k <= count && s.eip == a + k
    ensures Steps(s, count - k) == Some(s.(eip := a + count))
    decreases count - k
  {
    hide Store, CodeAt, Step;
    if k < count {
      var s' := s.(eip := a + k + 1);
      NopStep(s, a, count, k);
      NopsWalked(s', a, count, k + 1);
      OneStep(s, s');
      hide Iterate;
      IterateAdd(Step, s, 1, count - k - 1);
    }
  }

  /** In a process patched with a whole table, each entry's range is walked through, from any byte of it, with no
      effect but on EIP. */
  lemma NopsFallThrough(m: Memory, base: Word, es: seq<NopPatchEntry>, i: nat, s: State, k: nat)
    requires i < |es| && Wrap(base + es[i].offset) + es[i].count < SIZE && k <= es[i].count
    requires s.mem == NopsInstalled(m, base, es) && s.eip == Wrap(base + es[i].offset) + k
    ensures Steps(s, es[i].count - k) == Some(s.(eip := Wrap(base + es[i].offset) + es[i].count))
  {
    hide NopsInstalled, Wrap, Steps;
    var a, n := Wrap(base + es[i].offset), es[i].count;
    NopsInPlace(m, base, es);
    forall j | 0 <= j < n ensures s.mem[a..a + n][j] == Nops(n)[j] {
      InRange(a, n, j);
      assert es[i] in es && In(a + j, NopSpan(base, es[i]));
      assert s.mem[a..a + n][j] == s.mem[a + j];
    }
    assert s.mem[a..a + n] == Nops(n);
    NopsWalked(s, a, n, k);
  }

  lemma InRange(a: Word, n: nat, j: nat)
    requires a + n <= SIZE && j < n
    ensures In(a + j, Span(a, n))
  {
  }

  // --- an allocation that fails ---

  /** What an entry writes: its site, and its trampoline unless the allocation failed. */
  ghost function WrittenBy(h: Hook): iset<Word> {
    Addresses(Span(h.site, |Overwrite(h)|)) + if h.tramp == 0 then iset{} else Addresses(TrampSpan(h))
  }

  /** Each entry's jump lies inside the address space and is not written by another entry. */
  ghost predicate JumpsApart(hs: seq<Hook>) {
    && (forall i :: 0 <= i < |hs| ==> hs[i].site + |Overwrite(hs[i])| <= SIZE)
    && (forall i, j :: 0 <= i < |hs| && 0 <= j < |hs| && i != j ==> Addresses(Span(hs[i].site, 5)) !! WrittenBy(hs[j]))
  }

  lemma OneWrites(m: Memory, h: Hook)
    requires h.site + |Overwrite(h)| <= SIZE
    ensures AgreeOutside(m, InstallOne(m, h), WrittenBy(h))
    ensures CodeAt(InstallOne(m, h), h.site, Branch(0xE9, h.site, h.tramp))
  {
    hide Store, CodeAt, Wrap, Branch, TrampolineBytes, Addresses;
    var code, withTramp := Branch(0xE9, h.site, h.tramp), if h.tramp == 0 then m else Store(m, h.tramp, TrampolineBytes(h));
    StoredCode(withTramp, h.site, Overwrite(h));
    assert [] + code + Overwrite(h)[5..] == Overwrite(h);
    CodePart(InstallOne(m, h), h.site, [], code, Overwrite(h)[5..]);
    StoreFrame(m, h.tramp, TrampolineBytes(h));
    StoreFrame(withTramp, h.site, Overwrite(h));
  }

  /** After the batch every site holds the jump to what the allocation answered, failed entries included. */
  lemma {:induction false} JumpsInPlace(m: Memory, hs: seq<Hook>)
    requires JumpsApart(hs)
    ensures forall i :: 0 <= i < |hs| ==> CodeAt(InstallAll(m, hs), hs[i].site, Branch(0xE9, hs[i].site, hs[i].tramp))
    decreases |hs|
  {
    hide InstallOne, CodeAt, Branch, Addresses, Overwrite, WrittenBy;
    if hs != [] {
      var front, h := hs[..|hs| - 1], hs[|hs| - 1];
      JumpsInPlace(m, front);
      OneWrites(InstallAll(m, front), h);
      forall i | 0 <= i < |front| ensures CodeAt(InstallAll(m, hs), hs[i].site, Branch(0xE9, hs[i].site, hs[i].tramp)) {
        assert front[i] == hs[i];
        CodeSpared(InstallAll(m, front), InstallAll(m, hs), hs[i].site, Branch(0xE9, hs[i].site, hs[i].tramp), WrittenBy(h));
      }
    }
  }

  /** The installer does not look at VirtualAlloc's answer: in a process patched with a whole table, the site of a failed
      entry jumps to the null page, any other entry's to its trampoline. */
  lemma SiteJumpsToGrant(m: Memory, base: Word, es: seq<JmpHookEntry>, grants: seq<Word>, i: nat, s: State)
    requires |grants| == |es| && JumpsApart(HooksOf(base, es, grants)) && i < |es|
    requires s.mem == InstallAll(m, HooksOf(base, es, grants)) && s.eip == Wrap(base + es[i].offset)
    ensures Step(s) == Some(s.(eip := grants[i]))
  {
    var hs := HooksOf(base, es, grants);
    assert hs[i] == HookOf(base, es[i], grants[i]);
    hide InstallAll, Step, CodeAt, Branch, WrittenBy, Addresses, HooksOf, JumpsApart, Wrap, Overwrite;
    JumpInside(hs, i);
    JumpsInPlace(m, hs);
    JumpLands(s, hs[i].site, hs[i].tramp);
  }

  lemma JumpInside(hs: seq<Hook>, i: nat)
    requires JumpsApart(hs) && i < |hs|
    ensures hs[i].site + 5 <= SIZE
  {
    hide WrittenBy, Addresses, Branch;
  }
}
