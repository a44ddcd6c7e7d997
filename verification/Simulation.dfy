/** Whole programs: the hooked process does what the unhooked one does, however many hooks it passes. */
module Simulation {
  import opened Words
  import opened Machine
  import opened Decoder
  import opened Execution
  import opened Hooks
  import opened Transparency

  function ListingOf(h: Hook): (l: seq<Fetched>)
    requires Disassemble(h.stolen).Some? && h.stolen != []
    ensures l != []
  {
    Disassemble(h.stolen).value
  }

  ghost predicate HooksIn(w: World, m: Memory) {
    forall i :: 0 <= i < |w.hooks| ==> Hooked(m, w.hooks[i])
  }

  ghost predicate OriginalsIn(w: World, m: Memory) {
    forall i :: 0 <= i < |w.hooks| ==> CodeAt(m, w.hooks[i].site, w.hooks[i].stolen)
  }

  /** The unhooked state `u` and the hooked state `p` differ in the taint only. */
  ghost predicate Related(w: World, u: State, p: State, t: Taint) {
    && u.eip == p.eip
    && SameUpTo(u, p, t)
    && w.Guard() <= t.bytes
    && HooksIn(w, p.mem)
    && OriginalsIn(w, u.mem)
  }

  /** Passing a hook taints the status flags and the dead stack the trampoline used. */
  ghost function HookTaint(w: World, u: State, t: Taint): Taint {
    Taint(t.bytes + Addresses(w.Scratch(u.regs.esp)), true)
  }

  ghost predicate AtHook(w: World, a: Word) {
    exists i :: 0 <= i < |w.hooks| && w.hooks[i].site == a
  }

  ghost function HookAt(w: World, a: Word): (h: Hook)
    requires AtHook(w, a)
    ensures h in w.hooks && h.site == a
  {
    var i :| 0 <= i < |w.hooks| && w.hooks[i].site == a;
    w.hooks[i]
  }

  /** `n` unhooked steps from `u` in which no tainted byte or flag is read, no guarded byte is written,
      stack is left for the callbacks, and stolen bytes are entered only at their beginning. */
  ghost predicate Behaves(w: World, u: State, t: Taint, n: nat)
    requires w.Valid()
    decreases n
  {
    n == 0 ||
    if AtHook(w, u.eip) then
      var h := HookAt(w, u.eip);
      assert w.HookFits(h);
      var l := ListingOf(h);
      && |l| <= n
      && Addresses(w.Scratch(u.regs.esp)) !! w.Guard()
      && AllQuiet(l, u, HookTaint(w, u, t), w.Guard())
      && Behaves(w, ExecAll(l, u), TaintAfterAll(l, u, HookTaint(w, u, t)), n - |l|)
    else
      var f := Fetch(u.mem, u.eip);
      && f.Some?
      && Addresses(Span(u.eip, f.value.len)) !! t.bytes
      && Quiet(f.value.insn, u, t, w.Guard())
      && Behaves(w, Exec(f.value, u), TaintAfter(f.value.insn, u, t), n - 1)
  }

  /** The taint after those `n` steps. */
  ghost function TaintAlong(w: World, u: State, t: Taint, n: nat): Taint
    requires w.Valid()
    decreases n
  {
    if n == 0 then t
    else if AtHook(w, u.eip) then
      var h := HookAt(w, u.eip);
      assert w.HookFits(h);
      var l := ListingOf(h);
      if |l| > n then t
      else TaintAlong(w, ExecAll(l, u), TaintAfterAll(l, u, HookTaint(w, u, t)), n - |l|)
    else
      var f := Fetch(u.mem, u.eip);
      if f.None? then t
      else TaintAlong(w, Exec(f.value, u), TaintAfter(f.value.insn, u, t), n - 1)
  }

  lemma GuardHolds(w: World, h: Hook)
    requires w.Valid() && h in w.hooks
    ensures w.HookFits(h) && w.IsCallback(h.callback)
    ensures Addresses(SiteSpan(h)) <= w.Guard() && Addresses(TrampSpan(h)) <= w.Guard() && w.own <= w.Guard()
  {
    var i :| 0 <= i < |w.hooks| && w.hooks[i] == h;
  }

  /** Code that keeps off the guard leaves every hook, and every original, in place. */
  lemma CodeStays(w: World, m: Memory, m': Memory)
    requires w.Valid()
    requires forall x :: x in w.Guard() && x !in w.own ==> m[x] == m'[x]
    ensures HooksIn(w, m) ==> HooksIn(w, m')
    ensures OriginalsIn(w, m) ==> OriginalsIn(w, m')
  {
    hide Addresses, SiteBytes, TrampolineBytes, CodeAt;
    forall i | 0 <= i < |w.hooks|
      ensures Hooked(m, w.hooks[i]) ==> Hooked(m', w.hooks[i])
      ensures CodeAt(m, w.hooks[i].site, w.hooks[i].stolen) ==> CodeAt(m', w.hooks[i].site, w.hooks[i].stolen)
    {
      var h := w.hooks[i];
      GuardHolds(w, h);
      SpanStays(w, m, m', SiteSpan(h));
      SpanStays(w, m, m', TrampSpan(h));
      if |h.stolen| >= 5 && CodeAt(m, h.site, SiteBytes(h)) { CodeKept(m, m', h.site, SiteBytes(h)); }
      if CodeAt(m, h.tramp, TrampolineBytes(h)) { CodeKept(m, m', h.tramp, TrampolineBytes(h)); }
      if CodeAt(m, h.site, h.stolen) { CodeKept(m, m', h.site, h.stolen); }
    }
  }

  lemma SpanStays(w: World, m: Memory, m': Memory, sp: Span)
    requires Addresses(sp) <= w.Guard() && Addresses(sp) !! w.own
    requires forall x :: x in w.Guard() && x !in w.own ==> m[x] == m'[x]
    ensures forall x: Word :: In(x, sp) ==> m[x] == m'[x]
  {
    forall x: Word | In(x, sp) ensures m[x] == m'[x] {
      assert x in Addresses(sp);
    }
  }

  lemma StepsStraight(h: Hook, u: State, l: seq<Fetched>)
    requires CodeAt(u.mem, h.site, h.stolen) && u.eip == h.site
    requires Disassemble(h.stolen) == Some(l) && StraightLine(l)
    requires Spares(l, u, Addresses(SiteSpan(h)))
    ensures Steps(u, |l|) == Some(ExecAll(l, u))
  {
    hide Exec, Decode, Run, Steps, Addresses, Disassemble, Spares;
    assert [] + h.stolen + [] == h.stolen;
    RunBare(u, h.site, [], h.stolen, [], l);
  }

  /** The number of steps the hooked process takes for one passage of a hook. */
  function PassageLength(l: seq<Fetched>): nat
    requires l != []
  {
    9 + |l| + if Leaves(l[|l| - 1].insn) then 0 else 1
  }

  /** The replayed bytes and the jump back do in the trampoline what the original bytes do at the site. */
  lemma FinishPassage(w: World, o: Oracle, h: Hook, u: State, d: Config, t: Taint)
    requires w.Valid() && h in w.hooks && w.HookFits(h)
    requires u.eip == h.site && d.s.eip == Wrap(h.tramp + PROLOGUE)
    requires CodeAt(d.s.mem, h.tramp, TrampolineBytes(h))
    requires SameUpTo(u, d.s, t) && AllQuiet(ListingOf(h), u, t, w.Guard())
    ensures var l := ListingOf(h);
            var e := Run(w.Callbacks(), o, d, PassageLength(l) - 9);
            && e.Some?
            && SameUpTo(ExecAll(l, u), e.value.s, TaintAfterAll(l, u, t))
            && e.value.s.eip == ExecAll(l, u).eip
            && e.value.s.mem == ExecAll(l, d.s).mem
            && Spares(l, u, w.Guard()) && Spares(l, d.s, w.Guard())
  {
    hide Exec, Decode, Run, Addresses, Disassemble, Spares, AllQuiet, TaintAfterAll, ExecAll, CallPart, Branch, Wrap,
         Leaves;
    var l, n := ListingOf(h), |h.stolen|;
    ReplayAgree(l, u, d.s, t, w.Guard());
    GuardHolds(w, h);
    WordIsWrapped(h.tramp + 16);
    WordIsWrapped(h.tramp + 16 + n);
    PartInside(h.tramp, 21 + n, 16, n);
    SparesLess(l, d.s, w.Guard(), Addresses(Span(h.tramp + 16, n)));
    var pre, back := CallPart(h.callback) + RESTORE_PART, Branch(0xE9, h.tramp + 16 + n, ReturnAddress(h));
    assert pre + h.stolen + back == TrampolineBytes(h);
    RunPart(w, o, d, h.tramp, pre, h.stolen, back, l);
    var e := Config(ExecAll(l, d.s), d.clock + |l|);
    if !Leaves(l[|l| - 1].insn) {
      FallsThrough(h.stolen, l, u);
      FallsThrough(h.stolen, l, d.s);
      RegionKept(l, d.s, w.Guard());
      CodeKeptIn(d.s.mem, e.s.mem, h.tramp, TrampolineBytes(h), w.Guard());
      assert pre + h.stolen + back + [] == TrampolineBytes(h);
      RunBranch(w, o, e, h.tramp, pre + h.stolen, ReturnAddress(h), []);
      RunAdd(w.Callbacks(), o, d, |l|, 1);
    }
  }

  /** One hook passed: the hooked process catches up with the unhooked one. */
  lemma PassHook(w: World, o: Oracle, h: Hook, u: State, p: Config, t: Taint)
    requires w.Valid() && w.Honest(o) && h in w.hooks && w.HookFits(h)
    requires Related(w, u, p.s, t) && u.eip == h.site
    requires Addresses(w.Scratch(u.regs.esp)) !! w.Guard()
    requires AllQuiet(ListingOf(h), u, HookTaint(w, u, t), w.Guard())
    ensures var l := ListingOf(h);
            var e := Run(w.Callbacks(), o, p, PassageLength(l));
            && e.Some?
            && Related(w, ExecAll(l, u), e.value.s, TaintAfterAll(l, u, HookTaint(w, u, t)))
            && Steps(u, |l|) == Some(ExecAll(l, u))
  {
    hide Exec, Decode, Run, Steps, Addresses, Disassemble, Spares, AllQuiet, TaintAfterAll, ExecAll, CodeAt;
    var l, t' := ListingOf(h), HookTaint(w, u, t);
    GuardHolds(w, h);
    var d := EnterStolen(w, o, h, p);
    assert SameUpTo(u, d.s, t');
    FinishPassage(w, o, h, u, d, t');
    RunAdd(w.Callbacks(), o, p, 9, PassageLength(l) - 9);
    var e := Run(w.Callbacks(), o, p, PassageLength(l)).value;
    RegionKept(l, u, w.Guard());
    RegionKept(l, d.s, w.Guard());
    CodeStays(w, u.mem, ExecAll(l, u).mem);
    CodeStays(w, p.s.mem, e.s.mem);
    TaintKeepsGuard(l, u, t', w.Guard());
    SparesLess(l, u, w.Guard(), Addresses(SiteSpan(h)));
    StepsStraight(h, u, l);
  }

  lemma {:induction false} TaintKeepsGuard(l: seq<Fetched>, u: State, t: Taint, guard: iset<Word>)
    requires guard <= t.bytes && AllQuiet(l, u, t, guard)
    ensures guard <= TaintAfterAll(l, u, t).bytes
    decreases |l|
  {
    hide Exec, Writes, Reads;
    if l != [] {
      TaintKeepsGuard(l[1..], Exec(l[0], u), TaintAfter(l[0].insn, u, t), guard);
    }
  }

  /** One instruction away from any hook. */
  lemma PlainStep(w: World, o: Oracle, u: State, p: Config, t: Taint, f: Fetched)
    requires w.Valid() && Related(w, u, p.s, t)
    requires Fetch(u.mem, u.eip) == Some(f)
    requires Addresses(Span(u.eip, f.len)) !! t.bytes
    requires Quiet(f.insn, u, t, w.Guard())
    ensures var e := Run(w.Callbacks(), o, p, 1);
            && e.Some?
            && Related(w, Exec(f, u), e.value.s, TaintAfter(f.insn, u, t))
    ensures Step(u) == Some(Exec(f, u))
  {
    FetchSame(w, u, p.s, t, f);
    assert Step(u) == Some(Exec(f, u)) && Step(p.s) == Some(Exec(f, p.s));
    hide Exec, Decode, Step, Writes, Reads, Fetch;
    RunOne(w.Callbacks(), o, p);
    ExecAgree(f, u, p.s, t.bytes, t.flags);
    WritesByRegs(f.insn, u, p.s);
    ExecFrame(f, u);
    ExecFrame(f, p.s);
    CodeStays(w, u.mem, Exec(f, u).mem);
    CodeStays(w, p.s.mem, Exec(f, p.s).mem);
  }

  lemma FetchSame(w: World, u: State, p: State, t: Taint, f: Fetched)
    requires w.Valid() && Related(w, u, p, t)
    requires Fetch(u.mem, u.eip) == Some(f)
    requires Addresses(Span(u.eip, f.len)) !! t.bytes
    ensures Fetch(p.mem, p.eip) == Some(f)
    ensures p.eip !in w.Callbacks()
  {
    hide Decode;
    DecodeLength(Window(u.mem, u.eip));
    forall x: Word | In(x, Span(u.eip, f.len)) ensures u.mem[x] == p.mem[x] {
      assert x in Addresses(Span(u.eip, f.len));
    }
    FetchAgree(u.mem, p.mem, u.eip);
    CallbacksOutside(w, Addresses(Span(u.eip, f.len)));
    assert In(u.eip, Span(u.eip, f.len));
    assert u.eip in Addresses(Span(u.eip, f.len));
  }

  /** Meaning preservation: whatever the callbacks do within their contract, each well-behaved run of the
      unhooked program is matched by the hooked process, with the same registers and EIP, and the same
      flags and memory up to the taint. */
  lemma {:induction false} HookedProgramMeansTheSame(w: World, o: Oracle, u: State, p: Config, t: Taint, n: nat)
    returns (m: nat)
    requires w.Valid() && w.Honest(o)
    requires Related(w, u, p.s, t)
    requires Behaves(w, u, t, n)
    ensures Steps(u, n).Some? && Run(w.Callbacks(), o, p, m).Some?
    ensures Related(w, Steps(u, n).value, Run(w.Callbacks(), o, p, m).value.s, TaintAlong(w, u, t, n))
    decreases n
  {
    hide Exec, Decode, Step, Related, Addresses, ExecAll, TaintAfterAll, AllQuiet, Fetch, Quiet, TaintAfter, Disassemble;
    if n == 0 {
      m := 0;
    } else if AtHook(w, u.eip) {
      var h := HookAt(w, u.eip);
      GuardHolds(w, h);
      var l := ListingOf(h);
      PassHook(w, o, h, u, p, t) by { EipOf(w, u, p.s, t); }
      var k := PassageLength(l);
      m := HookedProgramMeansTheSame(w, o, ExecAll(l, u), Run(w.Callbacks(), o, p, k).value,
                                     TaintAfterAll(l, u, HookTaint(w, u, t)), n - |l|);
      RunAdd(w.Callbacks(), o, p, k, m);
      IterateAdd(Step, u, |l|, n - |l|);
      m := k + m;
    } else {
      var f := Fetch(u.mem, u.eip).value;
      PlainStep(w, o, u, p, t, f);
      m := HookedProgramMeansTheSame(w, o, Exec(f, u), Run(w.Callbacks(), o, p, 1).value,
                                     TaintAfter(f.insn, u, t), n - 1);
      RunAdd(w.Callbacks(), o, p, 1, m);
      assert Steps(u, 1) == Some(Exec(f, u)) by { assert Iterate(Step, u, 0) == Some(u); }
      IterateAdd(Step, u, 1, n - 1);
      m := 1 + m;
    }
  }

  lemma EipOf(w: World, u: State, p: State, t: Taint)
    requires Related(w, u, p, t)
    ensures p.eip == u.eip
  {
  }
}
