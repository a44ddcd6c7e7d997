/** A hooked site behaves as the unhooked code: from the site, through the callback, to the stolen bytes. */
module Transparency {
  import opened Words
  import opened Machine
  import opened Decoder
  import opened Execution
  import opened Hooks
  import opened Trampoline

  lemma CallbacksOutside(w: World, t: iset<Word>)
    requires w.Valid()
    requires t !! w.own
    ensures w.Callbacks() !! t
  {
    forall a | a in w.Callbacks() ensures a !in t {
      var i :| 0 <= i < |w.hooks| && w.hooks[i].callback == a;
      assert w.HookFits(w.hooks[i]);
    }
  }

  /** A part of code in memory runs straight through. */
  lemma RunPart(w: World, o: Oracle, c: Config, a: Word, pre: seq<Byte>, part: seq<Byte>, post: seq<Byte>,
                l: seq<Fetched>)
    requires w.Valid()
    requires CodeAt(c.s.mem, a, pre + part + post)
    requires a + |pre| < SIZE && c.s.eip == a + |pre|
    requires Disassemble(part) == Some(l) && StraightLine(l)
    requires Addresses(Span(a, |pre + part + post|)) !! w.own
    requires Spares(l, c.s, Addresses(Span(a + |pre|, |part|)))
    ensures Run(w.Callbacks(), o, c, |l|) == Some(Config(ExecAll(l, c.s), c.clock + |l|))
  {
    CallbacksOutside(w, Addresses(Span(a, |pre + part + post|)));
    RunPartOf(w.Callbacks(), o, c, a, pre, part, post, l);
  }

  /** The state at the callback's entry when the hooked site is reached in state `s`. */
  function AtCallback(h: Hook, s: State): State {
    State(s.regs.(eax := h.callback, esp := Wrap(s.regs.esp - 40)), s.flags, h.callback,
          FrameMemory(s.mem, s.regs.esp, RegsImage(s.regs), Wrap(h.tramp + 12)))
  }

  /** An emitted `jmp rel32` goes where it was aimed. */
  lemma RunBranch(w: World, o: Oracle, c: Config, a: Word, pre: seq<Byte>, to: Word, post: seq<Byte>)
    requires w.Valid()
    requires a + |pre| + 5 <= SIZE && c.s.eip == a + |pre|
    requires CodeAt(c.s.mem, a, pre + Branch(0xE9, a + |pre|, to) + post)
    requires Addresses(Span(a, |pre| + 5 + |post|)) !! w.own
    ensures Run(w.Callbacks(), o, c, 1) == Some(Config(c.s.(eip := to), c.clock + 1))
  {
    hide Exec, Decode, Addresses, Run, Disassemble, Spares, Branch, CodeAt, ExecAll;
    var part := Branch(0xE9, a + |pre|, to);
    BranchDecodes(a + |pre|, to);
    BranchExec(a + |pre|, to, c.s, Addresses(Span(a + |pre|, |part|)));
    RunPart(w, o, c, a, pre, part, post, [Fetched(JmpRel(Wrap(to - (a + |pre| + 5))), 5)]);
  }

  lemma TakeJump(w: World, o: Oracle, h: Hook, c: Config)
    requires w.Valid() && w.HookFits(h)
    requires Hooked(c.s.mem, h) && c.s.eip == h.site
    ensures Run(w.Callbacks(), o, c, 1) == Some(Config(c.s.(eip := h.tramp), c.clock + 1))
  {
    hide Run, Addresses, Branch;
    assert [] + Branch(0xE9, h.site, h.tramp) + Nops(|h.stolen| - 5) == SiteBytes(h);
    RunBranch(w, o, c, h.site, [], h.tramp, Nops(|h.stolen| - 5));
  }

  /** The callback is entered with the context of the hook point. */
  lemma ReachCallback(w: World, o: Oracle, h: Hook, c: Config)
    requires w.Valid() && w.HookFits(h)
    requires Hooked(c.s.mem, h) && c.s.eip == h.site
    requires Addresses(CallFrame(c.s.regs.esp)) !! Addresses(TrampSpan(h))
    ensures Run(w.Callbacks(), o, c, 6) == Some(Config(AtCallback(h, c.s), c.clock + 6))
  {
    hide Exec, Decode, Addresses, Run, Disassemble, Spares, FrameMemory, CallPart;
    TakeJump(w, o, h, c);
    var c1 := Config(c.s.(eip := h.tramp), c.clock + 1);
    var part, l := CallPart(h.callback), CallListing(h.callback);
    var post := RESTORE_PART + h.stolen + Branch(0xE9, Wrap(h.tramp + PROLOGUE + |h.stolen|), ReturnAddress(h));
    assert [] + part + post == TrampolineBytes(h);
    CallDecodes(h.callback);
    PartInside(h.tramp, 21 + |h.stolen|, 0, 12);
    CallExec(h.callback, c1.s, Addresses(Span(h.tramp, 12)));
    RunPart(w, o, c1, h.tramp, [], part, post, l);
    RunAdd(w.Callbacks(), o, c, 1, 5);
  }

  /** What the callback may touch, seen from the hook-time ESP. */
  lemma CallbackFootprint(w: World, h: Hook, s: State, r: State, frame: nat)
    requires w.Valid() && frame <= 40
    requires w.Returned(AtCallback(h, s), r, frame)
    ensures r.eip == Wrap(h.tramp + 12)
    ensures r.regs.esp == Wrap(s.regs.esp - 36)
    ensures AgreeOutside(s.mem, r.mem, w.own + Addresses(w.Scratch(s.regs.esp)))
  {
    hide Addresses, FrameMemory, RegsImage, Wrap, Load;
    var esp: int, depth: int, q := s.regs.esp, w.depth, AtCallback(h, s);
    var touched := Addresses(Span(Wrap(q.regs.esp - w.depth), w.depth + frame));
    FrameMemoryHolds(s.mem, esp, RegsImage(s.regs), Wrap(h.tramp + 12));
    WrapShift(esp - 40, -depth);
    WrapShift(esp - 40, 4);
    SpanInside(esp, -(40 + w.depth), 40 + w.depth, -40 - w.depth, w.depth + frame);
    SpanInside(esp, -(40 + w.depth), 40 + w.depth, -40, 40);
    AgreeTrans(s.mem, q.mem, r.mem, Addresses(CallFrame(esp)), w.own + touched,
               w.own + Addresses(w.Scratch(esp)));
  }

  /** A callback that keeps to its argument and its own stack leaves the saved registers as they were. */
  lemma ContextKept(w: World, h: Hook, s: State, r: State)
    requires w.Valid() && w.CallbackReturns(AtCallback(h, s), r)
    requires w.own !! Addresses(w.Scratch(s.regs.esp))
    ensures Load(r.mem, Wrap(s.regs.esp - 32), 32) == RegsImage(s.regs)
  {
    hide Addresses, FrameMemory, RegsImage, Wrap, Load;
    var esp: int, depth: int, q := s.regs.esp, w.depth, AtCallback(h, s);
    var touched := Addresses(Span(Wrap(q.regs.esp - w.depth), w.depth + 8));
    FrameMemoryHolds(s.mem, esp, RegsImage(s.regs), Wrap(h.tramp + 12));
    WrapShift(esp - 40, -depth);
    SpansApart(esp, -40 - w.depth, w.depth + 8, -32, 32);
    SpanInside(esp, -(40 + w.depth), 40 + w.depth, -32, 32);
    LoadAgree(q.mem, r.mem, w.own + touched, Wrap(esp - 32), 32);
  }

  /** From the callback's return to the stolen bytes: the registers are those of the HookContext,
      whatever the callback made of it, and ESP is that of the hook point. */
  lemma ResumeFromContext(w: World, o: Oracle, h: Hook, s: State, c: Config)
    requires w.Valid() && w.HookFits(h) && Hooked(s.mem, h)
    requires w.Returned(AtCallback(h, s), c.s, 40)
    requires Addresses(w.Scratch(s.regs.esp)) !! Addresses(TrampSpan(h))
    ensures Run(w.Callbacks(), o, c, 2)
         == Some(Config(State(RegsFromImage(Load(c.s.mem, Wrap(s.regs.esp - 32), 32), s.regs.esp),
                              AluFlags(Add, Wrap(s.regs.esp - 36), 4), Wrap(h.tramp + PROLOGUE), c.s.mem),
                        c.clock + 2))
    ensures CodeAt(c.s.mem, h.tramp, TrampolineBytes(h))
  {
    hide Exec, Decode, Addresses, Run, Disassemble, Spares, FrameMemory, CallPart, Wrap, RegsFromImage, Load, AluFlags;
    var esp: int := s.regs.esp;
    CallbackFootprint(w, h, s, c.s, 40);
    CodeSpared(s.mem, c.s.mem, h.tramp, TrampolineBytes(h), w.own + Addresses(w.Scratch(s.regs.esp)));
    var post := h.stolen + Branch(0xE9, Wrap(h.tramp + PROLOGUE + |h.stolen|), ReturnAddress(h));
    assert CallPart(h.callback) + RESTORE_PART + post == TrampolineBytes(h);
    RestoreDecodes();
    RestoreExec(c.s, Addresses(Span(h.tramp + 12, 4)));
    WordIsWrapped(h.tramp + 12);
    WordIsWrapped(h.tramp + 16);
    WordIsWrapped(s.regs.esp);
    WrapShift(esp - 36, 4);
    WrapShift(esp - 36, 36);
    WrapShift(h.tramp + 12, 4);
    RunPart(w, o, c, h.tramp, CallPart(h.callback), RESTORE_PART, post, RESTORE_LISTING);
  }

  /** A hook whose callback leaves the context alone reaches the stolen bytes with the registers of the
      hook point; only the DLL's memory and dead stack have changed. */
  lemma EnterStolen(w: World, o: Oracle, h: Hook, c: Config) returns (d: Config)
    requires w.Valid() && w.HookFits(h) && w.Honest(o) && w.IsCallback(h.callback)
    requires Hooked(c.s.mem, h) && c.s.eip == h.site
    requires Addresses(w.Scratch(c.s.regs.esp)) !! w.own + Addresses(TrampSpan(h))
    ensures Run(w.Callbacks(), o, c, 9) == Some(d)
    ensures d.s.regs == c.s.regs && d.s.eip == Wrap(h.tramp + PROLOGUE)
    ensures AgreeOutside(c.s.mem, d.s.mem, w.own + Addresses(w.Scratch(c.s.regs.esp)))
    ensures CodeAt(d.s.mem, h.tramp, TrampolineBytes(h))
  {
    hide Exec, Decode, Addresses, Run, FrameMemory, RegsFromImage, RegsImage, Load, AluFlags, Wrap;
    var s, esp: int := c.s, c.s.regs.esp;
    SpanInside(esp, -(40 + w.depth), 40 + w.depth, -40, 40);
    ReachCallback(w, o, h, c);
    var q := Config(AtCallback(h, s), c.clock + 6);
    var r := Config(o(q.clock, q.s), q.clock + 1);
    assert Run(w.Callbacks(), o, q, 1) == Some(r) by { RunOne(w.Callbacks(), o, q); }
    assert w.CallbackReturns(q.s, r.s);
    assert w.Returned(q.s, r.s, 40) by {
      SpanInside(q.s.regs.esp - w.depth, 0, w.depth + 40, 0, w.depth + 8);
    }
    ContextKept(w, h, s, r.s);
    ResumeFromContext(w, o, h, s, r);
    ImageRoundTrip(s.regs);
    CallbackFootprint(w, h, s, r.s, 8);
    RunAdd(w.Callbacks(), o, c, 6, 1);
    RunAdd(w.Callbacks(), o, c, 7, 2);
    d := Run(w.Callbacks(), o, c, 9).value;
  }
}
