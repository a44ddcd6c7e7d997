/** The observer call inside a vtable trampoline: registers and flags saved around a cdecl function. */
module ObserverCall {
  import opened Words
  import opened Machine
  import opened Decoder
  import opened Execution
  import opened Assembler
  import opened Hooks
  import Trampoline

  const SAVE: Program := [Chunk([0x60], Pushad), Chunk([0x9C], Pushfd)]
  const RESTORE: Program := [Chunk([0x83, 0xC4, 0x04], Alu(Add, InReg(ESP), 4)), Chunk([0x9D], Popfd), Chunk([0x61], Popad)]

  /** `push imm8` sign-extends; the sub-vtable emitter uses `push imm32`. */
  function PushByte(b: Byte): Chunk {
    Chunk([0x6A, b], PushImm(SignExtend(b)))
  }

  function PushDword(w: Word): Chunk {
    Chunk([0x68] + LE(w), PushImm(w))
  }

  function CallTo(from: Word, target: Word): Chunk {
    Chunk(Branch(0xE8, from, target), CallRel(Wrap(target - (from + 5))))
  }

  /** Up to the call, emitted at address `a`. */
  function Enter(a: Word, push: Chunk, target: Word): (p: Program)
    ensures |p| == 4
  {
    SAVE + [push, CallTo(Wrap(a + 2 + |push.bytes|), target)]
  }

  ghost predicate IsPush(push: Chunk) {
    push.insn.PushImm? && Encodes(push.bytes, push.insn)
  }

  lemma PushesEncode(b: Byte, w: Word)
    ensures IsPush(PushByte(b)) && IsPush(PushDword(w))
  {
    var bs := [0x68] + LE(w);
    FromLEofLE(w);
    assert [bs[1], bs[2], bs[3], bs[4]] == LE(w);
  }

  lemma EnterAssembled(a: Word, push: Chunk, target: Word)
    requires IsPush(push)
    ensures Assembled(Enter(a, push, target)) && Assembled(RESTORE)
    ensures |Flat(Enter(a, push, target))| == 7 + |push.bytes| && |Flat(RESTORE)| == 5
  {
    hide Encodes, Decode;
    Trampoline.BranchEncodes(Wrap(a + 2 + |push.bytes|), target);
    OneByteEncodings();
    FlatFour(Enter(a, push, target));
    FlatThree(RESTORE);
  }

  lemma OneByteEncodings()
    ensures Encodes([0x60], Pushad) && Encodes([0x9C], Pushfd) && Encodes([0x9D], Popfd) && Encodes([0x61], Popad)
    ensures Encodes([0x83, 0xC4, 0x04], Alu(Add, InReg(ESP), 4))
  {
  }

  /** Saved registers, saved flags, the argument and the return address, below `esp`. */
  function FrameMemory(m: Memory, esp: Word, image: seq<Byte>, flags: Word, arg: Word, ret: Word): Memory {
    StoreWord(StoreWord(StoreWord(Store(m, Wrap(esp - 32), image), Wrap(esp - 36), flags), Wrap(esp - 40), arg),
              Wrap(esp - 44), ret)
  }

  const FRAME := 44

  function Below(esp: Word, n: nat): Span {
    Span(Wrap(esp - n), n)
  }

  lemma FrameHolds(m: Memory, esp: Word, image: seq<Byte>, flags: Word, arg: Word, ret: Word)
    requires |image| == 32
    ensures var m' := FrameMemory(m, esp, image, flags, arg, ret);
            && LoadWord(m', Wrap(esp - 44)) == ret
            && LoadWord(m', Wrap(esp - 40)) == arg
            && LoadWord(m', Wrap(esp - 36)) == flags
            && Load(m', Wrap(esp - 32), 32) == image
            && AgreeOutside(m, m', Addresses(Below(esp, FRAME)))
  {
    hide Store, Load, Addresses, Wrap;
    var m1 := Store(m, Wrap(esp - 32), image);
    var m2 := StoreWord(m1, Wrap(esp - 36), flags);
    var m3 := StoreWord(m2, Wrap(esp - 40), arg);
    var m4 := StoreWord(m3, Wrap(esp - 44), ret);
    LoadStored(m, Wrap(esp - 32), image);
    LoadStoredWord(m1, Wrap(esp - 36), flags);
    LoadStoredWord(m2, Wrap(esp - 40), arg);
    LoadStoredWord(m3, Wrap(esp - 44), ret);
    Higher(m1, esp, -36, flags, -32, 32);
    Higher(m2, esp, -40, arg, -32, 32);
    Higher(m3, esp, -44, ret, -32, 32);
    Higher(m2, esp, -40, arg, -36, 4);
    Higher(m3, esp, -44, ret, -36, 4);
    Higher(m3, esp, -44, ret, -40, 4);
    SpanInside(esp, -44, 44, -32, 32);
    var frame := Addresses(Below(esp, FRAME));
    StoreFrame(m, Wrap(esp - 32), image);
    InFrame(m, m1, esp, -36, flags);
    InFrame(m, m2, esp, -40, arg);
    InFrame(m, m3, esp, -44, ret);
  }

  /** A word pushed lower leaves what is stored higher alone. */
  lemma Higher(m: Memory, esp: Word, off: int, w: Word, off': int, n: nat)
    requires off + 4 <= off' && off' + n <= off + SIZE
    ensures Load(StoreWord(m, Wrap(esp + off), w), Wrap(esp + off'), n) == Load(m, Wrap(esp + off'), n)
  {
    SpansApart(esp, off, 4, off', n);
    LoadPast(m, Wrap(esp + off), LE(w), Wrap(esp + off'), n);
  }

  lemma InFrame(m: Memory, m': Memory, esp: Word, off: int, w: Word)
    requires -FRAME <= off <= -4
    requires AgreeOutside(m, m', Addresses(Below(esp, FRAME)))
    ensures AgreeOutside(m, StoreWord(m', Wrap(esp + off), w), Addresses(Below(esp, FRAME)))
  {
    SpanInside(esp, -FRAME, FRAME, off, 4);
    StoreFrame(m', Wrap(esp + off), LE(w));
    hide Store;
    assert AgreeOutside(m', StoreWord(m', Wrap(esp + off), w), Addresses(Span(Wrap(esp + off), 4)));
  }

  /** The state at the observer's entry. */
  function AtObserver(s: State, push: Chunk, target: Word): State
    requires push.insn.PushImm?
  {
    State(s.regs.(esp := Wrap(s.regs.esp - FRAME)), s.flags, target,
          FrameMemory(s.mem, s.regs.esp, RegsImage(s.regs), s.flags, push.insn.imm, Wrap(s.eip + 7 + |push.bytes|)))
  }

  lemma EnterExec(a: Word, push: Chunk, target: Word, s: State, region: iset<Word>)
    requires push.insn.PushImm? && s.eip == a
    requires region !! Addresses(Below(s.regs.esp, FRAME))
    ensures ExecAll(Listing(Enter(a, push, target)), s) == AtObserver(s, push, target)
    ensures Spares(Listing(Enter(a, push, target)), s, region)
  {
    hide Store, Wrap, Addresses, Exec, Writes, RegsImage;
    var l, esp: int, eip: int := Listing(Enter(a, push, target)), s.regs.esp, s.eip;
    var n, imm := |push.bytes|, push.insn.imm;
    var rel := Wrap(target - (Wrap(a + 2 + n) + 5));
    var m1 := Store(s.mem, Wrap(esp - 32), RegsImage(s.regs));
    var m2 := StoreWord(m1, Wrap(esp - 36), s.flags);
    var m3 := StoreWord(m2, Wrap(esp - 40), imm);
    var s1 := State(s.regs.(esp := Wrap(esp - 32)), s.flags, Wrap(eip + 1), m1);
    var s2 := State(s.regs.(esp := Wrap(esp - 36)), s.flags, Wrap(eip + 2), m2);
    var s3 := State(s.regs.(esp := Wrap(esp - 40)), s.flags, Wrap(eip + 2 + n), m3);
    var s4 := AtObserver(s, push, target);
    assert Exec(l[0], s) == s1 by { PushadIs(s); }
    assert Exec(l[1], s1) == s2 by { PushfdIs(s1); WrapShift(eip + 1, 1); WrapShift(esp - 32, -4); }
    assert Exec(l[2], s2) == s3 by { PushImmIs(imm, n, s2); WrapShift(eip + 2, n); WrapShift(esp - 36, -4); }
    assert Exec(l[3], s3) == s4 by {
      CallRelIs(rel, s3);
      WrapShift(eip + 2 + n, 5);
      WrapShift(esp - 40, -4);
      CallLands(a + 2 + n, target);
    }
    var ss := [s, s1, s2, s3, s4];
    assert Traces(l, ss, region) by {
      PushadIs(s); PushfdIs(s1); PushImmIs(imm, n, s2); CallRelIs(rel, s3);
      WrapShift(esp - 32, -4);
      WrapShift(esp - 36, -4);
      WrapShift(esp - 40, -4);
      SpanInside(esp, -44, 44, -32, 32);
      SpanInside(esp, -44, 44, -36, 4);
      SpanInside(esp, -44, 44, -40, 4);
      SpanInside(esp, -44, 44, -44, 4);
    }
    TraceEnds(l, ss, region);
  }

  lemma CallLands(x: int, target: Word)
    ensures Wrap(Wrap(Wrap(x) + 5) + Wrap(target - (Wrap(x) + 5))) == target
  {
    var y: int := Wrap(x) + 5;
    WrapShift(y, Wrap(target - y));
    WrapShift(target - y, y);
    WordIsWrapped(target);
    hide Wrap;
  }

  /** add esp,4; popfd; popad */
  lemma RestoreExec(s: State, region: iset<Word>)
    ensures ExecAll(Listing(RESTORE), s)
         == State(RegsFromImage(Load(s.mem, Wrap(s.regs.esp + 8), 32), Wrap(s.regs.esp + 40)),
                  LoadWord(s.mem, Wrap(s.regs.esp + 4)), Wrap(s.eip + 5), s.mem)
    ensures Spares(Listing(RESTORE), s, region)
  {
    hide Wrap, Addresses, Exec, Writes, RegsFromImage, AluFlags, Load;
    var l, esp: int, eip: int := Listing(RESTORE), s.regs.esp, s.eip;
    var fl := LoadWord(s.mem, Wrap(esp + 4));
    var s1 := State(s.regs.(esp := Wrap(esp + 4)), AluFlags(Add, s.regs.esp, 4), Wrap(eip + 3), s.mem);
    var s2 := State(s.regs.(esp := Wrap(esp + 8)), fl, Wrap(eip + 4), s.mem);
    var s3 := State(RegsFromImage(Load(s.mem, Wrap(esp + 8), 32), Wrap(esp + 40)), fl, Wrap(eip + 5), s.mem);
    assert Exec(l[0], s) == s1 by { AddEspIs(s, 4); }
    assert Exec(l[1], s1) == s2 by { PopfdIs(s1); WrapShift(eip + 3, 1); WrapShift(esp + 4, 4); }
    assert Exec(l[2], s2) == s3 by { PopadIs(s2); WrapShift(eip + 4, 1); WrapShift(esp + 8, 32); }
    var ss := [s, s1, s2, s3];
    assert Traces(l, ss, region) by { AddEspIs(s, 4); PopfdIs(s1); PopadIs(s2); NowhereEmpty(); }
    TraceEnds(l, ss, region);
  }

  /** The whole observer call: enter, observer, restore. */
  function Observe(a: Word, push: Chunk, target: Word): (p: Program)
    ensures |p| == 7
  {
    Enter(a, push, target) + RESTORE
  }

  ghost predicate ObserverHonest(env: World, o: Oracle, target: Word) {
    forall clock: nat, q: State :: q.eip == target ==> env.Returned(q, o(clock, q), 8)
  }

  /** What an honest observer leaves of its frame. */
  lemma FrameKept(env: World, s: State, push: Chunk, target: Word, r: State)
    requires push.insn.PushImm? && env.depth + FRAME < SIZE
    requires env.Returned(AtObserver(s, push, target), r, 8)
    requires env.own !! Addresses(Below(s.regs.esp, env.depth + FRAME))
    ensures r.eip == Wrap(s.eip + 7 + |push.bytes|)
    ensures r.regs.esp == Wrap(s.regs.esp - 40)
    ensures Load(r.mem, Wrap(s.regs.esp - 32), 32) == RegsImage(s.regs)
    ensures LoadWord(r.mem, Wrap(s.regs.esp - 36)) == s.flags
    ensures AgreeOutside(s.mem, r.mem, env.own + Addresses(Below(s.regs.esp, env.depth + FRAME)))
  {
    hide Addresses, FrameMemory, RegsImage, Wrap, Load;
    var esp: int, depth: int, q := s.regs.esp, env.depth, AtObserver(s, push, target);
    var touched := Addresses(Span(Wrap(q.regs.esp - env.depth), env.depth + 8));
    FrameHolds(s.mem, s.regs.esp, RegsImage(s.regs), s.flags, push.insn.imm, Wrap(s.eip + 7 + |push.bytes|));
    WrapShift(esp - 44, -depth);
    WrapShift(esp - 44, 4);
    SpansApart(esp, -44 - env.depth, env.depth + 8, -36, 36);
    SpanInside(esp, -(44 + env.depth), 44 + env.depth, -44 - env.depth, env.depth + 8);
    SpanInside(esp, -(44 + env.depth), 44 + env.depth, -44, 44);
    SpanInside(esp, -36, 36, -32, 32);
    SpanInside(esp, -36, 36, -36, 4);
    SpanInside(esp, -(44 + env.depth), 44 + env.depth, -36, 36);
    LoadAgree(q.mem, r.mem, env.own + touched, Wrap(esp - 32), 32);
    LoadAgree(q.mem, r.mem, env.own + touched, Wrap(esp - 36), 4);
    AgreeTrans(s.mem, q.mem, r.mem, Addresses(Below(s.regs.esp, FRAME)), env.own + touched,
               env.own + Addresses(Below(s.regs.esp, env.depth + FRAME)));
  }

  lemma EnterRuns(env: World, natives: iset<Word>, o: Oracle, c: Config, a: Word, pre: Program, push: Chunk,
                  target: Word, post: Program)
    requires IsPush(push)
    requires CodeAt(c.s.mem, a, Flat(pre + Observe(c.s.eip, push, target) + post))
    requires a + |Flat(pre)| < SIZE && c.s.eip == a + |Flat(pre)|
    requires Addresses(Span(a, |Flat(pre + Observe(c.s.eip, push, target) + post)|))
             !! natives + Addresses(Below(c.s.regs.esp, env.depth + FRAME))
    requires env.depth + FRAME < SIZE
    ensures Run(natives, o, c, 4) == Some(Config(AtObserver(c.s, push, target), c.clock + 4))
  {
    hide Addresses, Run, Flat, CodeAt, Exec, Decode, Encodes, FrameMemory, RegsImage, Load, Wrap, Spares;
    var enter, all := Enter(c.s.eip, push, target), pre + Observe(c.s.eip, push, target) + post;
    var code := Addresses(Span(a, |Flat(all)|));
    EnterAssembled(c.s.eip, push, target);
    SpanInside(c.s.regs.esp, -(env.depth + FRAME), env.depth + FRAME, -FRAME, FRAME);
    assert pre + enter + (RESTORE + post) == all;
    EnterExec(c.s.eip, push, target, c.s, code);
    NoLeaveBeforeCall(c.s.eip, push, target);
    RunProgram(natives, o, c, a, pre, enter, RESTORE + post);
  }

  /** Registers, flags and the stack at and above ESP come through an observer call unchanged. */
  lemma ObserverPasses(env: World, natives: iset<Word>, o: Oracle, c: Config, a: Word, pre: Program, push: Chunk,
                       target: Word, post: Program) returns (d: Config)
    requires env.depth + FRAME < SIZE && IsPush(push)
    requires target in natives && ObserverHonest(env, o, target)
    requires CodeAt(c.s.mem, a, Flat(pre + Observe(c.s.eip, push, target) + post))
    requires a + |Flat(pre)| < SIZE && c.s.eip == a + |Flat(pre)|
    requires Addresses(Below(c.s.regs.esp, env.depth + FRAME)) !! env.own
    requires Addresses(Span(a, |Flat(pre + Observe(c.s.eip, push, target) + post)|))
             !! natives + env.own + Addresses(Below(c.s.regs.esp, env.depth + FRAME))
    ensures Run(natives, o, c, 8) == Some(d)
    ensures d.s.regs == c.s.regs && d.s.flags == c.s.flags && d.s.eip == Wrap(c.s.eip + 12 + |push.bytes|)
    ensures AgreeOutside(c.s.mem, d.s.mem, env.own + Addresses(Below(c.s.regs.esp, env.depth + FRAME)))
  {
    hide Addresses, Run, Flat, CodeAt, Exec, Decode, Encodes, FrameMemory, RegsImage, RegsFromImage, Load, Wrap, Spares;
    var s, esp: int, eip: int, n := c.s, c.s.regs.esp, c.s.eip, |push.bytes|;
    var enter, all := Enter(c.s.eip, push, target), pre + Observe(c.s.eip, push, target) + post;
    var code := Addresses(Span(a, |Flat(all)|));
    EnterAssembled(c.s.eip, push, target);
    NoLeaveBeforeCall(c.s.eip, push, target);
    var q := Config(AtObserver(s, push, target), c.clock + 4);
    EnterRuns(env, natives, o, c, a, pre, push, target, post);
    var r := Config(o(q.clock, q.s), q.clock + 1);
    assert Run(natives, o, q, 1) == Some(r) by { RunOne(natives, o, q); }
    FrameKept(env, s, push, target, r.s);
    CodeSpared(s.mem, r.s.mem, a, Flat(all), env.own + Addresses(Below(s.regs.esp, env.depth + FRAME)));
    RestoreExec(r.s, code);
    FlatAppend(pre, enter);
    assert (pre + enter) + RESTORE + post == all;
    FlatAppend(pre + enter, RESTORE + post);
    FlatAppend(RESTORE, post);
    assert (pre + enter) + (RESTORE + post) == all;
    assert r.s.eip == a + |Flat(pre + enter)| by { EipWithin(a, Flat(pre + enter), Flat(all), eip + 7 + n); }
    RunProgram(natives, o, r, a, pre + enter, RESTORE, post);
    WrapShift(esp - 40, 8);
    WrapShift(esp - 40, 4);
    WrapShift(esp - 40, 40);
    WrapShift(eip + 7 + n, 5);
    WordIsWrapped(c.s.regs.esp);
    ImageRoundTrip(s.regs);
    RunAdd(natives, o, c, 4, 1);
    RunAdd(natives, o, c, 5, 3);
    d := Run(natives, o, c, 8).value;
  }

  lemma EipWithin(a: Word, front: seq<Byte>, all: seq<Byte>, x: int)
    requires a + |all| <= SIZE && |front| < |all| && x == a + |front|
    ensures Wrap(x) == a + |front|
  {
  }

  lemma NoLeaveBeforeCall(a: Word, push: Chunk, target: Word)
    requires push.insn.PushImm?
    ensures StraightLine(Listing(Enter(a, push, target))) && StraightLine(Listing(RESTORE))
  {
  }
}
