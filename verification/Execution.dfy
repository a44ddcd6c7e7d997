/** Runs of machine code that calls compiled C functions at known entry addresses. */
module Execution {
  import opened Words
  import opened Machine
  import opened Decoder

  /** The machine state and the number of steps taken so far. */
  datatype Config = Config(s: State, clock: nat)

  /** What the native functions do: any function of the moment and the whole state at their entry. */
  type Oracle = (nat, State) -> State

  ghost function Stepper(natives: iset<Word>, o: Oracle): Config -> Option<Config> {
    (c: Config) =>
      if c.s.eip in natives then Some(Config(o(c.clock, c.s), c.clock + 1))
      else match Step(c.s)
           case None => Option<Config>.None
           case Some(t) => Some(Config(t, c.clock + 1))
  }

  ghost function Run(natives: iset<Word>, o: Oracle, c: Config, n: nat): Option<Config> {
    Iterate(Stepper(natives, o), c, n)
  }

  lemma RunAdd(natives: iset<Word>, o: Oracle, c: Config, a: nat, b: nat)
    requires Run(natives, o, c, a).Some?
    ensures Run(natives, o, c, a + b) == Run(natives, o, Run(natives, o, c, a).value, b)
  {
    IterateAdd(Stepper(natives, o), c, a, b);
  }

  lemma RunOne(natives: iset<Word>, o: Oracle, c: Config)
    ensures Run(natives, o, c, 1) == Stepper(natives, o)(c)
  {
    assert Iterate(Stepper(natives, o), c, 0) == Some(c);
  }

  // --- straight-line code ---

  function Disassemble(code: seq<Byte>): Option<seq<Fetched>>
    decreases |code|
  {
    if code == [] then Some([]) else
    match Decode(code)
    case None => None
    case Some(f) =>
      DecodeLength(code);
      match Disassemble(code[f.len..])
      case None => None
      case Some(l) => Some([f] + l)
  }

  /** `bs` is exactly one instruction. */
  predicate Encodes(bs: seq<Byte>, i: Insn) {
    Decode(bs) == Some(Fetched(i, |bs|))
  }

  lemma {:induction false} DisassembleAppend(code: seq<Byte>, l: seq<Fetched>, more: seq<Byte>, l': seq<Fetched>)
    requires Disassemble(code) == Some(l)
    requires Disassemble(more) == Some(l')
    ensures Disassemble(code + more) == Some(l + l')
    decreases |code|
  {
    hide Decode;
    if code == [] {
      assert code + more == more && l + l' == l';
    } else {
      var f := Decode(code).value;
      DecodeLength(code);
      DecodeLocal(code, code + more);
      var rest := code[f.len..];
      DisassembleAppend(rest, l[1..], more, l');
      assert (code + more)[f.len..] == rest + more;
      assert [f] + (l[1..] + l') == l + l';
    }
  }

  lemma DisassembleOne(bs: seq<Byte>, i: Insn)
    requires Encodes(bs, i)
    ensures Disassemble(bs) == Some([Fetched(i, |bs|)])
  {
    assert Decode([]).None?;
    assert bs[Decode(bs).value.len..] == [];
    assert [Fetched(i, |bs|)] + [] == [Fetched(i, |bs|)];
  }

  /** Appending one instruction to code appends it to the listing. */
  lemma DisassembleSnoc(code: seq<Byte>, l: seq<Fetched>, bs: seq<Byte>, i: Insn, l': seq<Fetched>)
    requires Disassemble(code) == Some(l)
    requires Encodes(bs, i)
    requires l' == l + [Fetched(i, |bs|)]
    ensures Disassemble(code + bs) == Some(l')
  {
    hide Decode, Disassemble;
    DisassembleOne(bs, i);
    DisassembleAppend(code, l, bs, [Fetched(i, |bs|)]);
  }

  function ExecAll(l: seq<Fetched>, s: State): State {
    if l == [] then s else ExecAll(l[1..], Exec(l[0], s))
  }

  lemma {:induction false} ExecAllAppend(l: seq<Fetched>, l': seq<Fetched>, s: State)
    ensures ExecAll(l + l', s) == ExecAll(l', ExecAll(l, s))
    decreases |l|
  {
    hide Exec;
    if l == [] {
      assert l + l' == l';
    } else {
      ExecAllAppend(l[1..], l', Exec(l[0], s));
      assert (l + l')[1..] == l[1..] + l';
    }
  }

  /** Only the last instruction may transfer control. */
  predicate StraightLine(l: seq<Fetched>) {
    forall i :: 0 <= i < |l| - 1 ==> !Leaves(l[i].insn)
  }

  /** No instruction of `l` run from `s` writes to `region`. */
  ghost predicate Spares(l: seq<Fetched>, s: State, region: iset<Word>) {
    l == [] || (Addresses(Writes(l[0].insn, s)) !! region && Spares(l[1..], Exec(l[0], s), region))
  }

  /** One instruction in front of a listing that is understood already. */
  lemma Peel(l: seq<Fetched>, k: nat, s: State, s': State, last: State, region: iset<Word>)
    requires k < |l|
    requires Exec(l[k], s) == s' && Addresses(Writes(l[k].insn, s)) !! region
    requires ExecAll(l[k + 1..], s') == last && Spares(l[k + 1..], s', region)
    ensures ExecAll(l[k..], s) == last && Spares(l[k..], s, region)
  {
    hide Exec, Writes;
    assert l[k..][1..] == l[k + 1..];
  }

  lemma CodeKept(m: Memory, m': Memory, a: Word, code: seq<Byte>)
    requires CodeAt(m, a, code)
    requires forall x: Word :: In(x, Span(a, |code|)) ==> m[x] == m'[x]
    ensures CodeAt(m', a, code)
  {
    forall i | 0 <= i < |code| ensures m'[a..a + |code|][i] == code[i] {
      assert m[a..a + |code|][i] == m[a + i];
      assert In(a + i, Span(a, |code|));
    }
  }

  /** One instruction of code in memory. */
  lemma RunInsn(natives: iset<Word>, o: Oracle, c: Config, a: Word, code: seq<Byte>, k: nat)
    requires CodeAt(c.s.mem, a, code)
    requires k < |code| && c.s.eip == a + k
    requires Decode(code[k..]).Some?
    requires natives !! Addresses(Span(a, |code|))
    ensures Run(natives, o, c, 1) == Some(Config(Exec(Decode(code[k..]).value, c.s), c.clock + 1))
  {
    hide Exec, Decode;
    FetchCode(c.s.mem, a, code, k);
    WrapInside(a, |code|, c.s.eip);
    assert c.s.eip in Addresses(Span(a, |code|));
    assert Step(c.s) == Some(Exec(Decode(code[k..]).value, c.s));
    RunOne(natives, o, c);
  }

  lemma CodeSpared(m: Memory, m': Memory, a: Word, code: seq<Byte>, t: iset<Word>)
    requires CodeAt(m, a, code)
    requires AgreeOutside(m, m', t) && t !! Addresses(Span(a, |code|))
    ensures CodeAt(m', a, code)
  {
    forall x: Word | In(x, Span(a, |code|)) ensures m[x] == m'[x] {
      assert x in Addresses(Span(a, |code|));
    }
    CodeKept(m, m', a, code);
  }

  /** Code that spares itself runs from its first instruction through its last. */
  lemma {:induction false} RunStraight(natives: iset<Word>, o: Oracle, c: Config, a: Word, code: seq<Byte>, k: nat,
                                       l: seq<Fetched>)
    requires CodeAt(c.s.mem, a, code)
    requires k <= |code| && Disassemble(code[k..]) == Some(l)
    requires l == [] || c.s.eip == a + k
    requires StraightLine(l)
    requires Spares(l, c.s, Addresses(Span(a, |code|)))
    requires natives !! Addresses(Span(a, |code|))
    ensures Run(natives, o, c, |l|) == Some(Config(ExecAll(l, c.s), c.clock + |l|))
    decreases |l|
  {
    hide Exec, Decode, Writes, CodeAt;
    if l != [] {
      var f, rest := l[0], code[k..];
      DecodeLength(rest);
      var c' := Config(Exec(f, c.s), c.clock + 1);
      RunInsn(natives, o, c, a, code, k);
      assert rest[f.len..] == code[k + f.len..];
      assert l[1..] == Disassemble(rest[f.len..]).value;
      ExecFrame(f, c.s);
      CodeSpared(c.s.mem, c'.s.mem, a, code, Addresses(Writes(f.insn, c.s)));
      if |l| > 1 {
        ExecNext(f, c.s);
      }
      RunStraight(natives, o, c', a, code, k + f.len, l[1..]);
      RunAdd(natives, o, c, 1, |l| - 1);
    }
  }

  lemma CodePart(m: Memory, a: Word, pre: seq<Byte>, code: seq<Byte>, post: seq<Byte>)
    requires CodeAt(m, a, pre + code + post)
    requires a + |pre| < SIZE
    ensures CodeAt(m, a + |pre|, code)
  {
    var whole := pre + code + post;
    forall i | 0 <= i < |code| ensures m[a + |pre|..a + |pre| + |code|][i] == code[i] {
      assert m[a..a + |whole|][|pre| + i] == whole[|pre| + i];
    }
  }

  lemma PartInside(a: Word, n: nat, off: nat, k: nat)
    requires a + n <= SIZE && off + k <= n && a + off < SIZE
    ensures Addresses(Span(a + off, k)) <= Addresses(Span(a, n))
  {
    SpanInside(a, 0, n, off, k);
    assert Wrap(a) == a && Wrap(a + off) == a + off;
  }

  lemma {:induction false} SparesLess(l: seq<Fetched>, s: State, region: iset<Word>, part: iset<Word>)
    requires Spares(l, s, region) && part <= region
    ensures Spares(l, s, part)
    decreases |l|
  {
    hide Exec, Writes;
    if l != [] {
      SparesLess(l[1..], Exec(l[0], s), region, part);
    }
  }

  lemma {:induction false} RegionKept(l: seq<Fetched>, s: State, region: iset<Word>)
    requires Spares(l, s, region)
    ensures forall x :: x in region ==> ExecAll(l, s).mem[x] == s.mem[x]
    decreases |l|
  {
    hide Exec, Writes;
    if l != [] {
      ExecFrame(l[0], s);
      RegionKept(l[1..], Exec(l[0], s), region);
    }
  }

  lemma CodeKeptIn(m: Memory, m': Memory, a: Word, code: seq<Byte>, region: iset<Word>)
    requires CodeAt(m, a, code)
    requires Addresses(Span(a, |code|)) <= region
    requires forall x :: x in region ==> m'[x] == m[x]
    ensures CodeAt(m', a, code)
  {
    forall x: Word | In(x, Span(a, |code|)) ensures m[x] == m'[x] {
      assert x in Addresses(Span(a, |code|));
    }
    CodeKept(m, m', a, code);
  }

  /** A part of code in memory runs straight through. */
  lemma RunPartOf(natives: iset<Word>, o: Oracle, c: Config, a: Word, pre: seq<Byte>, part: seq<Byte>, post: seq<Byte>,
                  l: seq<Fetched>)
    requires CodeAt(c.s.mem, a, pre + part + post)
    requires a + |pre| < SIZE && c.s.eip == a + |pre|
    requires Disassemble(part) == Some(l) && StraightLine(l)
    requires natives !! Addresses(Span(a, |pre + part + post|))
    requires Spares(l, c.s, Addresses(Span(a + |pre|, |part|)))
    ensures Run(natives, o, c, |l|) == Some(Config(ExecAll(l, c.s), c.clock + |l|))
  {
    hide Exec, Decode, Addresses, Run, Disassemble, Spares;
    CodePart(c.s.mem, a, pre, part, post);
    PartInside(a, |pre + part + post|, |pre|, |part|);
    assert part[0..] == part;
    RunStraight(natives, o, c, a + |pre|, part, 0, l);
  }

  lemma {:induction false} FallsThrough(code: seq<Byte>, l: seq<Fetched>, s: State)
    requires Disassemble(code) == Some(l)
    requires forall i :: 0 <= i < |l| ==> !Leaves(l[i].insn)
    ensures ExecAll(l, s).eip == Wrap(s.eip + |code|)
    decreases |code|
  {
    hide Exec, Decode, Leaves;
    if code != [] {
      var f := Decode(code).value;
      DecodeLength(code);
      assert l[0] == f;
      ExecNext(f, s);
      var rest := code[f.len..];
      assert l[1..] == Disassemble(rest).value;
      FallsThrough(rest, l[1..], Exec(f, s));
      WrapShift(s.eip + f.len, |rest|);
    }
  }

  /** Without native functions a run is the bare machine's. */
  lemma {:induction false} RunIsSteps(o: Oracle, s: State, clock: nat, n: nat)
    ensures var r := Run(iset{}, o, Config(s, clock), n);
            Steps(s, n) == if r.Some? then Some(r.value.s) else None
    decreases n
  {
    hide Exec, Decode;
    if n > 0 {
      RunIsSteps(o, s, clock, n - 1);
    }
  }

  /** The same for the bare machine. */
  lemma RunBare(u: State, a: Word, pre: seq<Byte>, part: seq<Byte>, post: seq<Byte>, l: seq<Fetched>)
    requires CodeAt(u.mem, a, pre + part + post)
    requires a + |pre| < SIZE && u.eip == a + |pre|
    requires Disassemble(part) == Some(l) && StraightLine(l)
    requires Spares(l, u, Addresses(Span(a + |pre|, |part|)))
    ensures Steps(u, |l|) == Some(ExecAll(l, u))
  {
    hide Exec, Decode, Run, Steps, Addresses, Disassemble, Spares;
    var o: Oracle := (clock, s) => s;
    RunPartOf(iset{}, o, Config(u, 0), a, pre, part, post, l);
    RunIsSteps(o, u, 0, |l|);
  }

  // --- what a piece of straight-line code may depend on ---

  /** Memory bytes, and whether the status flags, that must not influence the program. */
  datatype Taint = Taint(bytes: iset<Word>, flags: bool)

  ghost function TaintAfter(i: Insn, s: State, t: Taint): Taint {
    Taint(t.bytes - Addresses(Writes(i, s)), t.flags && !SetsFlags(i))
  }

  /** One instruction neither reads what is tainted nor writes what is guarded. */
  ghost predicate Quiet(i: Insn, s: State, t: Taint, guard: iset<Word>) {
    && Addresses(Reads(i, s)) !! t.bytes
    && (ReadsFlags(i) ==> !t.flags)
    && Addresses(Writes(i, s)) !! guard
  }

  ghost predicate AllQuiet(l: seq<Fetched>, s: State, t: Taint, guard: iset<Word>) {
    l == [] ||
    (Quiet(l[0].insn, s, t, guard) && AllQuiet(l[1..], Exec(l[0], s), TaintAfter(l[0].insn, s, t), guard))
  }

  ghost function TaintAfterAll(l: seq<Fetched>, s: State, t: Taint): Taint {
    if l == [] then t else TaintAfterAll(l[1..], Exec(l[0], s), TaintAfter(l[0].insn, s, t))
  }

  ghost predicate SameUpTo(u: State, p: State, t: Taint) {
    SameButHidden(u, p, t.bytes, t.flags)
  }

  /** Relocated straight-line code does the same as the original, up to the taint. */
  lemma {:induction false} ReplayAgree(l: seq<Fetched>, u: State, p: State, t: Taint, guard: iset<Word>)
    requires SameUpTo(u, p, t)
    requires AllQuiet(l, u, t, guard)
    requires forall i :: 0 <= i < |l| ==> Relocatable(l[i].insn)
    ensures SameUpTo(ExecAll(l, u), ExecAll(l, p), TaintAfterAll(l, u, t))
    ensures Spares(l, u, guard) && Spares(l, p, guard)
    ensures l != [] && Leaves(l[|l| - 1].insn) ==> ExecAll(l, u).eip == ExecAll(l, p).eip
    decreases |l|
  {
    if l != [] {
      var f := l[0];
      ExecAgree(f, u, p, t.bytes, t.flags);
      assert Writes(f.insn, u) == Writes(f.insn, p) by { WritesByRegs(f.insn, u, p); }
      var u', p' := Exec(f, u), Exec(f, p);
      ReplayAgree(l[1..], u', p', TaintAfter(f.insn, u, t), guard);
      if |l| > 1 {
        assert l[1..][|l| - 2] == l[|l| - 1];
      }
    }
  }

  lemma WritesByRegs(i: Insn, u: State, p: State)
    requires u.regs == p.regs
    ensures Writes(i, u) == Writes(i, p)
  {
  }
}
