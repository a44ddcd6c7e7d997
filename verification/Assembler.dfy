/** Programs as lists of encoded instructions. */
module Assembler {
  import opened Words
  import opened Machine
  import opened Decoder
  import opened Execution

  datatype Chunk = Chunk(bytes: seq<Byte>, insn: Insn)

  type Program = seq<Chunk>

  ghost predicate Assembled(p: Program) {
    forall i :: 0 <= i < |p| ==> Encodes(p[i].bytes, p[i].insn)
  }

  function Flat(p: Program): seq<Byte> {
    if p == [] then [] else Flat(p[..|p| - 1]) + p[|p| - 1].bytes
  }

  function Listing(p: Program): (l: seq<Fetched>)
    ensures |l| == |p|
  {
    seq(|p|, i requires 0 <= i < |p| => Fetched(p[i].insn, |p[i].bytes|))
  }

  lemma {:induction false} FlatAppend(p: Program, q: Program)
    ensures Flat(p + q) == Flat(p) + Flat(q)
    decreases |q|
  {
    if q == [] {
      assert p + q == p;
    } else {
      var front := q[..|q| - 1];
      FlatAppend(p, front);
      assert (p + q)[..|p + q| - 1] == p + front;
    }
  }

  ghost predicate NoneLeaves(p: Program) {
    forall i :: 0 <= i < |p| ==> !Leaves(p[i].insn)
  }

  lemma AssembledAppend(p: Program, q: Program)
    requires Assembled(p) && Assembled(q)
    ensures Assembled(p + q)
    ensures NoneLeaves(p) && NoneLeaves(q) ==> NoneLeaves(p + q)
  {
    hide Encodes, Leaves;
  }

  lemma FlatOne(c: Chunk)
    ensures Flat([c]) == c.bytes
  {
    assert [c][..0] == [];
  }

  lemma FlatTwo(p: Program)
    requires |p| == 2
    ensures Flat(p) == p[0].bytes + p[1].bytes
  {
    assert p[..1] == [p[0]];
    FlatOne(p[0]);
  }

  lemma FlatThree(p: Program)
    requires |p| == 3
    ensures Flat(p) == p[0].bytes + p[1].bytes + p[2].bytes
  {
    FlatTwo(p[..2]);
  }

  lemma FlatFour(p: Program)
    requires |p| == 4
    ensures Flat(p) == p[0].bytes + p[1].bytes + p[2].bytes + p[3].bytes
  {
    FlatThree(p[..3]);
  }

  lemma NothingDisassembles()
    ensures Disassemble([]) == Some([])
  {
  }

  lemma {:induction false} FlatDecodes(p: Program)
    requires Assembled(p)
    ensures Disassemble(Flat(p)) == Some(Listing(p))
    decreases |p|
  {
    hide Encodes, Decode, Disassemble;
    if p == [] {
      NothingDisassembles();
      assert Flat(p) == [] && Listing(p) == [];
    } else {
      var front, c := p[..|p| - 1], p[|p| - 1];
      FlatDecodes(front);
      DisassembleSnoc(Flat(front), Listing(front), c.bytes, c.insn, Listing(p));
    }
  }

  /** One part of an assembled program runs straight through. */
  lemma RunProgram(natives: iset<Word>, o: Oracle, c: Config, a: Word, pre: Program, p: Program, post: Program)
    requires CodeAt(c.s.mem, a, Flat(pre + p + post))
    requires a + |Flat(pre)| < SIZE && c.s.eip == a + |Flat(pre)|
    requires Assembled(p) && StraightLine(Listing(p))
    requires natives !! Addresses(Span(a, |Flat(pre + p + post)|))
    requires Spares(Listing(p), c.s, Addresses(Span(a, |Flat(pre + p + post)|)))
    ensures Run(natives, o, c, |p|) == Some(Config(ExecAll(Listing(p), c.s), c.clock + |p|))
    ensures |Flat(pre)| + |Flat(p)| <= |Flat(pre + p + post)|
  {
    hide Exec, Decode, Addresses, Run, Disassemble, Spares, Flat;
    FlatAppend(pre + p, post);
    FlatAppend(pre, p);
    FlatDecodes(p);
    PartInside(a, |Flat(pre + p + post)|, |Flat(pre)|, |Flat(p)|);
    SparesLess(Listing(p), c.s, Addresses(Span(a, |Flat(pre + p + post)|)), Addresses(Span(a + |Flat(pre)|, |Flat(p)|)));
    RunPartOf(natives, o, c, a, Flat(pre), Flat(p), Flat(post), Listing(p));
  }

  /** `ss` lists the states along `l`, and no write touches `region`. */
  ghost predicate Traces(l: seq<Fetched>, ss: seq<State>, region: iset<Word>) {
    && |ss| == |l| + 1
    && forall k :: 0 <= k < |l| ==> Exec(l[k], ss[k]) == ss[k + 1] && Addresses(Writes(l[k].insn, ss[k])) !! region
  }

  lemma {:induction false} TraceEnds(l: seq<Fetched>, ss: seq<State>, region: iset<Word>)
    requires Traces(l, ss, region)
    ensures ExecAll(l, ss[0]) == ss[|l|] && Spares(l, ss[0], region)
    decreases |l|
  {
    hide Exec, Writes, Addresses;
    if l != [] {
      assert Exec(l[0], ss[0]) == ss[1];
      forall k | 0 <= k < |l| - 1
        ensures Exec(l[1..][k], ss[1..][k]) == ss[1..][k + 1] && Addresses(Writes(l[1..][k].insn, ss[1..][k])) !! region
      {
        assert l[1..][k] == l[k + 1] && ss[1..][k] == ss[k + 1];
      }
      TraceEnds(l[1..], ss[1..], region);
    }
  }
}
