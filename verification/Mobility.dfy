/** Which code means the same when its bytes are run at another address. */
module Mobility {
  import opened Words
  import opened Machine
  import opened Decoder
  import opened Execution
  import opened Relocation

  /** Where instruction `i` of a listing starts, counted from its first byte. */
  function OffsetOf(l: seq<Fetched>, i: nat): nat
    requires i <= |l|
  {
    if i == 0 then 0 else OffsetOf(l, i - 1) + l[i - 1].len
  }

  /** An instruction of the listing starts at `x`, or it ends there. */
  ghost predicate Boundary(l: seq<Fetched>, x: int) {
    exists i :: 0 <= i <= |l| && OffsetOf(l, i) == x
  }

  /** Both stand at the same place of the moved code, each in its own copy, or both have left for the same address. */
  ghost predicate SamePlace(l: seq<Fetched>, target: Word, tramp: Word, u: Word, p: Word) {
    u == p || exists x :: Boundary(l, x) && u == Wrap(target + x) && p == Wrap(tramp + x)
  }

  /** Run from `u` in the original and from the same state in the copy, instruction `i` does the same. */
  ghost predicate DoesTheSame(l: seq<Fetched>, i: nat, target: Word, tramp: Word, u: State)
    requires i < |l|
  {
    var u', p' := Exec(l[i], u), Exec(l[i], u.(eip := Wrap(tramp + OffsetOf(l, i))));
    u'.regs == p'.regs && u'.flags == p'.flags && u'.mem == p'.mem && SamePlace(l, target, tramp, u'.eip, p'.eip)
  }

  /** It does so from every state of the machine. */
  ghost predicate MeansTheSame(l: seq<Fetched>, i: nat, target: Word, tramp: Word)
    requires i < |l|
  {
    forall u: State :: u.eip == Wrap(target + OffsetOf(l, i)) ==> DoesTheSame(l, i, target, tramp, u)
  }

  /** No call, and relative jumps stay inside the moved code. Indirect jumps and returns are harmless. */
  ghost predicate Movable(l: seq<Fetched>, i: nat)
    requires i < |l|
  {
    match l[i].insn
    case CallRel(_) => false
    case CallRm(_) => false
    case JmpRel(rel) => Boundary(l, Wrap(OffsetOf(l, i + 1) + rel))
    case Jcc(_, rel) => Boundary(l, Wrap(OffsetOf(l, i + 1) + rel))
    case Loop(_, rel) => Boundary(l, Wrap(OffsetOf(l, i + 1) + rel))
    case _ => true
  }

  ghost predicate FitsInMemory(l: seq<Fetched>) {
    forall x :: Boundary(l, x) ==> 0 <= x < SIZE
  }

  lemma PlacesApart(l: seq<Fetched>, target: Word, tramp: Word, x: int)
    requires target != tramp && FitsInMemory(l)
    ensures SamePlace(l, target, tramp, Wrap(target + x), Wrap(tramp + x)) <==> Boundary(l, Wrap(x))
  {
    hide Wrap, Boundary;
    WrapInjective(target, tramp, x);
    WrapShift(x, target);
    WrapShift(x, tramp);
    if SamePlace(l, target, tramp, Wrap(target + x), Wrap(tramp + x)) {
      var y :| Boundary(l, y) && Wrap(target + x) == Wrap(target + y) && Wrap(tramp + x) == Wrap(tramp + y);
      SameOffset(target, x, y);
    }
  }

  lemma SameOffset(a: Word, x: int, y: int)
    requires Wrap(a + x) == Wrap(a + y) && 0 <= y < SIZE
    ensures Wrap(x) == y
  {
    var j, k := (a + x) / SIZE, (a + y) / SIZE;
    assert a + x == SIZE * j + Wrap(a + x) && a + y == SIZE * k + Wrap(a + y);
    WrapIs(x, j - k, y);
  }

  lemma {:induction false} OffsetsInside(code: seq<Byte>, l: seq<Fetched>, i: nat)
    requires Disassemble(code) == Some(l) && i <= |l|
    ensures i <= OffsetOf(l, i) <= |code| && OffsetOf(l, |l|) == |code|
    ensures i < |l| ==> Decode(code[OffsetOf(l, i)..]) == Some(l[i]) && OffsetOf(l, i) + l[i].len <= |code|
    decreases |code|
  {
    hide Decode;
    if code != [] {
      DecodeLength(code);
      var rest := code[l[0].len..];
      OffsetsInside(rest, l[1..], |l| - 1);
      OffsetOfTail(l, |l|);
      if i > 0 {
        OffsetsInside(rest, l[1..], i - 1);
        OffsetOfTail(l, i);
        if i < |l| {
          assert rest[OffsetOf(l[1..], i - 1)..] == code[OffsetOf(l, i)..];
        }
      } else {
        assert code[0..] == code;
      }
    }
  }

  lemma {:induction false} OffsetOfTail(l: seq<Fetched>, i: nat)
    requires 0 < i <= |l|
    ensures OffsetOf(l, i) == l[0].len + OffsetOf(l[1..], i - 1)
  {
    if i > 1 {
      OffsetOfTail(l, i - 1);
    } else {
      assert OffsetOf(l, 1) == OffsetOf(l, 0) + l[0].len;
    }
  }

  lemma BoundariesInside(code: seq<Byte>, l: seq<Fetched>)
    requires Disassemble(code) == Some(l)
    ensures |code| < SIZE ==> FitsInMemory(l)
  {
    hide Disassemble;
    forall x | Boundary(l, x) ensures 0 <= x <= |code| {
      var i :| 0 <= i <= |l| && OffsetOf(l, i) == x;
      OffsetsInside(code, l, i);
    }
  }

  /** Code without calls whose relative jumps stay inside it means the same anywhere. */
  lemma MovableMeansTheSame(code: seq<Byte>, l: seq<Fetched>, i: nat, target: Word, tramp: Word)
    requires Disassemble(code) == Some(l) && i < |l| && |code| < SIZE && target != tramp && Movable(l, i)
    ensures MeansTheSame(l, i, target, tramp)
  {
    hide Disassemble, Boundary, DoesTheSame, Movable, FitsInMemory, OffsetOf, Wrap;
    BoundariesInside(code, l);
    forall u: State | u.eip == Wrap(target + OffsetOf(l, i)) ensures DoesTheSame(l, i, target, tramp, u) {
      if IsRelativeJump(l[i].insn) {
        JumpMoves(l, i, target, tramp, u);
      } else {
        OtherMoves(l, i, target, tramp, u);
      }
    }
  }

  predicate IsRelativeJump(i: Insn) {
    i.JmpRel? || i.Jcc? || i.Loop?
  }

  predicate Jumps(i: Insn, s: State)
    requires IsRelativeJump(i)
  {
    match i
    case Jcc(cc, _) => Taken(cc, s.flags)
    case Loop(kind, _) => LoopTaken(kind, s.regs.ecx, s.flags)
    case _ => true
  }

  /** A relative jump in closed form: all but EIP is independent of where it stands. */
  lemma RelativeJumpIs(f: Fetched, s: State)
    requires IsRelativeJump(f.insn)
    ensures var s', next := Exec(f, s), Wrap(s.eip + f.len);
            && s'.flags == s.flags && s'.mem == s.mem
            && s'.regs == s.regs.(ecx := if f.insn.Loop? then LoopCount(f.insn.kind, s.regs.ecx) else s.regs.ecx)
            && s'.eip == if Jumps(f.insn, s) then Wrap(next + f.insn.rel) else next
  {
    hide Taken, LoopTaken, LoopCount, Wrap;
  }

  lemma MovableLands(l: seq<Fetched>, i: nat)
    requires i < |l| && IsRelativeJump(l[i].insn)
    ensures Movable(l, i) <==> Boundary(l, Wrap(OffsetOf(l, i + 1) + l[i].insn.rel))
  {
    hide Boundary, OffsetOf, Wrap;
  }

  lemma JumpMoves(l: seq<Fetched>, i: nat, target: Word, tramp: Word, u: State)
    requires i < |l| && target != tramp && u.eip == Wrap(target + OffsetOf(l, i))
    requires IsRelativeJump(l[i].insn) && Movable(l, i) && FitsInMemory(l)
    ensures DoesTheSame(l, i, target, tramp, u)
  {
    hide Exec, Wrap, Boundary, OffsetOf, Movable, Jumps, LoopCount, FitsInMemory;
    MovableLands(l, i);
    NextIsBoundary(l, i);
    var f, x: int, p := l[i], OffsetOf(l, i), u.(eip := Wrap(tramp + OffsetOf(l, i)));
    var rel: int, next: int := f.insn.rel, OffsetOf(l, i + 1);
    JumpsAlike(f.insn, u, p);
    RelativeJumpIs(f, u);
    RelativeJumpIs(f, p);
    WrapShift(target + x, f.len);
    WrapShift(tramp + x, f.len);
    WrapShift(target + next, rel);
    WrapShift(tramp + next, rel);
    PlacesApart(l, target, tramp, next + rel);
  }

  lemma OtherMoves(l: seq<Fetched>, i: nat, target: Word, tramp: Word, u: State)
    requires i < |l| && u.eip == Wrap(target + OffsetOf(l, i))
    requires !IsRelativeJump(l[i].insn) && Movable(l, i)
    ensures DoesTheSame(l, i, target, tramp, u)
  {
    assert Relocatable(l[i].insn) by { hide OffsetOf, Boundary, Wrap; }
    hide Exec, Wrap, Boundary, OffsetOf, Movable, Reads, Writes, Leaves, Relocatable, IsRelativeJump, ReadsFlags, SetsFlags;
    NextIsBoundary(l, i);
    var f, x: int, p := l[i], OffsetOf(l, i), u.(eip := Wrap(tramp + OffsetOf(l, i)));
    ExecAgree(f, u, p, iset{}, false);
    SameMemory(Exec(f, u).mem, Exec(f, p).mem, iset{} - Addresses(Writes(f.insn, u)));
    if !Leaves(f.insn) {
      ExecNext(f, u);
      ExecNext(f, p);
      WrapShift(target + x, f.len);
      WrapShift(tramp + x, f.len);
    }
  }

  lemma SameMemory(m: Memory, m': Memory, t: iset<Word>)
    requires AgreeOutside(m, m', t) && t == iset{}
    ensures m == m'
  {
  }

  lemma NextIsBoundary(l: seq<Fetched>, i: nat)
    requires i < |l|
    ensures OffsetOf(l, i + 1) == OffsetOf(l, i) + l[i].len
    ensures Boundary(l, OffsetOf(l, i + 1)) && Boundary(l, OffsetOf(l, i))
  {
  }

  lemma JumpsAlike(i: Insn, u: State, p: State)
    requires IsRelativeJump(i) && u.regs == p.regs && u.flags == p.flags
    ensures Jumps(i, u) == Jumps(i, p)
  {
  }

  /** A state at instruction `i` from which a call shows, and a relative jump is taken. */
  function Revealing(i: Insn, eip: Word): State {
    var ecx := if i.Loop? && i.kind != JumpIfEcxZero then 2 else 0;
    var flags :=
      if i.Jcc? then TakingFlags(i.cc) else if i.Loop? && i.kind == LoopEqual then 0x40 else 0;
    State(Regs(0, ecx, 0, 0, 0, 0, 0, 0), flags, eip, seq(SIZE, x => 0))
  }

  function TakingFlags(cc: nat): (flags: Word)
    ensures Taken(cc, flags)
  {
    if cc % 2 == 1 then 0 else
    match cc / 2 % 8
    case 0 => 0x800
    case 1 => 1
    case 2 => 0x40
    case 3 => 1
    case 4 => 0x80
    case 5 => 4
    case 6 => 0x80
    case _ => 0x40
  }

  lemma RevealingJumps(i: Insn, eip: Word)
    requires IsRelativeJump(i)
    ensures Jumps(i, Revealing(i, eip))
  {
    hide Taken;
  }

  lemma SameMeaningIsMovable(code: seq<Byte>, l: seq<Fetched>, i: nat, target: Word, tramp: Word)
    requires Disassemble(code) == Some(l) && i < |l| && |code| < SIZE && target != tramp
    requires MeansTheSame(l, i, target, tramp)
    ensures Movable(l, i)
  {
    hide Disassemble, Exec, Boundary, Wrap, FitsInMemory, OffsetOf, SamePlace;
    var f, x: int := l[i], OffsetOf(l, i);
    var u := Revealing(f.insn, Wrap(target + x));
    var p := u.(eip := Wrap(tramp + x));
    assert DoesTheSame(l, i, target, tramp, u);
    BoundariesInside(code, l);
    hide MeansTheSame, Revealing;
    if f.insn.CallRel? || f.insn.CallRm? {
      CallShows(f, u, p);
      WrapInjective(target, tramp, x);
      assert false;
    } else if IsRelativeJump(f.insn) {
      MovableLands(l, i);
      JumpMustLand(l, i, target, tramp, u);
    }
  }

  lemma JumpMustLand(l: seq<Fetched>, i: nat, target: Word, tramp: Word, u: State)
    requires i < |l| && IsRelativeJump(l[i].insn) && target != tramp
    requires u.eip == Wrap(target + OffsetOf(l, i)) && u == Revealing(l[i].insn, u.eip) && DoesTheSame(l, i, target, tramp, u)
    requires FitsInMemory(l)
    ensures Boundary(l, Wrap(OffsetOf(l, i + 1) + l[i].insn.rel))
  {
    hide Exec, Wrap, Boundary, OffsetOf, Movable, Jumps, LoopCount, Revealing, FitsInMemory;
    NextIsBoundary(l, i);
    var f, x: int, p := l[i], OffsetOf(l, i), u.(eip := Wrap(tramp + OffsetOf(l, i)));
    var rel: int, next: int := f.insn.rel, OffsetOf(l, i + 1);
    RevealingJumps(f.insn, u.eip);
    JumpsAlike(f.insn, u, p);
    RelativeJumpIs(f, u);
    RelativeJumpIs(f, p);
    WrapShift(target + x, f.len);
    WrapShift(tramp + x, f.len);
    WrapShift(target + next, rel);
    WrapShift(tramp + next, rel);
    PlacesApart(l, target, tramp, next + rel);
  }

  lemma CallShows(f: Fetched, u: State, p: State)
    requires f.insn.CallRm? || f.insn.CallRel?
    requires u.regs == p.regs && Exec(f, u).mem == Exec(f, p).mem
    ensures u.eip == p.eip
  {
    ReplayedCallShows(f, u, p);
    CallEsp(f, u);
    CallEsp(f, p);
    hide Exec, LoadWord;
  }

  lemma CallEsp(f: Fetched, s: State)
    requires f.insn.CallRm? || f.insn.CallRel?
    ensures Exec(f, s).regs.esp == Wrap(s.regs.esp - 4)
  {
  }

  /** An instruction of moved code does the same from every state if and only if it is no call and, being a relative
      jump, lands on an instruction of the moved code or at its end. */
  lemma MeansTheSameExactlyWhen(code: seq<Byte>, l: seq<Fetched>, i: nat, target: Word, tramp: Word)
    requires Disassemble(code) == Some(l) && i < |l| && |code| < SIZE && target != tramp
    ensures MeansTheSame(l, i, target, tramp) <==> Movable(l, i)
  {
    hide MeansTheSame, Movable, Disassemble;
    if MeansTheSame(l, i, target, tramp) {
      SameMeaningIsMovable(code, l, i, target, tramp);
    }
    if Movable(l, i) {
      MovableMeansTheSame(code, l, i, target, tramp);
    }
  }

  /** What leaves by address, a register, memory or the stack, leaves for the same address from both copies. */
  lemma LeavesByAddress(f: Fetched, u: State, a: Word)
    requires f.insn.JmpRm? || f.insn.Ret?
    ensures Exec(f, u).eip == Exec(f, u.(eip := a)).eip
  {
    hide Wrap, Load, FromLE;
  }

  /** Everything else that is no call goes a distance that does not depend on where it stands. */
  lemma GoesADistance(f: Fetched, u: State, a: Word)
    requires !f.insn.JmpRm? && !f.insn.Ret? && !f.insn.CallRm? && u.eip != a
    ensures Exec(f, u).eip != Exec(f, u.(eip := a)).eip
  {
    var p := u.(eip := a);
    hide Exec, Wrap;
    WrapInjective(u.eip, a, f.len);
    if IsRelativeJump(f.insn) {
      RelativeJumpIs(f, u);
      RelativeJumpIs(f, p);
      JumpsAlike(f.insn, u, p);
      WrapInjective(Wrap(u.eip + f.len), Wrap(a + f.len), f.insn.rel);
    } else if f.insn.CallRel? {
      CallGoes(f, u);
      CallGoes(f, p);
      WrapInjective(Wrap(u.eip + f.len), Wrap(a + f.len), f.insn.rel);
    } else {
      ExecNext(f, u);
      ExecNext(f, p);
    }
  }

  lemma CallGoes(f: Fetched, s: State)
    requires f.insn.CallRel?
    ensures Exec(f, s).eip == Wrap(Wrap(s.eip + f.len) + f.insn.rel)
  {
  }
}
