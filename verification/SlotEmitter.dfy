/** Emitting a slot's trampoline into its page, byte by byte through a moving pointer. */
module SlotEmitter {
  import opened Words
  import opened Assembler
  import opened Hooks
  import opened ObserverCall
  import opened SlotCapture
  import opened VtableTrampoline

  const PAGE_SIZE := 0x1000

  /** A page from VirtualAlloc at address `tramp`, and the write pointer. */
  class Page {
    const tramp: Word
    const code: array<Byte>
    var p: nat

    ghost predicate Valid()
      reads this, code
    {
      code.Length == PAGE_SIZE && p <= PAGE_SIZE && tramp + PAGE_SIZE <= SIZE
      && forall i :: p <= i < PAGE_SIZE ==> code[i] == 0xCC
    }

    ghost function Emitted(): seq<Byte>
      reads this, code
      requires p <= code.Length
    {
      code[..p]
    }

    /** memset(tramp, 0xCC, 0x1000) */
    constructor (tramp: Word)
      requires tramp + PAGE_SIZE <= SIZE
      ensures Valid() && fresh(code) && p == 0 && this.tramp == tramp
    {
      this.tramp := tramp;
      code := new Byte[PAGE_SIZE](i => 0xCC);
      p := 0;
    }

    method W8(b: Byte)
      requires Valid() && p < PAGE_SIZE
      modifies this`p, code
      ensures Valid() && p == old(p) + 1 && Emitted() == old(Emitted()) + [b]
    {
      code[p] := b;
      p := p + 1;
    }

    method W32(v: Word)
      requires Valid() && p + 4 <= PAGE_SIZE
      modifies this`p, code
      ensures Valid() && p == old(p) + 4 && Emitted() == old(Emitted()) + LE(v)
    {
      W8(v % 256);
      W8(v / 0x100 % 256);
      W8(v / 0x1_0000 % 256);
      W8(v / 0x100_0000);
    }

    /** The bytes of one instruction. */
    method Put(c: Chunk, ghost done: Program)
      requires Valid() && p + |c.bytes| <= PAGE_SIZE
      requires Emitted() == Flat(done)
      modifies this`p, code
      ensures Valid() && p == old(p) + |c.bytes| && Emitted() == Flat(done + [c])
    {
      var i := 0;
      while i < |c.bytes|
        invariant 0 <= i <= |c.bytes|
        invariant Valid() && p == old(p) + i
        invariant Emitted() == Flat(done) + c.bytes[..i]
      {
        W8(c.bytes[i]);
        i := i + 1;
      }
      assert c.bytes[..i] == c.bytes;
      assert (done + [c])[..|done|] == done;
    }

    /** E8 with the displacement from the end of the instruction, taken from the write pointer. */
    method EmitCallRel(target: Word, ghost done: Program)
      requires Valid() && p + 5 <= PAGE_SIZE
      requires Emitted() == Flat(done)
      modifies this`p, code
      ensures Valid() && p == old(p) + 5
      ensures Emitted() == Flat(done + [CallTo(Wrap(tramp + old(p)), target)])
    {
      ghost var from: int := Wrap(tramp + p);
      ghost var call := CallTo(from, target);
      assert from == tramp + p;
      hide Wrap, LE;
      W8(0xE8);
      W32(Wrap(target - (tramp + p + 4)));
      assert call.bytes == [0xE8] + LE(Wrap(target - (from + 5)));
      assert Emitted() == Flat(done) + call.bytes;
      assert (done + [call])[..|done|] == done;
    }

    method EmitTwo(c: Chunk, d: Chunk, ghost done: Program)
      requires Valid() && p + |c.bytes| + |d.bytes| <= PAGE_SIZE
      requires Emitted() == Flat(done)
      modifies this`p, code
      ensures Valid() && p == old(p) + |c.bytes| + |d.bytes| && Emitted() == Flat(done + [c, d])
    {
      hide Flat;
      Put(c, done);
      Put(d, done + [c]);
      assert done + [c] + [d] == done + [c, d];
    }

    /** pushad; pushfd; push; call observer; add esp,4; popfd; popad */
    method EmitObserve(push: Chunk, target: Word, ghost done: Program)
      requires Valid() && p + 12 + |push.bytes| <= PAGE_SIZE
      requires Emitted() == Flat(done)
      modifies this`p, code
      ensures Valid() && p == old(p) + 12 + |push.bytes|
      ensures Emitted() == Flat(done + Observe(Wrap(tramp + old(p)), push, target))
    {
      hide Flat;
      ghost var a := Wrap(tramp + p);
      EmitEnter(push, target, done);
      ghost var entered := done + Enter(a, push, target);
      EmitTwo(RESTORE[0], RESTORE[1], entered);
      Put(RESTORE[2], entered + [RESTORE[0], RESTORE[1]]);
      assert entered + [RESTORE[0], RESTORE[1]] + [RESTORE[2]] == done + Observe(a, push, target);
    }

    method EmitEnter(push: Chunk, target: Word, ghost done: Program)
      requires Valid() && p + 7 + |push.bytes| <= PAGE_SIZE
      requires Emitted() == Flat(done)
      modifies this`p, code
      ensures Valid() && p == old(p) + 7 + |push.bytes|
      ensures Emitted() == Flat(done + Enter(Wrap(tramp + old(p)), push, target))
    {
      hide Flat;
      ghost var a := Wrap(tramp + p);
      WrapShift(tramp + p, 2 + |push.bytes|);
      EmitTwo(SAVE[0], SAVE[1], done);
      Put(push, done + [SAVE[0], SAVE[1]]);
      ghost var pushed := done + [SAVE[0], SAVE[1]] + [push];
      EmitCallRel(target, pushed);
      assert pushed + [Enter(a, push, target)[3]] == done + Enter(a, push, target);
    }

    /** pop eax; the saves of the return address, ECX and EDX */
    method EmitEntry(cells: Word)
      requires Valid() && p == 0
      modifies this`p, code
      ensures Valid() && p == 18 && Emitted() == Flat(Entry(cells))
    {
      ghost var none: Program := [];
      assert Flat(none) == [];
      hide Flat, Cell, LE;
      var e := Entry(cells);
      EmitTwo(e[0], e[1], none);
      EmitTwo(e[2], e[3], none + [e[0], e[1]]);
      assert none + [e[0], e[1]] + [e[2], e[3]] == e;
    }

    /** The saves and the eight-word copy loop. */
    method EmitCapture(cells: Word)
      requires Valid() && p == 0
      modifies this`p, code
      ensures Valid() && p == OBSERVE_BEFORE && Emitted() == Flat(Capture(cells))
    {
      hide Flat, Cell, Entry, LE;
      EmitEntry(cells);
      ghost var e := Entry(cells);
      assert e == e + CopyArgs(cells, 0);
      var i := 0;
      while i < MAX_ARGS
        invariant 0 <= i <= MAX_ARGS
        invariant Valid() && p == 18 + if i == 0 then 0 else 9 * i - 1
        invariant Emitted() == Flat(e + CopyArgs(cells, i))
      {
        EmitTwo(LoadArg(i), StoreEax(Cell(cells, ARGS + 4 * i)), e + CopyArgs(cells, i));
        assert e + CopyArgs(cells, i) + [LoadArg(i), StoreEax(Cell(cells, ARGS + 4 * i))] == e + CopyArgs(cells, i + 1);
        i := i + 1;
      }
    }

    /** The whole trampoline of slot `k`; the rest of the page stays filled with breakpoints. */
    method EmitSlot(k: Slot)
      requires Valid() && p == 0 && k.base == tramp
      modifies this`p, code
      ensures Valid() && Emitted() == Flat(SlotProgram(k))
    {
      hide Flat, Cell, Capture, Observe;
      EmitCapture(k.cells);
      ghost var done := Capture(k.cells);
      EmitObserve(k.Push(), k.before, done);
      done := done + ObserveBefore(k);
      EmitTwo(Forward(k)[0], Forward(k)[1], done);
      assert [Forward(k)[0], Forward(k)[1]] == Forward(k);
      done := done + Forward(k);
      EmitTwo(Record(k)[0], Record(k)[1], done);
      assert [Record(k)[0], Record(k)[1]] == Record(k);
      done := done + Record(k);
      EmitObserve(k.Push(), k.after, done);
      done := done + ObserveAfter(k);
      EmitTwo(Leave(k)[0], Leave(k)[1], done);
      assert [Leave(k)[0], Leave(k)[1]] == Leave(k);
    }
  }
}
