/** Overwriting the code of the running process: single patches and the batch installers. */
module Patch {
  import opened Words
  import opened Hooks

  datatype JmpHookEntry = JmpHookEntry(offset: Word, callback: Word, stolen: seq<Byte>)
  datatype CallHookEntry = CallHookEntry(offset: Word, target: Word)
  datatype NopPatchEntry = NopPatchEntry(offset: Word, count: nat)

  lemma StoreAppend(m: Memory, a: Word, x: seq<Byte>, y: seq<Byte>)
    requires |x| + |y| <= SIZE
    ensures Store(Store(m, a, x), Wrap(a + |x|), y) == Store(m, a, x + y)
  {
    var l, r := Store(Store(m, a, x), Wrap(a + |x|), y), Store(m, a, x + y);
    forall i | 0 <= i < SIZE ensures l[i] == r[i] {
      StoreAppendAt(m, a, x, y, i);
    }
  }

  lemma StoreAppendAt(m: Memory, a: Word, x: seq<Byte>, y: seq<Byte>, i: Word)
    requires |x| + |y| <= SIZE
    ensures Store(Store(m, a, x), Wrap(a + |x|), y)[i] == Store(m, a, x + y)[i]
  {
    hide Wrap;
    var e := Wrap(i - a);
    assert Wrap(i - Wrap(a + |x|)) == if e >= |x| then e - |x| else e - |x| + SIZE by {
      WrapShift(a + |x|, i);
      Tail(i - a, |x|);
    }
  }

  lemma Tail(e: int, n: nat)
    requires n <= SIZE
    ensures Wrap(e - n) == if Wrap(e) >= n then Wrap(e) - n else Wrap(e) - n + SIZE
  {
    var k := e / SIZE;
    assert e == SIZE * k + Wrap(e);
  }

  /** The hook an entry becomes once VirtualAlloc has answered `grant` (0 when it failed). */
  function HookOf(base: Word, e: JmpHookEntry, grant: Word): Hook {
    Hook(Wrap(base + e.offset), e.stolen, e.callback, grant)
  }

  function HooksOf(base: Word, es: seq<JmpHookEntry>, grants: seq<Word>): (hs: seq<Hook>)
    requires |grants| == |es|
  {
    seq(|es|, i requires 0 <= i < |es| => HookOf(base, es[i], grants[i]))
  }

  /** Jump and NOP padding over the site; the jump takes five bytes whatever the count. */
  function Overwrite(h: Hook): seq<Byte> {
    Branch(0xE9, h.site, h.tramp) + if |h.stolen| > 5 then Nops(|h.stolen| - 5) else []
  }

  function InstallOne(m: Memory, h: Hook): Memory {
    var withTramp := if h.tramp == 0 then m else Store(m, h.tramp, TrampolineBytes(h));
    Store(withTramp, h.site, Overwrite(h))
  }

  function InstallAll(m: Memory, hs: seq<Hook>): Memory {
    if hs == [] then m else InstallOne(InstallAll(m, hs[..|hs| - 1]), hs[|hs| - 1])
  }

  function CallsInstalled(m: Memory, base: Word, es: seq<CallHookEntry>): Memory {
    if es == [] then m else
    var e := es[|es| - 1];
    var site := Wrap(base + e.offset);
    Store(CallsInstalled(m, base, es[..|es| - 1]), site, Branch(0xE8, site, e.target))
  }

  function NopsInstalled(m: Memory, base: Word, es: seq<NopPatchEntry>): Memory {
    if es == [] then m else
    var e := es[|es| - 1];
    Store(NopsInstalled(m, base, es[..|es| - 1]), Wrap(base + e.offset), Nops(e.count))
  }

  lemma LastBranch(code: Word, n: nat, returnAddr: Word, rel: Word)
    requires rel == Wrap(returnAddr - (code + 16 + n + 1 + 4))
    ensures [0xE9] + LE(rel) == Branch(0xE9, Wrap(code + PROLOGUE + n), returnAddr)
  {
    WrapShift(code + 16 + n, returnAddr - 5);
  }

  /** `bytes` stand from `a` on, round the end of the address space if need be; every other byte is as it was. */
  ghost predicate Written(m: Memory, m': Memory, a: Word, bytes: seq<Byte>) {
    forall x: Word :: m'[x] == if In(x, Span(a, |bytes|)) then bytes[Wrap(x - a)] else m[x]
  }

  lemma WrittenIsStore(m: Memory, m': Memory, a: Word, bytes: seq<Byte>)
    requires Written(m, m', a, bytes)
    ensures m' == Store(m, a, bytes)
  {
  }

  /** The address space of the game process, written in place. */
  class Process {
    var mem: Memory

    method WriteMemory(address: Word, bytes: seq<Byte>)
      modifies this
      ensures Written(old(mem), mem, address, bytes)
      ensures |bytes| <= SIZE ==> Load(mem, address, |bytes|) == bytes
    {
      mem := Store(mem, address, bytes);
      if |bytes| <= SIZE {
        LoadStored(old(mem), address, bytes);
      }
    }

    /** One opcode byte, then the four displacement bytes. */
    method PatchBranch(opcode: Byte, base: Word, offset: Word, target: Word)
      modifies this
      ensures mem == Store(old(mem), Wrap(base + offset), Branch(opcode, Wrap(base + offset), target))
    {
      var site: int := Wrap(base + offset);
      var relative := Wrap(target - (site + 1 + 4));
      hide Store, Written, LE;
      ghost var before := mem;
      WriteMemory(site, [opcode]);
      WrittenIsStore(before, mem, site, [opcode]);
      ghost var half := mem;
      WriteMemory(Wrap(site + 1), LE(relative));
      WrittenIsStore(half, mem, Wrap(site + 1), LE(relative));
      StoreAppend(old(mem), site, [opcode], LE(relative));
    }

    method HookCall(base: Word, offset: Word, target: Word)
      modifies this
      ensures mem == Store(old(mem), Wrap(base + offset), Branch(0xE8, Wrap(base + offset), target))
    {
      PatchBranch(0xE8, base, offset, target);
    }

    method PatchJmp(base: Word, offset: Word, target: Word)
      modifies this
      ensures mem == Store(old(mem), Wrap(base + offset), Branch(0xE9, Wrap(base + offset), target))
    {
      PatchBranch(0xE9, base, offset, target);
    }

    method PatchNop(base: Word, offset: Word, count: nat)
      modifies this
      ensures mem == Store(old(mem), Wrap(base + offset), Nops(count))
    {
      var nops := new Byte[count];
      var i := 0;
      while i < count
        invariant 0 <= i <= count && mem == old(mem)
        invariant nops[..i] == Nops(i)
      {
        nops[i] := 0x90;
        i := i + 1;
      }
      assert nops[..] == Nops(count);
      hide Written, Store;
      WriteMemory(Wrap(base + offset), nops[..]);
      WrittenIsStore(old(mem), mem, Wrap(base + offset), Nops(count));
    }

    /** `code[p++] = ...` for the bytes of one instruction. */
    method Emit(code: Word, p: nat, bytes: seq<Byte>, ghost before: Memory, ghost done: seq<Byte>) returns (q: nat)
      requires |done| == p && p + |bytes| <= SIZE
      requires mem == Store(before, code, done)
      modifies this
      ensures q == p + |bytes|
      ensures mem == Store(before, code, done + bytes)
    {
      hide Written, Store;
      StoreAppend(before, code, done, bytes);
      WriteMemory(Wrap(code + p), bytes);
      WrittenIsStore(old(mem), mem, Wrap(code + p), bytes);
      q := p + |bytes|;
    }

    /** pushad; lea eax,[esp]; push eax; mov eax,callback; call eax */
    method EmitCall(code: Word, callback: Word) returns (p: nat)
      modifies this
      ensures p == 12 && mem == Store(old(mem), code, CallPart(callback))
    {
      ghost var before, first := mem, [0x60 as Byte];
      assert Store(before, code, []) == before;
      hide Store, Wrap, LE;
      assert [] + first == first;
      p := Emit(code, 0, [0x60], before, []);
      p := Emit(code, p, [0x8D, 0x04, 0x24], before, first);
      p := Emit(code, p, [0x50], before, first + [0x8D, 0x04, 0x24]);
      p := Emit(code, p, [0xB8] + LE(callback), before, first + [0x8D, 0x04, 0x24] + [0x50]);
      p := Emit(code, p, [0xFF, 0xD0], before, first + [0x8D, 0x04, 0x24] + [0x50] + ([0xB8] + LE(callback)));
    }

    /** `code` is VirtualAlloc's answer; nothing is written when the allocation failed. */
    method GenerateTrampoline(code: Word, returnAddr: Word, stolen: seq<Byte>, callback: Word) returns (tramp: Word)
      requires |stolen| + 21 <= SIZE
      modifies this
      ensures tramp == code
      ensures mem == if code == 0 then old(mem)
                     else Store(old(mem), code, TrampolineCode(code, returnAddr, stolen, callback))
    {
      if code == 0 {
        return 0;
      }
      hide Store, Wrap, LE, CallPart, Branch;
      ghost var before, done := mem, CallPart(callback);
      var p := EmitCall(code, callback);
      p := Emit(code, p, [0x83, 0xC4, 0x04, 0x61], before, done);
      p := Emit(code, p, stolen, before, done + RESTORE_PART);
      var rel := Wrap(returnAddr - (code + p + 1 + 4));
      LastBranch(code, |stolen|, returnAddr, rel);
      p := Emit(code, p, [0xE9] + LE(rel), before, done + RESTORE_PART + stolen);
      return code;
    }

    method InstallCallHooks(base: Word, entries: seq<CallHookEntry>)
      modifies this
      ensures mem == CallsInstalled(old(mem), base, entries)
    {
      var i := 0;
      while i < |entries|
        invariant 0 <= i <= |entries|
        invariant mem == CallsInstalled(old(mem), base, entries[..i])
      {
        HookCall(base, entries[i].offset, entries[i].target);
        i := i + 1;
        assert entries[..i][..i - 1] == entries[..i - 1];
      }
      assert entries[..i] == entries;
    }

    /** The NOP padding past the five bytes of the jump, one byte at a time. */
    method PadSite(site: Word, count: nat, ghost before: Memory, ghost jump: seq<Byte>)
      requires |jump| == 5 && count < SIZE
      requires mem == Store(before, site, jump)
      modifies this
      ensures mem == Store(before, site, jump + if count > 5 then Nops(count - 5) else [])
    {
      if count > 5 {
        hide Written, Store;
        var j := 5;
        assert jump + Nops(0) == jump;
        while j < count
          invariant 5 <= j <= count
          invariant mem == Store(before, site, jump + Nops(j - 5))
        {
          ghost var m := mem;
          WriteMemory(Wrap(site + j), [0x90]);
          WrittenIsStore(m, mem, Wrap(site + j), [0x90]);
          StoreAppend(before, site, jump + Nops(j - 5), [0x90]);
          assert jump + Nops(j - 5) + [0x90] == jump + Nops(j + 1 - 5);
          j := j + 1;
        }
      } else {
        assert jump + [] == jump;
      }
    }

    /** `grants` are the answers of VirtualAlloc, in order. */
    method InstallJmpHooks(base: Word, entries: seq<JmpHookEntry>, grants: seq<Word>)
      requires |grants| == |entries|
      requires forall i :: 0 <= i < |entries| ==> |entries[i].stolen| + 21 <= SIZE
      modifies this
      ensures mem == InstallAll(old(mem), HooksOf(base, entries, grants))
    {
      hide Store, Branch, Wrap;
      ghost var hs := HooksOf(base, entries, grants);
      var i := 0;
      while i < |entries|
        invariant 0 <= i <= |entries|
        invariant mem == InstallAll(old(mem), hs[..i])
      {
        ghost var before, h := mem, hs[i];
        var hookAddr := Wrap(base + entries[i].offset);
        var returnAddr := Wrap(hookAddr + |entries[i].stolen|);
        var tramp := GenerateTrampoline(grants[i], returnAddr, entries[i].stolen, entries[i].callback);
        ghost var withTramp := mem;
        assert withTramp == if h.tramp == 0 then before else Store(before, h.tramp, TrampolineBytes(h));
        PatchJmp(base, entries[i].offset, tramp);
        PadSite(hookAddr, |entries[i].stolen|, withTramp, Branch(0xE9, hookAddr, tramp));
        i := i + 1;
        assert hs[..i][..i - 1] == hs[..i - 1];
      }
      assert hs[..i] == hs;
    }

    method InstallNopPatches(base: Word, entries: seq<NopPatchEntry>)
      modifies this
      ensures mem == NopsInstalled(old(mem), base, entries)
    {
      var i := 0;
      while i < |entries|
        invariant 0 <= i <= |entries|
        invariant mem == NopsInstalled(old(mem), base, entries[..i])
      {
        PatchNop(base, entries[i].offset, entries[i].count);
        i := i + 1;
        assert entries[..i][..i - 1] == entries[..i - 1];
      }
      assert entries[..i] == entries;
    }
  }
}
