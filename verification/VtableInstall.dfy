/** Replacing the words of the main vtable and of two sub-object vtables, which may overlap in any way. */
module VtableInstall {
  import opened Words
  import opened Machine
  import opened SlotPlaces

  const DWORDS := 0x4000_0000

  /** The dwords of the process; the dword at an aligned address `a` has index `a / 4`. */
  type Dwords = s: seq<Word> | |s| == DWORDS witness seq(DWORDS, i => 0)

  function Index(pointer: Word, k: nat): nat {
    (pointer / 4 + k) % DWORDS
  }

  /** What Windows answers: the trampoline pages (0 for a failed VirtualAlloc), VirtualProtect, IsBadReadPtr. */
  datatype Answers = Answers(pages: seq<Word>, protectMain: bool, protectSub: seq<bool>, readable: set<Word>)

  /** Fresh pages are distinct and lie outside the module image. */
  ghost predicate FreshPages(a: Answers, lo: Word, hi: int) {
    && |a.pages| == TRAMPOLINES && |a.protectSub| == NUM_SUBS
    && (forall i, j :: 0 <= i < j < |a.pages| && a.pages[i] != 0 ==> a.pages[i] != a.pages[j])
    && (forall i :: 0 <= i < |a.pages| && a.pages[i] != 0 ==> !(lo <= a.pages[i] < hi))
  }

  /** `owner` names, for each replaced word, the trampoline now in it. */
  type Owners = map<nat, nat>

  /** Every word is original, or holds one trampoline of its own whose saved target is the original. */
  ghost predicate WrappedOnce(now: Dwords, orig: Dwords, pages: seq<Word>, target: map<nat, Word>, owner: Owners) {
    && (forall i :: i in owner ==> i < DWORDS && owner[i] < |pages| && pages[owner[i]] != 0 && owner[i] in target)
    && (forall i :: 0 <= i < DWORDS && i !in owner ==> now[i] == orig[i])
    && (forall i :: i in owner ==> now[i] == pages[owner[i]] && target[owner[i]] == orig[i])
    && (forall i, j :: i in owner && j in owner && owner[i] == owner[j] ==> i == j)
  }

  /** A word that holds an address inside the image is still original. */
  lemma InImageIsOriginal(now: Dwords, orig: Dwords, a: Answers, lo: Word, hi: int, target: map<nat, Word>, owner: Owners, i: nat)
    requires FreshPages(a, lo, hi) && WrappedOnce(now, orig, a.pages, target, owner)
    requires i < DWORDS && lo <= now[i] < hi
    ensures i !in owner && now[i] == orig[i]
  {
  }

  lemma WrapOne(now: Dwords, orig: Dwords, pages: seq<Word>, target: map<nat, Word>, owner: Owners, i: nat, id: nat)
    requires WrappedOnce(now, orig, pages, target, owner)
    requires i < DWORDS && i !in owner && id < |pages| && pages[id] != 0
    requires forall k :: k in owner ==> owner[k] != id
    ensures WrappedOnce(now[i := pages[id]], orig, pages, target[id := orig[i]], owner[i := id])
  {
  }

  lemma NothingWrapped(now: Dwords, pages: seq<Word>, target: map<nat, Word>)
    ensures WrappedOnce(now, now, pages, target, map[])
  {
  }

  /** Saving the target of a trampoline that is in no word yet disturbs nothing. */
  lemma Retarget(now: Dwords, orig: Dwords, pages: seq<Word>, target: map<nat, Word>, owner: Owners, id: nat, w: Word)
    requires WrappedOnce(now, orig, pages, target, owner)
    requires forall k :: k in owner ==> owner[k] != id
    ensures WrappedOnce(now, orig, pages, target[id := w], owner)
  {
  }

  /** The first `count` words of a table hold the trampolines from `first` on, where those were allocated;
      no other word has changed. */
  ghost predicate Replaced(w: Dwords, w': Dwords, table: Word, pages: seq<Word>, first: nat, count: nat)
    requires first + count <= |pages|
  {
    && (forall s :: 0 <= s < count && pages[first + s] != 0 ==> w'[Index(table, s)] == pages[first + s])
    && (forall i :: 0 <= i < DWORDS && !Hit(table, pages, first, count, i) ==> w'[i] == w[i])
  }

  /** Word `i` is one of those that get a trampoline. */
  ghost predicate Hit(table: Word, pages: seq<Word>, first: nat, count: nat, i: int)
    requires first + count <= |pages|
  {
    exists s :: 0 <= s < count && pages[first + s] != 0 && i == Index(table, s)
  }

  /** Each of those words belongs to the trampoline that was allocated for it. */
  ghost predicate Owned(owner: Owners, table: Word, pages: seq<Word>, first: nat, count: nat)
    requires first + count <= |pages|
  {
    forall s :: 0 <= s < count && pages[first + s] != 0 ==> Index(table, s) in owner && owner[Index(table, s)] == first + s
  }

  /** No trampoline that is in a word leaves it. */
  ghost predicate Grows(owner: Owners, owner': Owners) {
    forall i :: i in owner ==> i in owner' && owner'[i] == owner[i]
  }

  lemma GrowsOn(a: Owners, b: Owners, c: Owners)
    requires Grows(a, b) && Grows(b, c)
    ensures Grows(a, c)
  {
  }

  /** No trampoline from number `n` on is in a word. */
  ghost predicate UsedBelow(owner: Owners, n: nat) {
    forall i :: i in owner ==> owner[i] < n
  }

  lemma BelowNext(owner: Owners, m: nat, n: nat)
    requires UsedBelow(owner, m) && m <= n
    ensures UsedBelow(owner, n)
  {
  }

  lemma OneMoreOwned(owner: Owners, table: Word, pages: seq<Word>, first: nat, count: nat)
    requires first + count < |pages| && count < SUB_SLOTS && Owned(owner, table, pages, first, count)
    ensures var page := pages[first + count];
            Owned(if page != 0 then owner[Index(table, count) := first + count] else owner, table, pages, first, count + 1)
  {
    forall s | 0 <= s < count ensures Index(table, s) != Index(table, count) {
      IndexInjective(table, s, count);
    }
    hide Index;
  }

  lemma NoneReplaced(w: Dwords, table: Word, pages: seq<Word>, first: nat)
    requires first <= |pages|
    ensures Replaced(w, w, table, pages, first, 0)
  {
  }

  lemma HitGrows(table: Word, pages: seq<Word>, first: nat, count: nat, i: int)
    requires first + count < |pages|
    ensures Hit(table, pages, first, count + 1, i) <==>
              Hit(table, pages, first, count, i) || (pages[first + count] != 0 && i == Index(table, count))
  {
    hide Index;
  }

  lemma OneMoreReplaced(w: Dwords, w': Dwords, table: Word, pages: seq<Word>, first: nat, count: nat)
    requires first + count < |pages| && count < SUB_SLOTS && Replaced(w, w', table, pages, first, count)
    ensures Index(table, count) < DWORDS && w'[Index(table, count)] == w[Index(table, count)]
    ensures var page := pages[first + count];
            Replaced(w, if page != 0 then w'[Index(table, count) := page] else w', table, pages, first, count + 1)
  {
    var here, page := Index(table, count), pages[first + count];
    IndexInside(table, count);
    forall s | 0 <= s < count ensures Index(table, s) != here {
      IndexInjective(table, s, count);
    }
    hide Index;
    var w'' := if page != 0 then w'[here := page] else w';
    forall i ensures Hit(table, pages, first, count + 1, i) <==> Hit(table, pages, first, count, i) || (page != 0 && i == here) {
      HitGrows(table, pages, first, count, i);
    }
    assert forall i :: 0 <= i < DWORDS && !Hit(table, pages, first, count + 1, i) ==> w''[i] == w[i];
    forall s | 0 <= s < count + 1 && pages[first + s] != 0 ensures w''[Index(table, s)] == pages[first + s] {
      IndexInside(table, s);
    }
  }

  /** A sub-vtable is walked up to its first word that points outside the image, or to its sixteenth word. */
  ghost predicate StopsAt(w: Dwords, table: Word, lo: Word, hi: int, stop: nat) {
    && stop <= SUB_SLOTS
    && (forall s :: 0 <= s < stop ==> lo <= w[Index(table, s)] < hi)
    && (stop < SUB_SLOTS ==> !(lo <= w[Index(table, stop)] < hi))
  }

  /** The table of sub-object `sub`, if it is there, can be read and could be unlocked. */
  function SubTable(w: Dwords, obj: Word, sub: nat, a: Answers): Option<Word>
    requires sub < |a.protectSub|
  {
    var subObj := w[Index(obj, if sub == 0 then 3 else 4)];
    if subObj == 0 || subObj !in a.readable then None
    else
      var subVt := w[Index(subObj, 0)];
      if subVt == 0 || subVt !in a.readable || !a.protectSub[sub] then None else Some(subVt)
  }

  /** A word of a table at an aligned address is the dword four bytes on for each slot. */
  lemma IndexIsAddress(pointer: Word, k: nat)
    requires pointer % 4 == 0
    ensures 4 * Index(pointer, k) == Wrap(pointer + 4 * k)
  {
    var q := pointer / 4 + k;
    assert pointer + 4 * k == 4 * q && q == DWORDS * (q / DWORDS) + q % DWORDS;
    WrapIs(pointer + 4 * k, q / DWORDS, 4 * (q % DWORDS));
  }

  /** The sub-objects are those whose addresses the object holds at +0Ch and +10h, and their tables are what they begin
      with; a null, unreadable or locked one is none. */
  lemma SubTableExactlyWhen(w: Dwords, obj: Word, sub: nat, a: Answers, table: Word)
    requires sub < NUM_SUBS == |a.protectSub| && obj % 4 == 0
    ensures SubTable(w, obj, sub, a) == Some(table) <==>
              var subObj: int := w[Wrap(obj + if sub == 0 then 0x0C else 0x10) / 4];
              && subObj != 0 && subObj in a.readable && table == w[subObj / 4]
              && table != 0 && table in a.readable && a.protectSub[sub]
  {
    IndexIsAddress(obj, 3);
    IndexIsAddress(obj, 4);
    hide Wrap;
  }

  /** What the pass over one sub-object does to the words as they stand. */
  ghost predicate SubHooked(w: Dwords, w': Dwords, owner: Owners, obj: Word, sub: nat, a: Answers, lo: Word, hi: int)
    requires sub < NUM_SUBS && |a.pages| == TRAMPOLINES && |a.protectSub| == NUM_SUBS
  {
    match SubTable(w, obj, sub, a)
    case None => w' == w
    case Some(table) =>
      exists stop: nat :: StopsAt(w, table, lo, hi, stop) && Replaced(w, w', table, a.pages, SubId(sub, 0), stop) &&
                          Owned(owner, table, a.pages, SubId(sub, 0), stop)
  }

  lemma StillSubHooked(w: Dwords, w': Dwords, owner: Owners, owner': Owners, obj: Word, sub: nat, a: Answers, lo: Word, hi: int)
    requires sub < NUM_SUBS && |a.pages| == TRAMPOLINES && |a.protectSub| == NUM_SUBS
    requires SubHooked(w, w', owner, obj, sub, a, lo, hi) && Grows(owner, owner')
    ensures SubHooked(w, w', owner', obj, sub, a, lo, hi)
  {
    hide Replaced, Index;
    if SubTable(w, obj, sub, a).Some? {
      var table := SubTable(w, obj, sub, a).value;
      var stop: nat :| StopsAt(w, table, lo, hi, stop) && Replaced(w, w', table, a.pages, SubId(sub, 0), stop) &&
                       Owned(owner, table, a.pages, SubId(sub, 0), stop);
      assert Owned(owner', table, a.pages, SubId(sub, 0), stop);
    }
  }

  /** The trampolines in place are those of the first `count` slots, each in its own word. */
  ghost predicate OwnersIn(owner: Owners, table: Word, count: nat) {
    forall i :: i in owner ==> owner[i] < count && i == Index(table, owner[i])
  }

  class TerSafe {
    var words: Dwords
    /** g_real_vt, then g_real_sub row by row: the pointers the trampolines call through */
    const realMethods: array<Word>
    ghost var owner: Owners

    ghost function Targets(): map<nat, Word>
      reads realMethods
    {
      map id | 0 <= id < realMethods.Length :: realMethods[id]
    }

    constructor (words: Dwords)
      ensures this.words == words && realMethods.Length == TRAMPOLINES && owner == map[] && fresh(realMethods)
    {
      this.words := words;
      realMethods := new Word[TRAMPOLINES](i => 0);
      owner := map[];
    }

    /** One word replaced by trampoline `id`, whose target has just been saved. */
    method Replace(i: nat, id: nat, pages: seq<Word>, ghost orig: Dwords)
      requires realMethods.Length == TRAMPOLINES == |pages| && i < DWORDS && id < TRAMPOLINES && pages[id] != 0
      requires WrappedOnce(words, orig, pages, Targets(), owner)
      requires i !in owner && realMethods[id] == orig[i]
      requires forall k :: k in owner ==> owner[k] != id
      modifies this
      ensures words == old(words)[i := pages[id]] && owner == old(owner)[i := id] && Grows(old(owner), owner)
      ensures WrappedOnce(words, orig, pages, Targets(), owner)
    {
      WrapOne(words, orig, pages, Targets(), owner, i, id);
      assert Targets()[id := orig[i]] == Targets();
      words := words[i := pages[id]];
      owner := owner[i := id];
    }

    /** All six targets are saved before the first word changes. */
    method SaveMain(vtable: Word)
      requires realMethods.Length == TRAMPOLINES
      modifies realMethods
      ensures forall s :: 0 <= s < NUM_SLOTS ==> realMethods[s] == words[Index(vtable, s)]
    {
      var i := 0;
      while i < NUM_SLOTS
        invariant 0 <= i <= NUM_SLOTS
        invariant forall s :: 0 <= s < i ==> realMethods[s] == words[Index(vtable, s)]
      {
        realMethods[i] := words[Index(vtable, i)];
        i := i + 1;
      }
    }

    method HookMain(vtable: Word, a: Answers, lo: Word, hi: int)
      requires realMethods.Length == TRAMPOLINES && FreshPages(a, lo, hi)
      requires owner == map[]
      requires forall s :: 0 <= s < NUM_SLOTS ==> realMethods[s] == words[Index(vtable, s)]
      modifies this
      ensures WrappedOnce(words, old(words), a.pages, Targets(), owner)
      ensures UsedBelow(owner, NUM_SLOTS)
      ensures Replaced(old(words), words, vtable, a.pages, 0, NUM_SLOTS) && Owned(owner, vtable, a.pages, 0, NUM_SLOTS)
    {
      NothingWrapped(words, a.pages, Targets());
      NoneReplaced(words, vtable, a.pages, 0);
      hide Index, WrappedOnce, Targets, Replaced;
      assert |a.pages| == TRAMPOLINES;
      hide FreshPages;
      assert Owned(owner, vtable, a.pages, 0, 0);
      hide Owned;
      var slot := 0;
      while slot < NUM_SLOTS
        invariant 0 <= slot <= NUM_SLOTS
        invariant WrappedOnce(words, old(words), a.pages, Targets(), owner)
        invariant OwnersIn(owner, vtable, slot)
        invariant Replaced(old(words), words, vtable, a.pages, 0, slot) && Owned(owner, vtable, a.pages, 0, slot)
      {
        HookMainSlot(slot, vtable, a, old(words));
        slot := slot + 1;
      }
    }

    method HookMainSlot(slot: nat, vtable: Word, a: Answers, ghost orig: Dwords)
      requires slot < NUM_SLOTS && realMethods.Length == TRAMPOLINES == |a.pages|
      requires WrappedOnce(words, orig, a.pages, Targets(), owner) && OwnersIn(owner, vtable, slot)
      requires Replaced(orig, words, vtable, a.pages, 0, slot) && Owned(owner, vtable, a.pages, 0, slot)
      requires realMethods[slot] == orig[Index(vtable, slot)]
      modifies this
      ensures WrappedOnce(words, orig, a.pages, Targets(), owner) && OwnersIn(owner, vtable, slot + 1)
      ensures Replaced(orig, words, vtable, a.pages, 0, slot + 1) && Owned(owner, vtable, a.pages, 0, slot + 1)
    {
      hide Index, WrappedOnce, Targets, Replaced, Owned;
      OneMoreOwned(owner, vtable, a.pages, 0, slot);
      OneMoreReplaced(orig, words, vtable, a.pages, 0, slot);
      forall s: nat | s < slot ensures Index(vtable, s) != Index(vtable, slot) {
        IndexInjective(vtable, s, slot);
      }
      if a.pages[slot] != 0 {
        Replace(Index(vtable, slot), slot, a.pages, orig);
      }
    }

    /** Where the walk over a sub-vtable stands when its first `slot` words have been replaced. */
    ghost predicate Walked(before: Dwords, ownerBefore: Owners, sub: nat, slot: nat, table: Word, a: Answers, lo: Word, hi: int, orig: Dwords)
      reads this, realMethods
    {
      && realMethods.Length == TRAMPOLINES && |a.pages| == TRAMPOLINES && sub < NUM_SUBS && slot <= SUB_SLOTS
      && WrappedOnce(words, orig, a.pages, Targets(), owner) && UsedBelow(owner, SubId(sub, slot))
      && (forall s :: 0 <= s < slot ==> lo <= before[Index(table, s)] < hi)
      && Replaced(before, words, table, a.pages, SubId(sub, 0), slot)
      && Owned(owner, table, a.pages, SubId(sub, 0), slot) && Grows(ownerBefore, owner)
    }

    /** Walk one sub-vtable until a word points outside the image. */
    method HookSub(sub: nat, table: Word, a: Answers, lo: Word, hi: int, ghost orig: Dwords) returns (ghost stop: nat)
      requires sub < NUM_SUBS && realMethods.Length == TRAMPOLINES && FreshPages(a, lo, hi)
      requires WrappedOnce(words, orig, a.pages, Targets(), owner)
      requires UsedBelow(owner, SubId(sub, 0))
      modifies this, realMethods
      ensures WrappedOnce(words, orig, a.pages, Targets(), owner)
      ensures UsedBelow(owner, SubId(sub + 1, 0))
      ensures stop <= SUB_SLOTS && StopsAt(old(words), table, lo, hi, stop)
      ensures Replaced(old(words), words, table, a.pages, SubId(sub, 0), stop)
      ensures Owned(owner, table, a.pages, SubId(sub, 0), stop) && Grows(old(owner), owner)
    {
      NoneReplaced(words, table, a.pages, SubId(sub, 0));
      hide Index, WrappedOnce, Replaced, Targets;
      assert Walked(words, owner, sub, 0, table, a, lo, hi, orig);
      stop := WalkSub(sub, table, a, lo, hi, orig);
      BelowNext(owner, SubId(sub, stop), SubId(sub + 1, 0));
    }

    method WalkSub(sub: nat, table: Word, a: Answers, lo: Word, hi: int, ghost orig: Dwords) returns (ghost stop: nat)
      requires Walked(words, owner, sub, 0, table, a, lo, hi, orig) && FreshPages(a, lo, hi)
      modifies this, realMethods
      ensures Walked(old(words), old(owner), sub, stop, table, a, lo, hi, orig)
      ensures stop <= SUB_SLOTS && (stop < SUB_SLOTS ==> !(lo <= old(words)[Index(table, stop)] < hi))
    {
      hide Index, Walked, FreshPages;
      var slot := 0;
      while slot < SUB_SLOTS
        invariant 0 <= slot <= SUB_SLOTS
        invariant Walked(old(words), old(owner), sub, slot, table, a, lo, hi, orig)
      {
        var more := HookSubSlot(sub, slot, table, a, lo, hi, orig, old(words), old(owner));
        if !more { break; }
        slot := slot + 1;
      }
      stop := slot;
    }

    method HookSubSlot(sub: nat, slot: nat, table: Word, a: Answers, lo: Word, hi: int, ghost orig: Dwords, ghost before: Dwords,
                       ghost ownerBefore: Owners)
      returns (more: bool)
      requires slot < SUB_SLOTS && Walked(before, ownerBefore, sub, slot, table, a, lo, hi, orig) && FreshPages(a, lo, hi)
      modifies this, realMethods
      ensures more <==> lo <= before[Index(table, slot)] < hi
      ensures Walked(before, ownerBefore, sub, if more then slot + 1 else slot, table, a, lo, hi, orig)
    {
      hide Index, WrappedOnce, Replaced, Targets, Owned, UsedBelow, FreshPages, Grows;
      ghost var owned := owner;
      more := ReplaceSubSlot(sub, slot, table, a, lo, hi, orig, before);
      if more {
        GrowsOn(ownerBefore, owned, owner);
      }
    }

    /** One word of a sub-vtable; `more` tells whether it pointed into the image. */
    method ReplaceSubSlot(sub: nat, slot: nat, table: Word, a: Answers, lo: Word, hi: int, ghost orig: Dwords, ghost before: Dwords)
      returns (more: bool)
      requires sub < NUM_SUBS && slot < SUB_SLOTS && realMethods.Length == TRAMPOLINES && FreshPages(a, lo, hi)
      requires WrappedOnce(words, orig, a.pages, Targets(), owner)
      requires UsedBelow(owner, SubId(sub, slot))
      requires Replaced(before, words, table, a.pages, SubId(sub, 0), slot) && Owned(owner, table, a.pages, SubId(sub, 0), slot)
      modifies this, realMethods
      ensures WrappedOnce(words, orig, a.pages, Targets(), owner)
      ensures more <==> lo <= before[Index(table, slot)] < hi
      ensures !more ==> words == old(words) && owner == old(owner)
      ensures more ==> Replaced(before, words, table, a.pages, SubId(sub, 0), slot + 1)
      ensures more ==> Owned(owner, table, a.pages, SubId(sub, 0), slot + 1) && Grows(old(owner), owner)
      ensures more ==> UsedBelow(owner, SubId(sub, slot + 1))
    {
      hide Index, WrappedOnce, Replaced, Targets, Owned;
      OneMoreOwned(owner, table, a.pages, SubId(sub, 0), slot);
      var i, id := Index(table, slot), SubId(sub, slot);
      OneMoreReplaced(before, words, table, a.pages, SubId(sub, 0), slot);
      var cur := words[i];
      if cur < lo || cur >= hi {
        return false;
      }
      SaveTarget(i, id, cur, a, lo, hi, orig);
      if a.pages[id] != 0 {
        Replace(i, id, a.pages, orig);
      }
      return true;
    }

    /** A word still in the image is original; saving it for a trampoline not yet in use disturbs nothing. */
    method SaveTarget(i: nat, id: nat, cur: Word, a: Answers, lo: Word, hi: int, ghost orig: Dwords)
      requires realMethods.Length == TRAMPOLINES && FreshPages(a, lo, hi) && id < TRAMPOLINES && i < DWORDS
      requires WrappedOnce(words, orig, a.pages, Targets(), owner)
      requires cur == words[i] && lo <= cur < hi && forall k :: k in owner ==> owner[k] != id
      modifies realMethods
      ensures WrappedOnce(words, orig, a.pages, Targets(), owner)
      ensures i !in owner && realMethods[id] == cur == orig[i]
      ensures forall k :: 0 <= k < TRAMPOLINES && k != id ==> realMethods[k] == old(realMethods[k])
    {
      InImageIsOriginal(words, orig, a, lo, hi, Targets(), owner, i);
      Retarget(words, orig, a.pages, Targets(), owner, id, cur);
      ghost var before := Targets();
      realMethods[id] := cur;
      assert Targets() == before[id := cur];
    }

    /** Both sub-objects; `mid` are the words between the two passes. */
    method HookSubs(obj: Word, lo: Word, hi: int, a: Answers, ghost orig: Dwords) returns (ghost mid: Dwords)
      requires realMethods.Length == TRAMPOLINES && FreshPages(a, lo, hi)
      requires WrappedOnce(words, orig, a.pages, Targets(), owner)
      requires UsedBelow(owner, SubId(0, 0))
      modifies this, realMethods
      ensures WrappedOnce(words, orig, a.pages, Targets(), owner)
      ensures SubHooked(old(words), mid, owner, obj, 0, a, lo, hi) && SubHooked(mid, words, owner, obj, 1, a, lo, hi)
      ensures Grows(old(owner), owner)
    {
      hide WrappedOnce, Targets, Index, SubHooked;
      mid := words;
      var sub := 0;
      while sub < NUM_SUBS
        invariant 0 <= sub <= NUM_SUBS
        invariant WrappedOnce(words, orig, a.pages, Targets(), owner)
        invariant UsedBelow(owner, SubId(sub, 0))
        invariant sub == 0 ==> words == old(words)
        invariant sub == 1 ==> mid == words
        invariant sub >= 1 ==> SubHooked(old(words), mid, owner, obj, 0, a, lo, hi)
        invariant sub == 2 ==> SubHooked(mid, words, owner, obj, 1, a, lo, hi)
        invariant Grows(old(owner), owner)
      {
        ghost var before := owner;
        HookOneSub(sub, obj, a, lo, hi, orig);
        if sub == 1 { StillSubHooked(old(words), mid, before, owner, obj, 0, a, lo, hi); }
        if sub == 0 { mid := words; }
        sub := sub + 1;
      }
    }

    /** A missing, unreadable or locked sub-vtable is skipped. */
    method HookOneSub(sub: nat, obj: Word, a: Answers, lo: Word, hi: int, ghost orig: Dwords)
      requires sub < NUM_SUBS && realMethods.Length == TRAMPOLINES && FreshPages(a, lo, hi)
      requires WrappedOnce(words, orig, a.pages, Targets(), owner)
      requires UsedBelow(owner, SubId(sub, 0))
      modifies this, realMethods
      ensures WrappedOnce(words, orig, a.pages, Targets(), owner)
      ensures UsedBelow(owner, SubId(sub + 1, 0))
      ensures SubHooked(old(words), words, owner, obj, sub, a, lo, hi) && Grows(old(owner), owner)
    {
      hide WrappedOnce, Targets, Index, StopsAt, Replaced, Owned;
      IndexInside(obj, if sub == 0 then 3 else 4);
      var subObj := words[Index(obj, if sub == 0 then 3 else 4)];
      if subObj != 0 && subObj in a.readable {
        IndexInside(subObj, 0);
        var subVt := words[Index(subObj, 0)];
        if subVt != 0 && subVt in a.readable && a.protectSub[sub] {
          ghost var stop := HookSub(sub, subVt, a, lo, hi, orig);
          assert StopsAt(old(words), subVt, lo, hi, stop) && Replaced(old(words), words, subVt, a.pages, SubId(sub, 0), stop) &&
                 Owned(owner, subVt, a.pages, SubId(sub, 0), stop);
        }
      }
    }

    /** The body that runs once per process. `obj` is the object CreateObj returned; hi is one past the image.
        The words after the main table and between the two sub-tables are `main` and `mid`. */
    method InstallVtablePatches(obj: Word, lo: Word, hi: int, a: Answers) returns (ghost main: Dwords, ghost mid: Dwords)
      requires realMethods.Length == TRAMPOLINES && FreshPages(a, lo, hi) && owner == map[]
      modifies this, realMethods
      ensures WrappedOnce(words, old(words), a.pages, Targets(), owner)
      ensures !a.protectMain ==> words == old(words)
      ensures a.protectMain ==>
                && Replaced(old(words), main, old(words)[Index(obj, 0)], a.pages, 0, NUM_SLOTS)
                && Owned(owner, old(words)[Index(obj, 0)], a.pages, 0, NUM_SLOTS)
                && SubHooked(main, mid, owner, obj, 0, a, lo, hi) && SubHooked(mid, words, owner, obj, 1, a, lo, hi)
    {
      hide WrappedOnce, Targets, Replaced, SubHooked;
      main, mid := words, words;
      IndexInside(obj, 0);
      var vtable := words[Index(obj, 0)];
      SaveMain(vtable);
      if !a.protectMain {
        NothingWrapped(words, a.pages, Targets());
        return;
      }
      HookMain(vtable, a, lo, hi);
      main := words;
      ghost var mainOwner := owner;
      mid := HookSubs(obj, lo, hi, a, old(words));
      assert Owned(owner, vtable, a.pages, 0, NUM_SLOTS) by { hide Index; assert Grows(mainOwner, owner); }
    }
  }

  lemma IndexInside(pointer: Word, k: nat)
    ensures Index(pointer, k) < DWORDS
  {
  }

  lemma IndexInjective(pointer: Word, s: nat, t: nat)
    requires s < t < 16
    ensures Index(pointer, s) != Index(pointer, t)
  {
  }
}
