/** The TCLS shared-memory image: a 65-word header, length-prefixed records, one nested 17-word table. */
module TclsImage {
  import opened Words
  import opened ByteBuffer

  /** The fields of the image; wide strings are already UTF-16. */
  datatype Fields = Fields(
    connection: seq<int>, ip: seq<int>, clientExe: seq<int>, var33: seq<int>, var19: seq<int>, v20v5: seq<int>,
    v20v9: seq<Byte>, var15: seq<int>, aesKey: seq<Byte>, var60: seq<Byte>, sigInfo: seq<Byte>, var27: seq<Byte>,
    var25: seq<Byte>, qqUin: Word)

  predicate Utf16(s: seq<int>) {
    forall i :: 0 <= i < |s| ==> 0 <= s[i] < 0x1_0000
  }

  predicate ValidFields(f: Fields) {
    Utf16(f.connection) && Utf16(f.ip) && Utf16(f.clientExe) && Utf16(f.var33) && Utf16(f.var19) && Utf16(f.v20v5)
    && Utf16(f.var15)
  }

  /** How a record's body is written. */
  datatype Body = U32(w: Word) | U16(h: int) | U8(b: Byte) | Blob(bs: seq<Byte>) | Wide(ws: seq<int>) | Str(s: seq<Byte>) | Empty

  predicate ValidBody(b: Body) {
    (b.U16? ==> 0 <= b.h < 0x1_0000) && (b.Wide? ==> Utf16(b.ws))
  }

  function BodyBytes(b: Body): seq<Byte>
    requires ValidBody(b)
  {
    match b
    case U32(w) => LE(w)
    case U16(h) => U16Bytes(h, Small)
    case U8(v) => [v]
    case Blob(bs) => bs
    case Wide(ws) => WideBytes(ws)
    case Str(s) => s + [0]
    case Empty => []
  }

  /** A variable: its slot in the table that points to it, and its body. */
  datatype Item = Item(slot: nat, body: Body)

  const HEADER_WORDS := 65
  const NESTED_WORDS := 17
  const NESTED_SLOT := 20

  /** The variables written before the nested table, in order. */
  function FirstItems(f: Fields): seq<Item> {
    [Item(1, U32(0x300A01)), Item(2, U32(f.qqUin)), Item(6, U32(f.qqUin)), Item(3, U8(0x60)), Item(4, Blob(f.sigInfo)),
     Item(5, Blob(f.aesKey)), Item(21, U8(0)), Item(22, Empty), Item(23, U8(0)), Item(24, Empty), Item(25, Blob(f.var25)),
     Item(26, U8(0x48)), Item(27, Blob(f.var27)), Item(32, U32(3)), Item(33, Wide(f.var33)), Item(17, U32(1)),
     Item(18, U32(1)), Item(19, Wide(f.var19)), Item(36, U32(1)), Item(37, U32(0)), Item(40, U32(0)), Item(42, U32(0))]
  }

  /** The parts of variable 20, by the word of the nested table that points to them. */
  function NestedItems(f: Fields): seq<Item> {
    [Item(1, Wide(f.connection)), Item(2, Wide(f.ip)), Item(3, U32(0x2B0A)), Item(4, Wide(f.v20v5)), Item(5, U32(f.qqUin)),
     Item(6, U32(f.qqUin)), Item(7, U32(5)), Item(8, Str(f.v20v9)), Item(9, U16(0))]
  }

  /** The variables written after the nested records. */
  function LastItems(f: Fields): seq<Item> {
    [Item(7, Empty), Item(60, Blob(f.var60)), Item(14, Wide(f.clientExe)), Item(41, U32(0)), Item(15, Wide(f.var15)),
     Item(16, U16(0))]
  }

  predicate ValidItems(items: seq<Item>) {
    forall i :: 0 <= i < |items| ==> ValidBody(items[i].body)
  }

  predicate DistinctSlots(items: seq<Item>) {
    forall i, j :: 0 <= i < j < |items| ==> items[i].slot != items[j].slot
  }

  /** What is written, in order: variables, parts of variable 20, variables. */
  datatype Plan = Plan(first: seq<Item>, nested: seq<Item>, last: seq<Item>)

  predicate ValidPlan(pl: Plan) {
    && ValidItems(pl.first) && ValidItems(pl.nested) && ValidItems(pl.last)
    && DistinctSlots(pl.first) && DistinctSlots(pl.nested) && DistinctSlots(pl.last)
    && (forall i :: 0 <= i < |pl.first| ==> 1 <= pl.first[i].slot <= 64 && pl.first[i].slot != NESTED_SLOT)
    && (forall i :: 0 <= i < |pl.last| ==> 1 <= pl.last[i].slot <= 64 && pl.last[i].slot != NESTED_SLOT)
    && (forall i :: 0 <= i < |pl.nested| ==> 1 <= pl.nested[i].slot < NESTED_WORDS)
    && (forall i, j :: 0 <= i < |pl.first| && 0 <= j < |pl.last| ==> pl.first[i].slot != pl.last[j].slot)
  }

  /** Where a slot's variable stands in the writing order. */
  function RankOf(slot: nat): nat {
    if slot <= 2 then (if slot == 0 then 27 else slot - 1) else if slot == 6 then 2 else if slot <= 5 then slot
    else if 21 <= slot <= 27 then slot - 15 else if slot == 32 || slot == 33 then slot - 19
    else if 17 <= slot <= 19 then slot - 2 else if slot == 36 || slot == 37 then slot - 18
    else if slot == 40 then 20 else if slot == 42 then 21
    else if slot == 7 then 22 else if slot == 60 then 23 else if slot == 14 then 24 else if slot == 41 then 25
    else if slot == 15 then 26 else 27
  }

  /** The items stand in writing order from `from` on, so no two of them share a slot. */
  ghost predicate Ranked(items: seq<Item>, from: nat) {
    forall i :: 0 <= i < |items| ==> RankOf(items[i].slot) == from + i && 1 <= items[i].slot <= 64 && items[i].slot != NESTED_SLOT
  }

  lemma SlotsRanked(f: Fields)
    ensures Ranked(FirstItems(f), 0) && Ranked(LastItems(f), |FirstItems(f)|)
    ensures forall i :: 0 <= i < |NestedItems(f)| ==> NestedItems(f)[i].slot == i + 1 < NESTED_WORDS
  {
    assert RankOf(1) == 0 && RankOf(2) == 1 && RankOf(6) == 2 && RankOf(3) == 3 && RankOf(4) == 4 && RankOf(5) == 5;
    assert RankOf(21) == 6 && RankOf(22) == 7 && RankOf(23) == 8 && RankOf(24) == 9 && RankOf(25) == 10 && RankOf(26) == 11;
    assert RankOf(27) == 12 && RankOf(32) == 13 && RankOf(33) == 14 && RankOf(17) == 15 && RankOf(18) == 16 && RankOf(19) == 17;
    assert RankOf(36) == 18 && RankOf(37) == 19 && RankOf(40) == 20 && RankOf(42) == 21 && RankOf(7) == 22 && RankOf(60) == 23;
    assert RankOf(14) == 24 && RankOf(41) == 25 && RankOf(15) == 26 && RankOf(16) == 27;
    hide RankOf;
    LastSlotsRanked(f);
  }

  lemma LastSlotsRanked(f: Fields)
    ensures Ranked(LastItems(f), |FirstItems(f)|)
  {
  }

  lemma BodiesValid(f: Fields)
    requires ValidFields(f)
    ensures ValidItems(FirstItems(f)) && ValidItems(NestedItems(f)) && ValidItems(LastItems(f))
  {
  }

  lemma PlanIsValid(f: Fields)
    requires ValidFields(f)
    ensures ValidPlan(Plan(FirstItems(f), NestedItems(f), LastItems(f)))
  {
    hide FirstItems, LastItems, NestedItems, RankOf, ValidItems;
    BodiesValid(f);
    SlotsRanked(f);
    var first, last := FirstItems(f), LastItems(f);
    assert DistinctSlots(first) by {
      forall i, j | 0 <= i < j < |first| ensures first[i].slot != first[j].slot {
        assert RankOf(first[i].slot) == i && RankOf(first[j].slot) == j;
      }
    }
    assert DistinctSlots(last) by {
      forall i, j | 0 <= i < j < |last| ensures last[i].slot != last[j].slot {
        assert RankOf(last[i].slot) == |first| + i && RankOf(last[j].slot) == |first| + j;
      }
    }
    forall i, j | 0 <= i < |first| && 0 <= j < |last| ensures first[i].slot != last[j].slot {
      assert RankOf(first[i].slot) == i && RankOf(last[j].slot) == |first| + j;
    }
  }

  function PlanOf(f: Fields): (pl: Plan)
    requires ValidFields(f)
    ensures ValidPlan(pl)
  {
    PlanIsValid(f);
    Plan(FirstItems(f), NestedItems(f), LastItems(f))
  }

  /** Length prefix and body. */
  function Record(b: Body): (r: seq<Byte>)
    requires ValidBody(b)
  {
    LE(Wrap(|BodyBytes(b)|)) + BodyBytes(b)
  }

  function Records(items: seq<Item>): seq<Byte>
    requires ValidItems(items)
  {
    if items == [] then [] else Records(items[..|items| - 1]) + Record(items[|items| - 1].body)
  }

  /** Where record `i` starts when the records start at `base`. */
  function StartOf(base: nat, items: seq<Item>, i: nat): nat
    requires ValidItems(items) && i <= |items|
  {
    base + |Records(items[..i])|
  }

  /** The offsets a run of the writer stores: slot to position. */
  function Offsets(base: nat, items: seq<Item>): map<nat, nat>
    requires ValidItems(items)
  {
    if items == [] then map[]
    else var n := |items| - 1;
         Offsets(base, items[..n])[items[n].slot := base + |Records(items[..n])|]
  }

  // --- layout ---

  const HEADER := 4 * HEADER_WORDS
  const NESTED := 4 * NESTED_WORDS

  function NestedPos(pl: Plan): nat
    requires ValidPlan(pl)
  {
    HEADER + |Records(pl.first)|
  }

  function LastPos(pl: Plan): nat
    requires ValidPlan(pl)
  {
    NestedPos(pl) + NESTED + |Records(pl.nested)|
  }

  function ImageLength(pl: Plan): nat
    requires ValidPlan(pl)
  {
    LastPos(pl) + |Records(pl.last)|
  }

  function MainOffsets(pl: Plan): map<nat, nat>
    requires ValidPlan(pl)
  {
    Offsets(HEADER, pl.first) + map[NESTED_SLOT := NestedPos(pl)] + Offsets(LastPos(pl), pl.last)
  }

  function NestedOffsets(pl: Plan): map<nat, nat>
    requires ValidPlan(pl)
  {
    map[0 := NestedPos(pl) + 4] + Offsets(NestedPos(pl) + NESTED, pl.nested)
  }

  /** A table word: the offset of its slot, or 0. */
  function TableEntry(t: map<nat, nat>, k: nat): Word {
    if k in t then Wrap(t[k]) else 0
  }

  function Table(t: map<nat, nat>, from: nat, n: nat): (s: seq<Byte>)
    ensures |s| == 4 * n
  {
    if n == 0 then [] else Table(t, from, n - 1) + LE(TableEntry(t, from + n - 1))
  }

  /** The finished image. */
  function Image(pl: Plan): (s: seq<Byte>)
    requires ValidPlan(pl)
    ensures |s| == ImageLength(pl)
  {
    LE(64) + Table(MainOffsets(pl), 1, 64) + Records(pl.first) + Table(NestedOffsets(pl), 0, NESTED_WORDS) +
    Records(pl.nested) + Records(pl.last)
  }

  // --- reading ---

  function WordAt(image: seq<Byte>, p: nat): Word
    requires p + 4 <= |image|
  {
    FromLE(image[p..p + 4])
  }

  datatype Found = Nothing | Bad | Bytes(bs: seq<Byte>)

  /** Follow the word at `p` of a table to a length-prefixed record. */
  function Follow(image: seq<Byte>, p: nat): Found
    requires p + 4 <= |image|
  {
    var off := WordAt(image, p);
    if off == 0 then Nothing
    else if off + 4 > |image| then Bad
    else
      var n := WordAt(image, off);
      if off + 4 + n > |image| then Bad else Bytes(image[off + 4..off + 4 + n])
  }

  lemma {:induction false} TableWord(t: map<nat, nat>, from: nat, n: nat, k: nat)
    requires k < n
    ensures Table(t, from, n)[4 * k..4 * k + 4] == LE(TableEntry(t, from + k))
    decreases n
  {
    var front := Table(t, from, n - 1);
    if k < n - 1 {
      TableWord(t, from, n - 1, k);
      assert Table(t, from, n)[4 * k..4 * k + 4] == front[4 * k..4 * k + 4];
    }
  }

  lemma {:induction false} OffsetOf(base: nat, items: seq<Item>, i: nat)
    requires ValidItems(items) && DistinctSlots(items) && i < |items|
    ensures items[i].slot in Offsets(base, items) && Offsets(base, items)[items[i].slot] == StartOf(base, items, i)
    decreases |items|
  {
    var n := |items| - 1;
    var front := items[..n];
    if i < n {
      OffsetOf(base, front, i);
      assert front[..i] == items[..i] && front[i] == items[i];
    }
  }

  lemma {:induction false} OffsetSlots(base: nat, items: seq<Item>, k: nat)
    requires ValidItems(items)
    ensures k in Offsets(base, items) <==> exists i :: 0 <= i < |items| && items[i].slot == k
    decreases |items|
  {
    if items != [] {
      var n := |items| - 1;
      var front := items[..n];
      OffsetSlots(base, front, k);
      if i :| 0 <= i < |items| && items[i].slot == k && i < n {
        assert front[i] == items[i];
      }
      if k in Offsets(base, front) {
        var i :| 0 <= i < |front| && front[i].slot == k;
        assert items[i].slot == k;
      }
    }
  }

  // --- following the tables ---

  /** `part` lies in `image` at `a`. */
  predicate Lies(image: seq<Byte>, a: nat, part: seq<Byte>) {
    a + |part| <= |image| && image[a..a + |part|] == part
  }

  lemma LiesInside(image: seq<Byte>, a: nat, part: seq<Byte>, p: nat, piece: seq<Byte>)
    requires Lies(image, a, part) && Lies(part, p, piece)
    ensures Lies(image, a + p, piece)
  {
    forall k | 0 <= k < |piece| ensures image[a + p + k] == piece[k] {
      assert piece[k] == part[p..p + |piece|][k] == part[p + k] == image[a..a + |part|][p + k];
    }
  }

  lemma LiesInSum(a: seq<Byte>, b: seq<Byte>, c: seq<Byte>)
    ensures Lies(a + b + c, |a|, b)
  {
  }

  lemma FollowRecord(image: seq<Byte>, p: nat, off: nat, b: Body)
    requires ValidBody(b) && |image| < SIZE && 0 < off
    requires Lies(image, p, LE(Wrap(off))) && Lies(image, off, Record(b))
    ensures Follow(image, p) == Bytes(BodyBytes(b))
  {
    hide LE, FromLE, BodyBytes;
    var n, r := |BodyBytes(b)|, Record(b);
    FromLEofLE(Wrap(off));
    FromLEofLE(Wrap(n));
    WordIsWrapped(off);
    WordIsWrapped(n);
    LiesInSum([], LE(Wrap(n)), BodyBytes(b));
    LiesInSum(LE(Wrap(n)), BodyBytes(b), []);
    assert [] + LE(Wrap(n)) + BodyBytes(b) == r && LE(Wrap(n)) + BodyBytes(b) + [] == r;
    LiesInside(image, off, r, 0, LE(Wrap(n)));
    LiesInside(image, off, r, 4, BodyBytes(b));
  }

  lemma SixParts(a: seq<Byte>, b: seq<Byte>, c: seq<Byte>, d: seq<Byte>, e: seq<Byte>, g: seq<Byte>)
    ensures var m := a + b + c + d + e + g;
            && Lies(m, 0, a) && Lies(m, |a|, b) && Lies(m, |a| + |b|, c) && Lies(m, |a| + |b| + |c|, d)
            && Lies(m, |a| + |b| + |c| + |d|, e) && Lies(m, |a| + |b| + |c| + |d| + |e|, g)
  {
    hide Lies;
    assert [] + a == a;
    AppendPart([], a);
    AppendPart(a, b);
    AppendPart(a + b, c);
    AppendPart(a + b + c, d);
    AppendPart(a + b + c + d, e);
    AppendPart(a + b + c + d + e, g);
  }

  lemma AppendPart(m: seq<Byte>, x: seq<Byte>)
    ensures Lies(m + x, |m|, x)
    ensures forall p: nat, piece :: Lies(m, p, piece) ==> Lies(m + x, p, piece)
  {
    forall p: nat, piece | Lies(m, p, piece) ensures Lies(m + x, p, piece) {
      assert (m + x)[p..p + |piece|] == m[p..p + |piece|];
    }
  }

  lemma {:induction false} RecordAt(items: seq<Item>, i: nat)
    requires ValidItems(items) && i < |items|
    ensures Lies(Records(items), |Records(items[..i])|, Record(items[i].body))
    decreases |items|
  {
    hide Lies, Record;
    var n := |items| - 1;
    var front := items[..n];
    AppendPart(Records(front), Record(items[n].body));
    if i < n {
      RecordAt(front, i);
      assert front[..i] == items[..i] && front[i] == items[i];
    }
  }

  /** The parts of the image, and where they lie. */
  lemma Parts(pl: Plan)
    requires ValidPlan(pl)
    ensures var m := Image(pl);
            && Lies(m, 0, LE(64)) && Lies(m, 4, Table(MainOffsets(pl), 1, 64))
            && Lies(m, HEADER, Records(pl.first))
            && Lies(m, NestedPos(pl), Table(NestedOffsets(pl), 0, NESTED_WORDS))
            && Lies(m, NestedPos(pl) + NESTED, Records(pl.nested))
            && Lies(m, LastPos(pl), Records(pl.last))
  {
    hide Table, Records, LE, MainOffsets, NestedOffsets, Lies;
    SixParts(LE(64), Table(MainOffsets(pl), 1, 64), Records(pl.first), Table(NestedOffsets(pl), 0, NESTED_WORDS),
             Records(pl.nested), Records(pl.last));
  }

  lemma MainWord(pl: Plan, k: nat)
    requires ValidPlan(pl) && 1 <= k <= 64
    ensures Lies(Image(pl), 4 * k, LE(TableEntry(MainOffsets(pl), k)))
  {
    hide Image, Table, Records, LE, MainOffsets, NestedOffsets, ValidPlan;
    Parts(pl);
    TableWord(MainOffsets(pl), 1, 64, k - 1);
    LiesInside(Image(pl), 4, Table(MainOffsets(pl), 1, 64), 4 * (k - 1), LE(TableEntry(MainOffsets(pl), k)));
  }

  lemma NestedWord(pl: Plan, k: nat)
    requires ValidPlan(pl) && k < NESTED_WORDS
    ensures Lies(Image(pl), NestedPos(pl) + 4 * k, LE(TableEntry(NestedOffsets(pl), k)))
  {
    hide Image, Table, Records, LE, MainOffsets, NestedOffsets, ValidPlan;
    Parts(pl);
    TableWord(NestedOffsets(pl), 0, NESTED_WORDS, k);
    LiesInside(Image(pl), NestedPos(pl), Table(NestedOffsets(pl), 0, NESTED_WORDS), 4 * k, LE(TableEntry(NestedOffsets(pl), k)));
  }

  lemma BodyValid(items: seq<Item>, i: nat)
    requires ValidItems(items) && i < |items|
    ensures ValidBody(items[i].body)
  {
  }

  /** A record of a part of the image that consists of records. */
  lemma RecordInPart(image: seq<Byte>, base: nat, items: seq<Item>, i: nat)
    requires ValidItems(items) && i < |items|
    requires Lies(image, base, Records(items))
    ensures Lies(image, StartOf(base, items, i), Record(items[i].body))
  {
    hide Record, Records, Lies, ValidBody;
    BodyValid(items, i);
    RecordAt(items, i);
    LiesInside(image, base, Records(items), |Records(items[..i])|, Record(items[i].body));
  }

  lemma FirstVariableLies(pl: Plan, i: nat)
    requires ValidPlan(pl) && i < |pl.first|
    ensures Lies(Image(pl), 4 * pl.first[i].slot, LE(Wrap(StartOf(HEADER, pl.first, i))))
    ensures Lies(Image(pl), StartOf(HEADER, pl.first, i), Record(pl.first[i].body))
  {
    hide Image, Records, Offsets, Record, Lies;
    Parts(pl);
    var items, k := pl.first, pl.first[i].slot;
    OffsetOf(HEADER, items, i);
    OffsetSlots(LastPos(pl), pl.last, k);
    MainWord(pl, k);
    RecordInPart(Image(pl), HEADER, items, i);
  }

  /** Every variable written before the nested table is found from its slot of the header. */
  lemma FirstVariableRead(pl: Plan, i: nat)
    requires ValidPlan(pl) && ImageLength(pl) < SIZE && i < |pl.first|
    ensures Follow(Image(pl), 4 * pl.first[i].slot) == Bytes(BodyBytes(pl.first[i].body))
  {
    hide Image, Records, Offsets, Record, Follow, Lies;
    FirstVariableLies(pl, i);
    FollowRecord(Image(pl), 4 * pl.first[i].slot, StartOf(HEADER, pl.first, i), pl.first[i].body);
  }

  lemma LastVariableLies(pl: Plan, i: nat)
    requires ValidPlan(pl) && i < |pl.last|
    ensures Lies(Image(pl), 4 * pl.last[i].slot, LE(Wrap(StartOf(LastPos(pl), pl.last, i))))
    ensures Lies(Image(pl), StartOf(LastPos(pl), pl.last, i), Record(pl.last[i].body))
  {
    hide Image, Records, Offsets, Record, Lies;
    Parts(pl);
    var items, k := pl.last, pl.last[i].slot;
    OffsetOf(LastPos(pl), items, i);
    MainWord(pl, k);
    RecordInPart(Image(pl), LastPos(pl), items, i);
  }

  lemma LastVariableRead(pl: Plan, i: nat)
    requires ValidPlan(pl) && ImageLength(pl) < SIZE && i < |pl.last|
    ensures Follow(Image(pl), 4 * pl.last[i].slot) == Bytes(BodyBytes(pl.last[i].body))
  {
    hide Image, Records, Offsets, Record, Follow, Lies;
    LastVariableLies(pl, i);
    FollowRecord(Image(pl), 4 * pl.last[i].slot, StartOf(LastPos(pl), pl.last, i), pl.last[i].body);
  }

  lemma WordLies(image: seq<Byte>, p: nat, w: Word)
    requires Lies(image, p, LE(w))
    ensures p + 4 <= |image| && WordAt(image, p) == w
  {
    FromLEofLE(w);
  }

  /** Slot 20 leads to the nested table, whose first word points at its own second word. */
  lemma NestedTableFound(pl: Plan)
    requires ValidPlan(pl) && ImageLength(pl) < SIZE
    ensures 4 * NESTED_SLOT + 4 <= |Image(pl)| && WordAt(Image(pl), 4 * NESTED_SLOT) == NestedPos(pl)
    ensures WordAt(Image(pl), NestedPos(pl)) == NestedPos(pl) + 4
  {
    hide Image, Records, Offsets, Lies, WordAt, LE, Follow;
    assert TableEntry(MainOffsets(pl), NESTED_SLOT) == NestedPos(pl) by {
      OffsetSlots(LastPos(pl), pl.last, NESTED_SLOT);
      WordIsWrapped(NestedPos(pl));
    }
    assert TableEntry(NestedOffsets(pl), 0) == NestedPos(pl) + 4 by {
      OffsetSlots(NestedPos(pl) + NESTED, pl.nested, 0);
      WordIsWrapped(NestedPos(pl) + 4);
    }
    hide ValidPlan, MainOffsets, NestedOffsets, TableEntry;
    MainWord(pl, NESTED_SLOT);
    WordLies(Image(pl), 4 * NESTED_SLOT, NestedPos(pl));
    NestedWord(pl, 0);
    WordLies(Image(pl), NestedPos(pl), NestedPos(pl) + 4);
  }

  lemma NestedVariableLies(pl: Plan, i: nat)
    requires ValidPlan(pl) && i < |pl.nested|
    ensures var base := NestedPos(pl) + NESTED;
            && Lies(Image(pl), NestedPos(pl) + 4 * pl.nested[i].slot, LE(Wrap(StartOf(base, pl.nested, i))))
            && Lies(Image(pl), StartOf(base, pl.nested, i), Record(pl.nested[i].body))
  {
    hide Image, Records, Offsets, Record, Lies;
    Parts(pl);
    var items, base := pl.nested, NestedPos(pl) + NESTED;
    OffsetOf(base, items, i);
    NestedWord(pl, items[i].slot);
    RecordInPart(Image(pl), base, items, i);
  }

  /** Every part of variable 20 is found from its word of the nested table. */
  lemma NestedVariableRead(pl: Plan, i: nat)
    requires ValidPlan(pl) && ImageLength(pl) < SIZE && i < |pl.nested|
    ensures Follow(Image(pl), NestedPos(pl) + 4 * pl.nested[i].slot) == Bytes(BodyBytes(pl.nested[i].body))
  {
    hide Image, Records, Offsets, Record, Follow, Lies;
    NestedVariableLies(pl, i);
    FollowRecord(Image(pl), NestedPos(pl) + 4 * pl.nested[i].slot, StartOf(NestedPos(pl) + NESTED, pl.nested, i), pl.nested[i].body);
  }

  predicate UsesSlot(items: seq<Item>, k: nat) {
    exists i :: 0 <= i < |items| && items[i].slot == k
  }

  /** Word 0 is 64; the slots of no variable hold 0. */
  lemma UnusedSlot(pl: Plan, k: nat)
    requires ValidPlan(pl) && ImageLength(pl) < SIZE
    ensures WordAt(Image(pl), 0) == 64
    ensures 1 <= k <= 64 && k != NESTED_SLOT && !UsesSlot(pl.first, k) && !UsesSlot(pl.last, k) ==>
              Follow(Image(pl), 4 * k) == Nothing
    ensures 1 <= k < NESTED_WORDS && !UsesSlot(pl.nested, k) ==>
              NestedPos(pl) + 4 * k + 4 <= |Image(pl)| && Follow(Image(pl), NestedPos(pl) + 4 * k) == Nothing
  {
    hide Image, Records, Offsets, Record, Lies;
    Parts(pl);
    WordLies(Image(pl), 0, 64);
    OffsetSlots(HEADER, pl.first, k);
    OffsetSlots(LastPos(pl), pl.last, k);
    OffsetSlots(NestedPos(pl) + NESTED, pl.nested, k);
    if 1 <= k <= 64 && k != NESTED_SLOT && !UsesSlot(pl.first, k) && !UsesSlot(pl.last, k) {
      MainWord(pl, k);
      WordLies(Image(pl), 4 * k, 0);
    }
    if 1 <= k < NESTED_WORDS && !UsesSlot(pl.nested, k) {
      NestedWord(pl, k);
      WordLies(Image(pl), NestedPos(pl) + 4 * k, 0);
    }
  }

  // --- the regions of the image ---

  /** A stretch of the image and what it holds. */
  datatype Region = Region(start: nat, bytes: seq<Byte>)

  function EndOf(r: Region): nat {
    r.start + |r.bytes|
  }

  /** The records of a list of items, one region each. */
  function RecordRegions(base: nat, items: seq<Item>): (rs: seq<Region>)
    requires ValidItems(items)
    ensures |rs| == |items|
    ensures forall i :: 0 <= i < |rs| ==> rs[i] == Region(StartOf(base, items, i), Record(items[i].body))
  {
    seq(|items|, i requires 0 <= i < |items| => Region(StartOf(base, items, i), Record(items[i].body)))
  }

  /** The 65-word header, the records before the nested table, that table's 17 words, and the records behind it. */
  function Regions(pl: Plan): seq<Region>
    requires ValidPlan(pl)
  {
    [Region(0, LE(64) + Table(MainOffsets(pl), 1, 64))] + RecordRegions(HEADER, pl.first) +
    [Region(NestedPos(pl), Table(NestedOffsets(pl), 0, NESTED_WORDS))] +
    RecordRegions(NestedPos(pl) + NESTED, pl.nested) + RecordRegions(LastPos(pl), pl.last)
  }

  /** Nonempty regions, each starting where the one before ends, from `from` to `to`. */
  predicate Chained(rs: seq<Region>, from: nat, to: nat) {
    if rs == [] then from == to
    else
      var last := rs[|rs| - 1];
      last.bytes != [] && EndOf(last) == to && Chained(rs[..|rs| - 1], from, last.start)
  }

  lemma {:induction false} ChainsJoin(a: seq<Region>, b: seq<Region>, from: nat, mid: nat, to: nat)
    requires Chained(a, from, mid) && Chained(b, mid, to)
    ensures Chained(a + b, from, to)
    decreases |b|
  {
    if b == [] {
      assert a + b == a;
    } else {
      var n := |b| - 1;
      ChainsJoin(a, b[..n], from, mid, b[n].start);
      assert (a + b)[..|a + b| - 1] == a + b[..n];
    }
  }

  lemma {:induction false} RecordsChained(base: nat, items: seq<Item>)
    requires ValidItems(items)
    ensures Chained(RecordRegions(base, items), base, base + |Records(items)|)
    decreases |items|
  {
    hide Record;
    if items != [] {
      var n := |items| - 1;
      RecordsChained(base, items[..n]);
      RecordNotEmpty(items[n].body);
      RegionsFront(base, items, n);
    }
  }

  lemma RegionsFront(base: nat, items: seq<Item>, n: nat)
    requires ValidItems(items) && n < |items|
    ensures RecordRegions(base, items)[..n] == RecordRegions(base, items[..n])
  {
    hide Record, Records;
    forall i | 0 <= i < n ensures RecordRegions(base, items)[i] == RecordRegions(base, items[..n])[i] {
      assert items[..n][..i] == items[..i];
    }
  }

  lemma RecordNotEmpty(b: Body)
    requires ValidBody(b)
    ensures |Record(b)| >= 4
  {
  }

  /** In a chain every offset lies in exactly one region, and no region reaches outside. */
  lemma {:induction false} ChainCovers(rs: seq<Region>, from: nat, to: nat, x: nat)
    requires Chained(rs, from, to)
    ensures from <= x < to <==> exists i :: 0 <= i < |rs| && rs[i].start <= x < EndOf(rs[i])
    ensures forall i, j :: 0 <= i < j < |rs| ==> EndOf(rs[i]) <= rs[j].start
    ensures forall i :: 0 <= i < |rs| ==> from <= rs[i].start && EndOf(rs[i]) <= to
    ensures from <= to
    decreases |rs|
  {
    if rs != [] {
      var n := |rs| - 1;
      var front := rs[..n];
      var mid := rs[n].start;
      assert forall i :: 0 <= i < n ==> front[i] == rs[i];
      ChainCovers(front, from, mid, x);
      if mid <= x < to {
        assert rs[n].start <= x < EndOf(rs[n]);
      }
      if i :| 0 <= i < |front| && front[i].start <= x < EndOf(front[i]) {
        assert rs[i].start <= x < EndOf(rs[i]);
      }
      if i :| 0 <= i < |rs| && rs[i].start <= x < EndOf(rs[i]) && i < n {
        assert front[i].start <= x < EndOf(front[i]);
      }
    }
  }

  lemma RegionsChained(pl: Plan)
    requires ValidPlan(pl)
    ensures Chained(Regions(pl), 0, ImageLength(pl))
  {
    hide Table, Record, Records, LE, MainOffsets, NestedOffsets, RecordRegions, Chained;
    var header, nested := [Region(0, LE(64) + Table(MainOffsets(pl), 1, 64))], [Region(NestedPos(pl), Table(NestedOffsets(pl), 0, NESTED_WORDS))];
    OneRegion(header[0], 0, HEADER);
    RecordsChained(HEADER, pl.first);
    ChainsJoin(header, RecordRegions(HEADER, pl.first), 0, HEADER, NestedPos(pl));
    OneRegion(nested[0], NestedPos(pl), NestedPos(pl) + NESTED);
    ChainsJoin(header + RecordRegions(HEADER, pl.first), nested, 0, NestedPos(pl), NestedPos(pl) + NESTED);
    RecordsChained(NestedPos(pl) + NESTED, pl.nested);
    ChainsJoin(header + RecordRegions(HEADER, pl.first) + nested, RecordRegions(NestedPos(pl) + NESTED, pl.nested),
               0, NestedPos(pl) + NESTED, LastPos(pl));
    RecordsChained(LastPos(pl), pl.last);
    ChainsJoin(header + RecordRegions(HEADER, pl.first) + nested + RecordRegions(NestedPos(pl) + NESTED, pl.nested),
               RecordRegions(LastPos(pl), pl.last), 0, LastPos(pl), ImageLength(pl));
  }

  lemma OneRegion(r: Region, from: nat, to: nat)
    requires r.start == from && EndOf(r) == to && r.bytes != []
    ensures Chained([r], from, to)
  {
  }

  /** Every region of the image holds what it should. */
  lemma RegionsHold(pl: Plan)
    requires ValidPlan(pl)
    ensures forall i :: 0 <= i < |Regions(pl)| ==> Lies(Image(pl), Regions(pl)[i].start, Regions(pl)[i].bytes)
  {
    hide Table, Record, Records, LE, MainOffsets, NestedOffsets, Lies, Image, DistinctSlots, ValidItems;
    Parts(pl);
    HeaderHolds(pl);
    forall i: nat | i < |pl.first| ensures ValidBody(pl.first[i].body) && Lies(Image(pl), StartOf(HEADER, pl.first, i), Record(pl.first[i].body)) {
      BodyValid(pl.first, i);
      RecordInPart(Image(pl), HEADER, pl.first, i);
    }
    forall i: nat | i < |pl.nested| ensures ValidBody(pl.nested[i].body) && Lies(Image(pl), StartOf(NestedPos(pl) + NESTED, pl.nested, i), Record(pl.nested[i].body)) {
      BodyValid(pl.nested, i);
      RecordInPart(Image(pl), NestedPos(pl) + NESTED, pl.nested, i);
    }
    forall i: nat | i < |pl.last| ensures ValidBody(pl.last[i].body) && Lies(Image(pl), StartOf(LastPos(pl), pl.last, i), Record(pl.last[i].body)) {
      BodyValid(pl.last, i);
      RecordInPart(Image(pl), LastPos(pl), pl.last, i);
    }
  }

  lemma HeaderHolds(pl: Plan)
    requires ValidPlan(pl)
    ensures Lies(Image(pl), 0, LE(64) + Table(MainOffsets(pl), 1, 64))
  {
    hide Table, Records, LE, MainOffsets, NestedOffsets, ValidPlan, Image;
    Parts(pl);
    var m, t := Image(pl), Table(MainOffsets(pl), 1, 64);
    assert m[0..4 + |t|] == m[0..4] + m[4..4 + |t|];
  }

  /** The 260-byte header, the 68-byte nested table and all records are pairwise disjoint, cover the image without a
      gap, and hold what they should. */
  lemma Tiling(pl: Plan, x: nat)
    requires ValidPlan(pl)
    ensures var rs := Regions(pl);
            && |rs| == |pl.first| + |pl.nested| + |pl.last| + 2
            && |rs[0].bytes| == 260 && rs[0].start == 0 && |rs[|pl.first| + 1].bytes| == 68
            && (x < |Image(pl)| <==> exists i :: 0 <= i < |rs| && rs[i].start <= x < EndOf(rs[i]))
            && (forall i, j :: 0 <= i < j < |rs| ==> EndOf(rs[i]) <= rs[j].start)
            && (forall i :: 0 <= i < |rs| ==> Lies(Image(pl), rs[i].start, rs[i].bytes))
  {
    hide Table, Record, Records, LE, MainOffsets, NestedOffsets, Lies, ValidPlan, Image, Chained, ImageLength, NestedPos, LastPos;
    RegionsChained(pl);
    ChainCovers(Regions(pl), 0, ImageLength(pl), x);
    RegionsHold(pl);
  }

  lemma {:induction false} WideInjective(a: seq<int>, b: seq<int>)
    requires Utf16(a) && Utf16(b) && WideBytes(a) == WideBytes(b)
    ensures a == b
    decreases |a|
  {
    var x, y := WideBytes(a), WideBytes(b);
    if a != [] {
      var n := |a| - 1;
      assert x[..2 * n] == WideBytes(a[..n]) && y[..2 * n] == WideBytes(b[..n]);
      assert x[2 * n..] == U16Bytes(a[n], Small) && y[2 * n..] == U16Bytes(b[n], Small);
      EncodingsInjective(a[n], b[n], 0, 0, Small);
      WideInjective(a[..n], b[..n]);
    }
  }

  /** The image gives every field back, whatever the fields hold. */
  lemma FieldsRecovered(f: Fields)
    requires ValidFields(f) && ImageLength(PlanOf(f)) < SIZE
    ensures var pl := PlanOf(f);
            var m, t := Image(pl), NestedPos(pl);
            && Follow(m, 4 * 2) == Follow(m, 4 * 6) == Bytes(LE(f.qqUin))
            && Follow(m, 4 * 4) == Bytes(f.sigInfo) && Follow(m, 4 * 5) == Bytes(f.aesKey)
            && Follow(m, 4 * 25) == Bytes(f.var25) && Follow(m, 4 * 27) == Bytes(f.var27)
            && Follow(m, 4 * 60) == Bytes(f.var60)
            && Follow(m, 4 * 33) == Bytes(WideBytes(f.var33)) && Follow(m, 4 * 19) == Bytes(WideBytes(f.var19))
            && Follow(m, 4 * 14) == Bytes(WideBytes(f.clientExe)) && Follow(m, 4 * 15) == Bytes(WideBytes(f.var15))
            && WordAt(m, 4 * NESTED_SLOT) == t
            && Follow(m, t + 4) == Bytes(WideBytes(f.connection)) && Follow(m, t + 8) == Bytes(WideBytes(f.ip))
            && Follow(m, t + 16) == Bytes(WideBytes(f.v20v5)) && Follow(m, t + 32) == Bytes(f.v20v9 + [0])
            && Follow(m, t + 20) == Follow(m, t + 24) == Bytes(LE(f.qqUin))
  {
    hide Image, Follow, ValidPlan, ImageLength, NestedPos, WordAt, FirstItems, LastItems, NestedItems, BodyBytes;
    BlobsRecovered(f);
    MoreBlobsRecovered(f);
    WideFieldsRecovered(f);
    LastFieldsRecovered(f);
    NestedFieldsRecovered(f);
    NestedTableFound(PlanOf(f));
  }

  lemma BlobsRecovered(f: Fields)
    requires ValidFields(f) && ImageLength(PlanOf(f)) < SIZE
    ensures var m := Image(PlanOf(f));
            && Follow(m, 4 * 2) == Follow(m, 4 * 6) == Bytes(LE(f.qqUin))
            && Follow(m, 4 * 4) == Bytes(f.sigInfo) && Follow(m, 4 * 5) == Bytes(f.aesKey)
  {
    hide Image, Follow, ValidPlan, ImageLength;
    var pl := PlanOf(f);
    FirstVariableRead(pl, 1);
    FirstVariableRead(pl, 2);
    FirstVariableRead(pl, 4);
    FirstVariableRead(pl, 5);
  }

  lemma MoreBlobsRecovered(f: Fields)
    requires ValidFields(f) && ImageLength(PlanOf(f)) < SIZE
    ensures var m := Image(PlanOf(f));
            Follow(m, 4 * 25) == Bytes(f.var25) && Follow(m, 4 * 27) == Bytes(f.var27)
  {
    hide Image, Follow, ValidPlan, ImageLength;
    FirstVariableRead(PlanOf(f), 10);
    FirstVariableRead(PlanOf(f), 12);
  }

  lemma WideFieldsRecovered(f: Fields)
    requires ValidFields(f) && ImageLength(PlanOf(f)) < SIZE
    ensures var m := Image(PlanOf(f));
            Follow(m, 4 * 33) == Bytes(WideBytes(f.var33)) && Follow(m, 4 * 19) == Bytes(WideBytes(f.var19))
  {
    hide Image, Follow, ValidPlan, ImageLength;
    FirstVariableRead(PlanOf(f), 14);
    FirstVariableRead(PlanOf(f), 17);
  }

  lemma LastFieldsRecovered(f: Fields)
    requires ValidFields(f) && ImageLength(PlanOf(f)) < SIZE
    ensures var m := Image(PlanOf(f));
            && Follow(m, 4 * 60) == Bytes(f.var60)
            && Follow(m, 4 * 14) == Bytes(WideBytes(f.clientExe)) && Follow(m, 4 * 15) == Bytes(WideBytes(f.var15))
  {
    hide Image, Follow, ValidPlan, ImageLength;
    var pl := PlanOf(f);
    LastVariableRead(pl, 1);
    LastVariableRead(pl, 2);
    LastVariableRead(pl, 4);
  }

  lemma NestedFieldsRecovered(f: Fields)
    requires ValidFields(f) && ImageLength(PlanOf(f)) < SIZE
    ensures var m, t := Image(PlanOf(f)), NestedPos(PlanOf(f));
            && Follow(m, t + 4) == Bytes(WideBytes(f.connection)) && Follow(m, t + 8) == Bytes(WideBytes(f.ip))
            && Follow(m, t + 16) == Bytes(WideBytes(f.v20v5)) && Follow(m, t + 32) == Bytes(f.v20v9 + [0])
            && Follow(m, t + 20) == Follow(m, t + 24) == Bytes(LE(f.qqUin))
  {
    hide Image, Follow, ValidPlan, ImageLength, NestedPos;
    var pl := PlanOf(f);
    NestedVariableRead(pl, 0);
    NestedVariableRead(pl, 1);
    NestedVariableRead(pl, 3);
    NestedVariableRead(pl, 4);
    NestedVariableRead(pl, 5);
    NestedVariableRead(pl, 7);
  }

  /** The variables that hold the same bytes whatever the fields are. */
  lemma ConstantsRecovered(f: Fields)
    requires ValidFields(f) && ImageLength(PlanOf(f)) < SIZE
    ensures var m, t := Image(PlanOf(f)), NestedPos(PlanOf(f));
            && Follow(m, 4 * 1) == Bytes([0x01, 0x0A, 0x30, 0x00]) && Follow(m, 4 * 3) == Bytes([0x60])
            && Follow(m, 4 * 7) == Bytes([]) && Follow(m, 4 * 16) == Bytes([0, 0])
            && Follow(m, 4 * 17) == Follow(m, 4 * 18) == Follow(m, 4 * 36) == Bytes([1, 0, 0, 0])
            && Follow(m, 4 * 21) == Follow(m, 4 * 23) == Bytes([0]) && Follow(m, 4 * 22) == Follow(m, 4 * 24) == Bytes([])
            && Follow(m, 4 * 26) == Bytes([0x48]) && Follow(m, 4 * 32) == Bytes([3, 0, 0, 0])
            && Follow(m, 4 * 37) == Follow(m, 4 * 40) == Follow(m, 4 * 41) == Follow(m, 4 * 42) == Bytes([0, 0, 0, 0])
            && Follow(m, t + 12) == Bytes([0x0A, 0x2B, 0, 0]) && Follow(m, t + 28) == Bytes([5, 0, 0, 0])
            && Follow(m, t + 36) == Bytes([0, 0])
  {
    hide Image, Follow, ValidPlan, ImageLength, NestedPos, FirstItems, LastItems, NestedItems;
    EarlyConstants(f);
    EmptyConstants(f);
    MiddleConstants(f);
    LateConstants(f);
    NestedConstants(f);
  }

  lemma EarlyConstants(f: Fields)
    requires ValidFields(f) && ImageLength(PlanOf(f)) < SIZE
    ensures var m := Image(PlanOf(f));
            && Follow(m, 4 * 1) == Bytes([0x01, 0x0A, 0x30, 0x00]) && Follow(m, 4 * 3) == Bytes([0x60])
            && Follow(m, 4 * 26) == Bytes([0x48])
  {
    hide Image, Follow, ValidPlan, ImageLength;
    var pl := PlanOf(f);
    FirstVariableRead(pl, 0);
    FirstVariableRead(pl, 3);
    FirstVariableRead(pl, 11);
  }

  lemma EmptyConstants(f: Fields)
    requires ValidFields(f) && ImageLength(PlanOf(f)) < SIZE
    ensures var m := Image(PlanOf(f));
            Follow(m, 4 * 21) == Follow(m, 4 * 23) == Bytes([0]) && Follow(m, 4 * 22) == Follow(m, 4 * 24) == Bytes([])
  {
    hide Image, Follow, ValidPlan, ImageLength;
    var pl := PlanOf(f);
    FirstVariableRead(pl, 6);
    FirstVariableRead(pl, 7);
    FirstVariableRead(pl, 8);
    FirstVariableRead(pl, 9);
  }

  lemma MiddleConstants(f: Fields)
    requires ValidFields(f) && ImageLength(PlanOf(f)) < SIZE
    ensures var m := Image(PlanOf(f));
            && Follow(m, 4 * 17) == Follow(m, 4 * 18) == Follow(m, 4 * 36) == Bytes([1, 0, 0, 0])
            && Follow(m, 4 * 32) == Bytes([3, 0, 0, 0])
            && Follow(m, 4 * 37) == Follow(m, 4 * 40) == Follow(m, 4 * 42) == Bytes([0, 0, 0, 0])
  {
    hide Image, Follow, ValidPlan, ImageLength;
    var pl := PlanOf(f);
    FirstVariableRead(pl, 13);
    FirstVariableRead(pl, 15);
    FirstVariableRead(pl, 16);
    FirstVariableRead(pl, 18);
    FirstVariableRead(pl, 19);
    FirstVariableRead(pl, 20);
    FirstVariableRead(pl, 21);
  }

  lemma LateConstants(f: Fields)
    requires ValidFields(f) && ImageLength(PlanOf(f)) < SIZE
    ensures var m := Image(PlanOf(f));
            && Follow(m, 4 * 7) == Bytes([]) && Follow(m, 4 * 16) == Bytes([0, 0]) && Follow(m, 4 * 41) == Bytes([0, 0, 0, 0])
  {
    hide Image, Follow, ValidPlan, ImageLength;
    var pl := PlanOf(f);
    LastVariableRead(pl, 0);
    LastVariableRead(pl, 3);
    LastVariableRead(pl, 5);
  }

  lemma NestedConstants(f: Fields)
    requires ValidFields(f) && ImageLength(PlanOf(f)) < SIZE
    ensures var m, t := Image(PlanOf(f)), NestedPos(PlanOf(f));
            && Follow(m, t + 12) == Bytes([0x0A, 0x2B, 0, 0]) && Follow(m, t + 28) == Bytes([5, 0, 0, 0])
            && Follow(m, t + 36) == Bytes([0, 0])
  {
    hide Image, Follow, ValidPlan, ImageLength, NestedPos;
    var pl := PlanOf(f);
    NestedVariableRead(pl, 2);
    NestedVariableRead(pl, 6);
    NestedVariableRead(pl, 8);
  }

  /** The slots that lead nowhere. */
  lemma UnusedSlots(f: Fields, k: nat)
    requires ValidFields(f) && ImageLength(PlanOf(f)) < SIZE
    ensures var m, t := Image(PlanOf(f)), NestedPos(PlanOf(f));
            && WordAt(m, 0) == 64
            && (8 <= k <= 13 || 28 <= k <= 31 || k in {34, 35, 38, 39} || 43 <= k <= 59 || 61 <= k <= 64 ==> Follow(m, 4 * k) == Nothing)
            && (10 <= k <= 16 ==> t + 4 * k + 4 <= |m| && Follow(m, t + 4 * k) == Nothing)
  {
    hide Image, Follow, ImageLength, NestedPos, ValidPlan, WordAt;
    UnusedSlot(PlanOf(f), k);
    SlotsInUse(f, k);
    hide FirstItems, LastItems, NestedItems;
  }

  lemma SlotsInUse(f: Fields, k: nat)
    ensures UsesSlot(FirstItems(f), k) ==> 1 <= k <= 6 || 17 <= k <= 19 || 21 <= k <= 27 || k in {32, 33, 36, 37, 40, 42}
    ensures UsesSlot(LastItems(f), k) ==> k in {7, 14, 15, 16, 41, 60}
    ensures UsesSlot(NestedItems(f), k) ==> 1 <= k <= 9
  {
  }

  /** What following a table word means: the word at `p` is the place of a length and of as many bytes. */
  lemma FollowExactlyWhen(m: seq<Byte>, p: nat, bs: seq<Byte>)
    requires p + 4 <= |m| < SIZE
    ensures Follow(m, p) == Bytes(bs) <==>
              var off: int := FromLE(m[p..p + 4]);
              off != 0 && off + 4 + |bs| <= |m| && FromLE(m[off..off + 4]) == |bs| && m[off + 4..off + 4 + |bs|] == bs
    ensures Follow(m, p) == Nothing <==> m[p..p + 4] == [0, 0, 0, 0]
  {
    hide FromLE;
    ZeroWord(m[p..p + 4]);
  }

  lemma ZeroWord(s: seq<Byte>)
    requires |s| == 4
    ensures FromLE(s) == 0 <==> s == [0, 0, 0, 0]
  {
  }

  /** The record that the word at `p` leads to ends at `e`. */
  predicate EndsAt(m: seq<Byte>, p: nat, e: nat) {
    p + 4 <= |m| && WordAt(m, p) + 4 <= |m| && WordAt(m, p) + 4 + WordAt(m, WordAt(m, p)) == e
  }

  /** What slot `j` leads to starts where what slot `i` leads to ends. */
  predicate Next(m: seq<Byte>, table: nat, i: nat, j: nat) {
    table + 4 * j + 4 <= |m| && EndsAt(m, table + 4 * i, WordAt(m, table + 4 * j))
  }

  /** What the words of a table at `table` lead to lies one behind the other, in the order of `slots`. */
  predicate FollowEachOther(m: seq<Byte>, table: nat, slots: seq<nat>) {
    forall i :: 0 <= i < |slots| - 1 ==> Next(m, table, slots[i], slots[i + 1])
  }

  predicate HasSlots(items: seq<Item>, slots: seq<nat>) {
    |items| == |slots| && forall i :: 0 <= i < |items| ==> items[i].slot == slots[i]
  }

  lemma RecordEnds(image: seq<Byte>, p: nat, base: nat, items: seq<Item>, i: nat)
    requires ValidItems(items) && i < |items| && |image| < SIZE
    requires Lies(image, p, LE(Wrap(StartOf(base, items, i)))) && Lies(image, StartOf(base, items, i), Record(items[i].body))
    ensures WordAt(image, p) == StartOf(base, items, i) && EndsAt(image, p, StartOf(base, items, i + 1))
  {
    hide LE, FromLE, BodyBytes, WordAt;
    var off, b := StartOf(base, items, i), items[i].body;
    var n, r := |BodyBytes(b)|, Record(b);
    WordIsWrapped(off);
    WordLies(image, p, off);
    WordIsWrapped(n);
    LiesInSum([], LE(Wrap(n)), BodyBytes(b));
    assert [] + LE(Wrap(n)) + BodyBytes(b) == r;
    LiesInside(image, off, r, 0, LE(Wrap(n)));
    WordLies(image, off, n);
    assert items[..i + 1][..i] == items[..i];
  }

  lemma FirstRecordEnds(pl: Plan, i: nat)
    requires ValidPlan(pl) && ImageLength(pl) < SIZE && i < |pl.first|
    ensures 4 * pl.first[i].slot + 4 <= |Image(pl)| && WordAt(Image(pl), 4 * pl.first[i].slot) == StartOf(HEADER, pl.first, i)
    ensures EndsAt(Image(pl), 4 * pl.first[i].slot, StartOf(HEADER, pl.first, i + 1))
  {
    hide Image, ImageLength, StartOf, EndsAt, ValidPlan, WordAt, Record;
    FirstVariableLies(pl, i);
    ItemsValid(pl);
    RecordEnds(Image(pl), 4 * pl.first[i].slot, HEADER, pl.first, i);
  }

  lemma LastRecordEnds(pl: Plan, i: nat)
    requires ValidPlan(pl) && ImageLength(pl) < SIZE && i < |pl.last|
    ensures 4 * pl.last[i].slot + 4 <= |Image(pl)| && WordAt(Image(pl), 4 * pl.last[i].slot) == StartOf(LastPos(pl), pl.last, i)
    ensures EndsAt(Image(pl), 4 * pl.last[i].slot, StartOf(LastPos(pl), pl.last, i + 1))
  {
    hide Image, ImageLength, StartOf, EndsAt, ValidPlan, LastPos, WordAt;
    LastVariableLies(pl, i);
    ItemsValid(pl);
    RecordEnds(Image(pl), 4 * pl.last[i].slot, LastPos(pl), pl.last, i);
  }

  lemma NestedRecordEnds(pl: Plan, i: nat)
    requires ValidPlan(pl) && ImageLength(pl) < SIZE && i < |pl.nested|
    ensures var p := NestedPos(pl) + 4 * pl.nested[i].slot;
            && p + 4 <= |Image(pl)| && WordAt(Image(pl), p) == StartOf(NestedPos(pl) + NESTED, pl.nested, i)
            && EndsAt(Image(pl), p, StartOf(NestedPos(pl) + NESTED, pl.nested, i + 1))
  {
    hide Image, ImageLength, StartOf, EndsAt, ValidPlan, NestedPos, WordAt;
    NestedVariableLies(pl, i);
    ItemsValid(pl);
    RecordEnds(Image(pl), NestedPos(pl) + 4 * pl.nested[i].slot, NestedPos(pl) + NESTED, pl.nested, i);
  }

  lemma ItemsValid(pl: Plan)
    requires ValidPlan(pl)
    ensures ValidItems(pl.first) && ValidItems(pl.nested) && ValidItems(pl.last)
  {
    hide ValidItems;
  }

  lemma FirstOrder(pl: Plan, slots: seq<nat>)
    requires ValidPlan(pl) && ImageLength(pl) < SIZE && |pl.first| > 0 && HasSlots(pl.first, slots)
    ensures FollowEachOther(Image(pl), 0, slots + [NESTED_SLOT]) && WordAt(Image(pl), 4 * slots[0]) == HEADER
  {
    hide Image, ImageLength, WordAt, EndsAt, ValidPlan, StartOf;
    var n := |slots|;
    ItemsValid(pl);
    NestedTableFound(pl);
    FirstRecordEnds(pl, 0);
    EndsOfList(HEADER, pl.first);
    forall i: nat | i < n ensures Next(Image(pl), 0, slots[i], (slots + [NESTED_SLOT])[i + 1]) {
      FirstRecordEnds(pl, i);
      if i + 1 < n {
        FirstRecordEnds(pl, i + 1);
      }
    }
  }

  lemma NestedOrder(pl: Plan, slots: seq<nat>)
    requires ValidPlan(pl) && ImageLength(pl) < SIZE && |pl.nested| > 0 && |pl.last| > 0 && HasSlots(pl.nested, slots)
    ensures var m, t := Image(pl), NestedPos(pl);
            && FollowEachOther(m, t, slots)
            && t + 4 * slots[0] + 4 <= |m| && WordAt(m, t + 4 * slots[0]) == t + NESTED
            && EndsAt(m, t + 4 * slots[|slots| - 1], WordAt(m, 4 * pl.last[0].slot))
  {
    hide Image, ImageLength, WordAt, EndsAt, ValidPlan, NestedPos, StartOf;
    var n := |slots|;
    ItemsValid(pl);
    NestedRecordEnds(pl, 0);
    NestedRecordEnds(pl, n - 1);
    LastRecordEnds(pl, 0);
    EndsOfList(NestedPos(pl) + NESTED, pl.nested);
    EndsOfList(LastPos(pl), pl.last);
    forall i: nat | i < n - 1 ensures Next(Image(pl), NestedPos(pl), slots[i], slots[i + 1]) {
      NestedRecordEnds(pl, i);
      NestedRecordEnds(pl, i + 1);
    }
  }

  lemma LastOrder(pl: Plan, slots: seq<nat>)
    requires ValidPlan(pl) && ImageLength(pl) < SIZE && |pl.last| > 0 && HasSlots(pl.last, slots)
    ensures FollowEachOther(Image(pl), 0, slots) && EndsAt(Image(pl), 4 * slots[|slots| - 1], |Image(pl)|)
  {
    hide Image, WordAt, EndsAt, ValidPlan, LastPos, StartOf;
    var n := |slots|;
    ItemsValid(pl);
    LastRecordEnds(pl, n - 1);
    EndsOfList(LastPos(pl), pl.last);
    forall i: nat | i < n - 1 ensures Next(Image(pl), 0, slots[i], slots[i + 1]) {
      LastRecordEnds(pl, i);
      LastRecordEnds(pl, i + 1);
    }
  }

  lemma EndsOfList(base: nat, items: seq<Item>)
    requires ValidItems(items)
    ensures StartOf(base, items, 0) == base && StartOf(base, items, |items|) == base + |Records(items)|
  {
    assert items[..|items|] == items && items[..0] == [];
  }

  lemma SlotsInOrder(f: Fields)
    ensures HasSlots(FirstItems(f), [1, 2, 6, 3, 4, 5, 21, 22, 23, 24, 25, 26, 27, 32, 33, 17, 18, 19, 36, 37, 40, 42])
    ensures HasSlots(NestedItems(f), [1, 2, 3, 4, 5, 6, 7, 8, 9]) && HasSlots(LastItems(f), [7, 60, 14, 41, 15, 16])
  {
  }

  /** The records stand in the order in which the source writes them, each where the one before ends: the first behind the
      260 bytes of the header, the first part of variable 20 behind the 68 bytes of its table, the last at the end. */
  lemma WritingOrder(f: Fields)
    requires ValidFields(f) && ImageLength(PlanOf(f)) < SIZE
    ensures var m, t := Image(PlanOf(f)), NestedPos(PlanOf(f));
            && WordAt(m, 4 * 1) == 260
            && FollowEachOther(m, 0, [1, 2, 6, 3, 4, 5, 21, 22, 23, 24, 25, 26, 27, 32, 33, 17, 18, 19, 36, 37, 40, 42, 20])
            && t + 8 <= |m| && WordAt(m, t + 4) == t + 68
            && FollowEachOther(m, t, [1, 2, 3, 4, 5, 6, 7, 8, 9])
            && EndsAt(m, t + 4 * 9, WordAt(m, 4 * 7))
            && FollowEachOther(m, 0, [7, 60, 14, 41, 15, 16])
            && EndsAt(m, 4 * 16, |m|)
  {
    var pl := PlanOf(f);
    var first: seq<nat> := [1, 2, 6, 3, 4, 5, 21, 22, 23, 24, 25, 26, 27, 32, 33, 17, 18, 19, 36, 37, 40, 42];
    SlotsInOrder(f);
    hide Image, ImageLength, WordAt, EndsAt, NestedPos, FollowEachOther, ValidPlan, FirstItems, LastItems, NestedItems, HasSlots;
    FirstOrder(pl, first);
    NestedOrder(pl, [1, 2, 3, 4, 5, 6, 7, 8, 9]);
    LastOrder(pl, [7, 60, 14, 41, 15, 16]);
    assert first + [20] == [1, 2, 6, 3, 4, 5, 21, 22, 23, 24, 25, 26, 27, 32, 33, 17, 18, 19, 36, 37, 40, 42, 20];
  }
}
