/** The image writer: reserve the tables, append the records, seek back and fill the tables in. */
module TclsWriter {
  import opened Words
  import opened ByteBuffer
  import opened TclsImage

  lemma AppendedAtEnd(s: seq<Byte>, bs: seq<Byte>)
    ensures Overwritten(s, |s|, bs) == s + bs
  {
  }

  /** The cursor stands at the end of the buffer. */
  ghost predicate AtEnd(b: AgBuffer)
    reads b, b.data
  {
    b.Valid() && b.position == b.virtualLength && b.endianness == Small
  }

  method PutBody(b: AgBuffer, body: Body)
    requires AtEnd(b) && ValidBody(body)
    modifies b, b.data
    ensures AtEnd(b) && (b.data == old(b.data) || fresh(b.data))
    ensures b.Contents() == old(b.Contents()) + BodyBytes(body)
  {
    hide Overwritten;
    AppendedAtEnd(b.Contents(), BodyBytes(body));
    match body
    case U32(w) => b.WriteU32(w);
    case U16(h) => b.WriteU16(h);
    case U8(v) => b.WriteU8(v);
    case Blob(bs) => b.WriteData(bs);
    case Wide(ws) => b.WriteWString(ws);
    case Str(s) => b.WriteString(s);
    case Empty =>
  }

  /** The length the source writes in front of a body. */
  function Prefix(body: Body): nat {
    match body
    case U32(_) => 4
    case U16(_) => 2
    case U8(_) => 1
    case Blob(bs) => |bs|
    case Wide(ws) => |ws| * 2
    case Str(s) => |s| + 1
    case Empty => 0
  }

  /** One variable: its position is noted, then length and body are appended. */
  method PutRecord(b: AgBuffer, body: Body) returns (position: nat)
    requires AtEnd(b) && ValidBody(body)
    modifies b, b.data
    ensures AtEnd(b) && (b.data == old(b.data) || fresh(b.data))
    ensures position == |old(b.Contents())|
    ensures b.Contents() == old(b.Contents()) + Record(body)
  {
    hide Overwritten;
    position := b.position;
    AppendedAtEnd(b.Contents(), LE(Wrap(Prefix(body))));
    b.WriteU32(Wrap(Prefix(body)));
    ghost var prefixed := b.Contents();
    PutBody(b, body);
    assert prefixed + BodyBytes(body) == old(b.Contents()) + Record(body);
  }

  method PutRecords(b: AgBuffer, items: seq<Item>) returns (offsets: map<nat, nat>)
    requires AtEnd(b) && ValidItems(items)
    modifies b, b.data
    ensures AtEnd(b) && (b.data == old(b.data) || fresh(b.data))
    ensures b.Contents() == old(b.Contents()) + Records(items)
    ensures offsets == Offsets(|old(b.Contents())|, items)
  {
    hide Record;
    offsets := map[];
    var i := 0;
    ghost var start := b.Contents();
    assert start + Records(items[..0]) == start;
    while i < |items|
      invariant 0 <= i <= |items|
      invariant AtEnd(b) && (b.data == old(b.data) || fresh(b.data))
      invariant b.Contents() == start + Records(items[..i])
      invariant offsets == Offsets(|start|, items[..i])
    {
      var p := PutRecord(b, items[i].body);
      offsets := offsets[items[i].slot := p];
      ghost var next := items[..i + 1];
      assert next[..i] == items[..i] && next[i] == items[i];
      assert start + Records(items[..i]) + Record(items[i].body) == start + Records(next);
      i := i + 1;
    }
    assert items[..i] == items;
  }

  method PutZeros(b: AgBuffer, n: nat)
    requires AtEnd(b)
    modifies b, b.data
    ensures AtEnd(b) && (b.data == old(b.data) || fresh(b.data))
    ensures b.Contents() == old(b.Contents()) + Zeros(n)
  {
    AppendedAtEnd(b.Contents(), Zeros(n));
    b.WriteRepeat(0, n);
    assert seq(n, i => 0) == Zeros(n);
  }

  /** The size word and the 64 slots. */
  method ReserveHeader(b: AgBuffer)
    requires AtEnd(b) && b.Contents() == []
    modifies b, b.data
    ensures AtEnd(b) && (b.data == old(b.data) || fresh(b.data))
    ensures b.Contents() == Zeros(HEADER)
  {
    AppendedAtEnd([], LE(0));
    b.WriteU32(0);
    assert b.Contents() == Zeros(4);
    PutZeros(b, 4 * 64);
    assert Zeros(4) + Zeros(256) == Zeros(HEADER);
  }

  /** Header, first variables, and the place of the nested table. */
  method WriteUpToNested(b: AgBuffer, items: seq<Item>) returns (offsets: map<nat, nat>, nestedPos: nat)
    requires AtEnd(b) && b.Contents() == [] && ValidItems(items)
    modifies b, b.data
    ensures AtEnd(b) && (b.data == old(b.data) || fresh(b.data))
    ensures b.Contents() == Zeros(HEADER) + Records(items) + Zeros(NESTED)
    ensures offsets == Offsets(HEADER, items) && nestedPos == HEADER + |Records(items)|
  {
    hide Records, Offsets, Zeros, ValidItems;
    ReserveHeader(b);
    offsets := PutRecords(b, items);
    nestedPos := b.position;
    PutZeros(b, NESTED);
  }

  method PutBoth(b: AgBuffer, items: seq<Item>, more: seq<Item>) returns (o: map<nat, nat>, o': map<nat, nat>)
    requires AtEnd(b) && ValidItems(items) && ValidItems(more)
    modifies b, b.data
    ensures AtEnd(b) && (b.data == old(b.data) || fresh(b.data))
    ensures b.Contents() == old(b.Contents()) + Records(items) + Records(more)
    ensures var p := |old(b.Contents())|; o == Offsets(p, items) && o' == Offsets(p + |Records(items)|, more)
  {
    hide Records, Offsets, ValidItems;
    o := PutRecords(b, items);
    o' := PutRecords(b, more);
  }

  /** The buffer between the passes: zeros where the tables will be. */
  function FirstPass(pl: Plan): seq<Byte>
    requires ValidItems(pl.first) && ValidItems(pl.nested) && ValidItems(pl.last)
  {
    Zeros(HEADER) + Records(pl.first) + Zeros(NESTED) + Records(pl.nested) + Records(pl.last)
  }

  lemma SmallDword(w: Word)
    ensures U32Bytes(w, Small) == LE(w)
  {
  }

  lemma TableSnoc(t: map<nat, nat>, from: nat, k: nat)
    ensures Table(t, from, k + 1) == Table(t, from, k) + LE(TableEntry(t, from + k))
  {
  }

  /** One DWORD over what is there. */
  method FillOne(b: AgBuffer, w: Word, ghost s: seq<Byte>, ghost p: nat, ghost before: seq<Byte>)
    requires b.Valid() && b.endianness == Small && b.position + 4 <= b.virtualLength
    requires p + |before| == b.position && |s| == b.virtualLength && b.Contents() == Overwritten(s, p, before)
    modifies b, b.data
    ensures b.Valid() && b.endianness == Small && (b.data == old(b.data) || fresh(b.data))
    ensures b.position == old(b.position) + 4 && b.virtualLength == old(b.virtualLength)
    ensures b.Contents() == Overwritten(s, p, before + LE(w))
  {
    hide Overwritten, LE, U32Bytes;
    SmallDword(w);
    assert b.Seen() == b.Contents();
    b.WriteU32(w);
    OverwrittenTwice(s, p, before, LE(w));
  }

  /** Word `k` of a table, after the `k` before it. */
  method FillNext(b: AgBuffer, t: map<nat, nat>, from: nat, k: nat, ghost s: seq<Byte>, ghost p: nat)
    requires b.Valid() && b.endianness == Small && b.position + 4 <= b.virtualLength
    requires b.position == p + 4 * k && b.virtualLength == |s| && b.Contents() == Overwritten(s, p, Table(t, from, k))
    modifies b, b.data
    ensures b.Valid() && b.endianness == Small && (b.data == old(b.data) || fresh(b.data))
    ensures b.position == p + 4 * (k + 1) && b.virtualLength == |s|
    ensures b.Contents() == Overwritten(s, p, Table(t, from, k + 1))
  {
    hide Overwritten, LE, TableEntry, Table;
    FillOne(b, TableEntry(t, from + k), s, p, Table(t, from, k));
    TableSnoc(t, from, k);
  }

  /** `n` consecutive DWORDs of a table, written over what is there. */
  method FillTable(b: AgBuffer, t: map<nat, nat>, from: nat, n: nat)
    requires b.Valid() && b.endianness == Small && b.position + 4 * n <= b.virtualLength
    modifies b, b.data
    ensures b.Valid() && b.endianness == Small && (b.data == old(b.data) || fresh(b.data))
    ensures b.Contents() == Overwritten(old(b.Contents()), old(b.position), Table(t, from, n))
    ensures b.position == old(b.position) + 4 * n
  {
    var k := 0;
    ghost var s, p := b.Contents(), b.position;
    NothingWritten(s, p);
    assert Table(t, from, 0) == [];
    hide Overwritten, LE, TableEntry, Table;
    while k < n
      invariant 0 <= k <= n
      invariant b.Valid() && b.endianness == Small && (b.data == old(b.data) || fresh(b.data))
      invariant b.position == p + 4 * k && b.virtualLength == |s|
      invariant b.Contents() == Overwritten(s, p, Table(t, from, k))
    {
      FillNext(b, t, from, k, s, p);
      k := k + 1;
    }
  }

  lemma NothingWritten(s: seq<Byte>, p: nat)
    requires p <= |s|
    ensures Overwritten(s, p, []) == s
  {
  }

  lemma PlanParts(pl: Plan)
    requires ValidPlan(pl)
    ensures ValidItems(pl.first) && ValidItems(pl.nested) && ValidItems(pl.last)
    ensures NestedPos(pl) == HEADER + |Records(pl.first)| && LastPos(pl) == NestedPos(pl) + NESTED + |Records(pl.nested)|
    ensures MainOffsets(pl) == Offsets(HEADER, pl.first) + map[NESTED_SLOT := NestedPos(pl)] + Offsets(LastPos(pl), pl.last)
    ensures NestedOffsets(pl) == map[0 := NestedPos(pl) + 4] + Offsets(NestedPos(pl) + NESTED, pl.nested)
  {
    hide DistinctSlots, Records, Offsets, Record, ValidBody;
  }

  lemma FirstPassParts(pl: Plan)
    requires ValidPlan(pl)
    ensures var r, rest := Records(pl.first), Records(pl.nested) + Records(pl.last);
            && FirstPass(pl) == Zeros(HEADER) + r + Zeros(NESTED) + rest
            && Image(pl) == LE(64) + Table(MainOffsets(pl), 1, 64) + r + Table(NestedOffsets(pl), 0, NESTED_WORDS) + rest
  {
    hide DistinctSlots, Records, Table, MainOffsets, NestedOffsets, Zeros, LE, ValidBody;
  }

  class Writer {
    /** The stored positions, by slot: var_N_offset and var_20_vN_offset. */
    var offsets: map<nat, nat>
    var nestedOffsets: map<nat, nat>
    /** var_20_offset_table_pos */
    var nestedTablePos: nat

    constructor ()
    {
      offsets, nestedOffsets, nestedTablePos := map[], map[], 0;
    }

    /** First pass: both tables zero, every record in place, every position stored. */
    method WriteRecords(b: AgBuffer, pl: Plan)
      requires AtEnd(b) && b.Contents() == [] && ValidItems(pl.first) && ValidItems(pl.nested) && ValidItems(pl.last)
      modifies this, b, b.data
      ensures AtEnd(b) && (b.data == old(b.data) || fresh(b.data))
      ensures b.Contents() == FirstPass(pl)
      ensures var n := HEADER + |Records(pl.first)|;
              var l := n + NESTED + |Records(pl.nested)|;
              && offsets == Offsets(HEADER, pl.first) + map[NESTED_SLOT := n] + Offsets(l, pl.last)
              && nestedOffsets == map[0 := n + 4] + Offsets(n + NESTED, pl.nested)
              && nestedTablePos == n
    {
      hide Records, Offsets, Zeros, ValidItems;
      var first, nestedPos := WriteUpToNested(b, pl.first);
      var nested, last := PutBoth(b, pl.nested, pl.last);
      offsets := first + map[NESTED_SLOT := nestedPos] + last;
      nestedOffsets := map[0 := nestedPos + 4] + nested;
      nestedTablePos := nestedPos;
    }

    /** Second pass: the nested table, then word 0 and the main table. */
    method FillTables(b: AgBuffer, ghost r: seq<Byte>, ghost rest: seq<Byte>)
      requires b.Valid() && b.endianness == Small && nestedTablePos == HEADER + |r|
      requires b.Contents() == Zeros(HEADER) + r + Zeros(NESTED) + rest
      modifies b, b.data
      ensures b.Valid() && (b.data == old(b.data) || fresh(b.data))
      ensures b.Contents() == LE(64) + Table(offsets, 1, 64) + r + Table(nestedOffsets, 0, NESTED_WORDS) + rest
    {
      hide Table, Overwritten, LE, Zeros;
      ghost var t2 := Table(nestedOffsets, 0, NESTED_WORDS);
      b.Seek(nestedTablePos);
      FillTable(b, nestedOffsets, 0, NESTED_WORDS);
      Replaced(Zeros(HEADER) + r, Zeros(NESTED), t2, rest);
      ghost var tail := r + t2 + rest;
      Regrouped(Zeros(HEADER), LE(64), Table(offsets, 1, 64), r, t2, rest);
      FillMain(b, tail);
    }

    /** The size word and the main table, over the reserved header. */
    method FillMain(b: AgBuffer, ghost tail: seq<Byte>)
      requires b.Valid() && b.endianness == Small && b.Contents() == [] + Zeros(HEADER) + tail
      modifies b, b.data
      ensures b.Valid() && (b.data == old(b.data) || fresh(b.data))
      ensures b.Contents() == [] + (LE(64) + Table(offsets, 1, 64)) + tail
    {
      hide Table, Overwritten, LE, Zeros;
      ghost var y, t1 := b.Contents(), Table(offsets, 1, 64);
      b.Seek(0);
      NothingWritten(y, 0);
      FillOne(b, 64, y, 0, []);
      FillTable(b, offsets, 1, 64);
      assert [] + LE(64) == LE(64);
      OverwrittenTwice(y, 0, LE(64), t1);
      Replaced([], Zeros(HEADER), LE(64) + t1, tail);
    }

    /** The whole writer; nothing reaches `dst` when it is too short, but the length is returned all the same. */
    method Write(f: Fields, dst: array<Byte>) returns (n: nat)
      requires ValidFields(f)
      modifies this, dst
      ensures n == ImageLength(PlanOf(f))
      ensures if n <= dst.Length then dst[..n] == Image(PlanOf(f)) && dst[n..] == old(dst[n..])
              else dst[..] == old(dst[..])
    {
      hide PlanOf, ValidPlan, Image, Records, ImageLength, Offsets, MainOffsets, NestedOffsets, NestedPos, LastPos, ValidItems, FirstPass;
      hide Table, LE, Zeros;
      var pl := PlanOf(f);
      PlanParts(pl);
      FirstPassParts(pl);
      var buf := new AgBuffer();
      WriteRecords(buf, pl);
      FillTables(buf, Records(pl.first), Records(pl.nested) + Records(pl.last));
      assert buf.Contents() == Image(pl);
      n := buf.virtualLength;
      buf.GetData(0, n, dst);
    }
  }

  lemma Regrouped(z: seq<Byte>, w: seq<Byte>, t1: seq<Byte>, r: seq<Byte>, t2: seq<Byte>, rest: seq<Byte>)
    ensures z + r + t2 + rest == [] + z + (r + t2 + rest)
    ensures [] + (w + t1) + (r + t2 + rest) == w + t1 + r + t2 + rest
  {
  }

  /** Overwriting a reserved stretch with as many bytes changes nothing around it. */
  lemma Replaced(a: seq<Byte>, reserved: seq<Byte>, bs: seq<Byte>, c: seq<Byte>)
    requires |bs| == |reserved|
    ensures Overwritten(a + reserved + c, |a|, bs) == a + bs + c
  {
  }
}
