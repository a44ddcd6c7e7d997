/** Any sequence of buffer operations behaves as on a plain byte sequence with a cursor. */
module BufferRuns {
  import opened Words
  import opened ByteBuffer

  datatype Op =
    | PutU8(b: Byte) | PutU16(h: nat) | PutU32(w: Word) | PutData(bs: seq<Byte>)
    | PutRepeat(b: Byte, count: nat) | PutString(bs: seq<Byte>) | PutWide(ws: seq<int>)
    | SeekTo(p: nat) | SetLen(n: nat) | SetOrder(e: Endianness)
    | GetU8 | GetU16 | GetU32 | GetString | TakeData(count: nat) | CopyOut(from: nat, count: nat, room: nat)

  /** What an operation hands back: nothing, a number, or bytes. */
  datatype Out = Nothing | Num(n: int) | Text(s: seq<Byte>)

  predicate Units(ws: seq<int>) {
    forall i :: 0 <= i < |ws| ==> 0 <= ws[i] < 0x1_0000
  }

  predicate Sane(op: Op) {
    (op.PutU16? ==> op.h < 0x1_0000) && (op.PutWide? ==> Units(op.ws))
  }

  function Repeated(b: Byte, n: nat): (s: seq<Byte>)
    ensures |s| == n
  {
    seq(n, i => b)
  }

  /** All bytes ever exposed, the current end, the cursor and the byte order; no capacity and no growth. */
  datatype Plain = Plain(bytes: seq<Byte>, len: nat, pos: nat, order: Endianness)
  {
    predicate Valid() {
      len <= |bytes| && pos <= |bytes|
    }

    function At(i: nat): Byte
      requires Valid()
    {
      if i < len then bytes[i] else 0
    }

    function Put(bs: seq<Byte>): (m: Plain)
      requires Valid()
      ensures m.Valid()
    {
      if bs == [] then this
      else Plain(Overwritten(bytes, pos, bs), Max(len, pos + |bs|), pos + |bs|, order)
    }

    /** `junk` is what the block happened to hold past everything exposed so far. */
    function Apply(op: Op, junk: seq<Byte>): (m: Plain)
      requires Valid() && Sane(op)
      requires op.SetLen? && op.n > |bytes| ==> |junk| == op.n - |bytes|
      ensures m.Valid()
    {
      match op
      case PutU8(b) => Put([b])
      case PutU16(h) => Put(U16Bytes(h, order))
      case PutU32(w) => Put(U32Bytes(w, order))
      case PutData(bs) => Put(bs)
      case PutRepeat(b, n) => Put(Repeated(b, n))
      case PutString(s) => Put(s + [0])
      case PutWide(ws) => Put(WideBytes(ws))
      case SeekTo(p) => this.(pos := if p > len then len else p)
      case SetLen(n) => if n > |bytes| then this.(bytes := bytes + junk, len := n) else this.(len := n)
      case SetOrder(e) => this.(order := e)
      case GetU8 => this.(pos := Advanced(pos, 1, len))
      case GetU16 => this.(pos := Advanced(pos, 2, len))
      case GetU32 => this.(pos := Advanced(pos, 4, len))
      case GetString => var n := StringLength(pos); this.(pos := if pos + n < len then pos + n + 1 else pos + n)
      case TakeData(n) => this.(pos := if pos + n <= len then pos + n else pos)
      case CopyOut(_, _, _) => this
    }

    /** How many bytes stand before the first NUL or the end. */
    function StringLength(p: nat): (n: nat)
      requires Valid()
      ensures n == 0 || p + n <= len
      decreases if p < len then len - p else 0
    {
      if p >= len || bytes[p] == 0 then 0 else 1 + StringLength(p + 1)
    }

    /** What an operation returns; copied bytes land in a destination that was zero. */
    function Output(op: Op): Out
      requires Valid()
    {
      match op
      case GetU8 => Num(At(pos))
      case GetU16 => Num(Raw16(At(pos), At(pos + 1), order))
      case GetU32 => Num(Swapped32(FromLE([At(pos), At(pos + 1), At(pos + 2), At(pos + 3)]), order))
      case GetString => Text(bytes[pos..pos + StringLength(pos)])
      case TakeData(n) => Text(if pos + n <= len then bytes[pos..pos + n] else Zeros(n))
      case CopyOut(from, n, room) =>
        Text(if from + n <= len && n <= room then bytes[from..from + n] + Zeros(room - n) else Zeros(room))
      case _ => Nothing
    }
  }

  ghost predicate Fits(junk: seq<Byte>, op: Op, m: Plain) {
    op.SetLen? && op.n > |m.bytes| ==> |junk| == op.n - |m.bytes|
  }

  ghost predicate Refines(b: AgBuffer, m: Plain)
    reads b, b.data
  {
    && b.Valid() && m.Valid()
    && b.virtualLength == m.len && b.position == m.pos && b.endianness == m.order
    && |m.bytes| <= b.realLength && b.data[..|m.bytes|] == m.bytes
  }

  /** A finished run: operations, what the block held at each, the outputs and the states in between. */
  ghost predicate PlainRun(ops: seq<Op>, fills: seq<seq<Byte>>, outs: seq<Out>, ms: seq<Plain>) {
    && |fills| == |outs| == |ops| && |ms| == |ops| + 1
    && forall i :: 0 <= i < |ops| ==>
         && ms[i].Valid() && Sane(ops[i]) && Fits(fills[i], ops[i], ms[i])
         && ms[i + 1] == ms[i].Apply(ops[i], fills[i]) && outs[i] == ms[i].Output(ops[i])
  }

  lemma PutRefines(m: Plain, before: seq<Byte>, after: seq<Byte>, contents: seq<Byte>, bs: seq<Byte>)
    requires m.Valid() && bs != [] && |m.bytes| <= |before| <= |after| && before[..|m.bytes|] == m.bytes
    requires m.Put(bs).len <= |after| && contents == after[..m.Put(bs).len]
    requires contents == Overwritten(before[..Max(m.pos, m.len)], m.pos, bs)
    requires forall i :: 0 <= i < |before| && !(m.pos <= i < m.pos + |bs|) ==> after[i] == before[i]
    ensures |m.Put(bs).bytes| <= |after| && after[..|m.Put(bs).bytes|] == m.Put(bs).bytes
  {
    var r := m.Put(bs).bytes;
    forall i | 0 <= i < |r| ensures after[i] == r[i] {
      if m.pos <= i < m.pos + |bs| {
        assert contents[i] == bs[i - m.pos];
      } else {
        assert before[..|m.bytes|][i] == m.bytes[i];
      }
    }
  }

  method Write(b: AgBuffer, bs: seq<Byte>, ghost m: Plain)
    requires Refines(b, m)
    modifies b, b.data
    ensures Refines(b, m.Put(bs)) && (b.data == old(b.data) || fresh(b.data))
  {
    hide Overwritten;
    ghost var before, seen := b.data[..], b.Seen();
    assert seen == before[..Max(m.pos, m.len)];
    b.WriteData(bs);
    if bs != [] {
      PutRefines(m, before, b.data[..], b.Contents(), bs);
    }
  }

  method WriteInt(b: AgBuffer, op: Op, ghost m: Plain)
    requires Refines(b, m) && Sane(op) && (op.PutU8? || op.PutU16? || op.PutU32?)
    modifies b, b.data
    ensures Refines(b, m.Apply(op, [])) && (b.data == old(b.data) || fresh(b.data))
  {
    hide Overwritten, U16Bytes, U32Bytes;
    ghost var before, seen := b.data[..], b.Seen();
    ghost var bs := match op case PutU8(v) => [v] case PutU16(h) => U16Bytes(h, m.order) case PutU32(w) => U32Bytes(w, m.order) case _ => [];
    assert seen == before[..Max(m.pos, m.len)];
    match op {
      case PutU8(v) => b.WriteU8(v);
      case PutU16(h) => b.WriteU16(h);
      case PutU32(w) => b.WriteU32(w);
    }
    PutRefines(m, before, b.data[..], b.Contents(), bs);
  }

  method WriteRepeated(b: AgBuffer, v: Byte, n: nat, ghost m: Plain)
    requires Refines(b, m)
    modifies b, b.data
    ensures Refines(b, m.Put(Repeated(v, n))) && (b.data == old(b.data) || fresh(b.data))
  {
    hide Overwritten;
    ghost var before, seen := b.data[..], b.Seen();
    assert seen == before[..Max(m.pos, m.len)];
    b.WriteRepeat(v, n);
    if n == 0 {
      NothingPut(b, m, before, Repeated(v, n));
    } else {
      PutRefines(m, before, b.data[..], b.Contents(), Repeated(v, n));
    }
  }

  method WriteText(b: AgBuffer, s: seq<Byte>, ghost m: Plain)
    requires Refines(b, m)
    modifies b, b.data
    ensures Refines(b, m.Put(s + [0])) && (b.data == old(b.data) || fresh(b.data))
  {
    hide Overwritten;
    ghost var before, seen := b.data[..], b.Seen();
    assert seen == before[..Max(m.pos, m.len)];
    b.WriteString(s);
    PutRefines(m, before, b.data[..], b.Contents(), s + [0]);
  }

  method WriteUnits(b: AgBuffer, ws: seq<int>, ghost m: Plain)
    requires Refines(b, m) && Units(ws)
    modifies b, b.data
    ensures Refines(b, m.Put(WideBytes(ws))) && (b.data == old(b.data) || fresh(b.data))
  {
    hide Overwritten, WideBytes;
    ghost var before, seen := b.data[..], b.Seen();
    assert seen == before[..Max(m.pos, m.len)];
    b.WriteWString(ws);
    if ws == [] {
      NothingPut(b, m, before, WideBytes(ws));
    } else {
      PutRefines(m, before, b.data[..], b.Contents(), WideBytes(ws));
    }
  }

  lemma NothingPut(b: AgBuffer, m: Plain, before: seq<Byte>, bs: seq<Byte>)
    requires b.Valid() && m.Valid() && b.virtualLength == m.len && b.position == m.pos && b.endianness == m.order
    requires |m.bytes| <= |before| <= b.realLength && before[..|m.bytes|] == m.bytes && bs == []
    requires forall i :: 0 <= i < |before| ==> b.data[i] == before[i]
    ensures Refines(b, m.Put(bs))
  {
    assert b.data[..|m.bytes|] == before[..|m.bytes|];
  }

  lemma SameBytes(b: AgBuffer, m: Plain)
    requires Refines(b, m)
    ensures forall i: nat :: b.At(i) == m.At(i)
  {
    assert forall i :: 0 <= i < m.len ==> b.data[i] == b.data[..|m.bytes|][i];
  }

  method TakeU8(b: AgBuffer, ghost m: Plain) returns (out: Out)
    requires Refines(b, m)
    modifies b`position
    ensures Refines(b, m.Apply(GetU8, [])) && out == m.Output(GetU8)
  {
    SameBytes(b, m);
    hide FromLE, Raw16, Swapped32, Advanced, AgBuffer.At, Plain.At;
    var v := b.ReadU8();
    out := Num(v);
  }

  method TakeU16(b: AgBuffer, ghost m: Plain) returns (out: Out)
    requires Refines(b, m)
    modifies b`position
    ensures Refines(b, m.Apply(GetU16, [])) && out == m.Output(GetU16)
  {
    SameBytes(b, m);
    hide FromLE, Raw16, Swapped32, Advanced, AgBuffer.At, Plain.At;
    var v := b.ReadU16();
    out := Num(v);
  }

  method TakeU32(b: AgBuffer, ghost m: Plain) returns (out: Out)
    requires Refines(b, m)
    modifies b`position
    ensures Refines(b, m.Apply(GetU32, [])) && out == m.Output(GetU32)
  {
    SameBytes(b, m);
    hide FromLE, Raw16, Swapped32, Advanced, AgBuffer.At, Plain.At;
    var v := b.ReadU32();
    out := Num(v);
  }

  /** What is read up to a NUL, or to the end, has the length that Plain gives it. */
  lemma {:induction false} StringIs(m: Plain, p: nat, n: nat)
    requires m.Valid() && p + n <= Max(p, m.len) && m.At(p + n) == 0
    requires forall i :: p <= i < p + n ==> m.bytes[i] != 0
    ensures m.StringLength(p) == n
    decreases n
  {
    if n > 0 {
      StringIs(m, p + 1, n - 1);
    }
  }

  method TakeString(b: AgBuffer, ghost m: Plain) returns (out: Out)
    requires Refines(b, m)
    modifies b`position
    ensures Refines(b, m.Apply(GetString, [])) && out == m.Output(GetString)
  {
    ghost var p := b.position;
    SameBytes(b, m);
    var s := b.ReadString();
    SameText(b, m, p, s);
    out := Text(s);
  }

  lemma SameText(b: AgBuffer, m: Plain, p: nat, s: seq<Byte>)
    requires b.Valid() && m.Valid() && b.virtualLength == m.len && |m.bytes| <= b.realLength && b.data[..|m.bytes|] == m.bytes
    requires p <= |m.bytes| && p + |s| <= Max(p, m.len) && 0 !in s && s == b.data[p..p + |s|] && b.At(p + |s|) == 0
    requires forall i: nat :: b.At(i) == m.At(i)
    ensures m.StringLength(p) == |s| && s == m.bytes[p..p + |s|]
  {
    forall i | 0 <= i < |s| ensures m.bytes[p + i] == s[i] != 0 {
      assert b.data[..|m.bytes|][p + i] == b.data[p..p + |s|][i];
      assert s[i] in s;
    }
    assert s == m.bytes[p..p + |s|];
    forall i | p <= i < p + |s| ensures m.bytes[i] != 0 {
      assert m.bytes[p + (i - p)] != 0;
    }
    StringIs(m, p, |s|);
  }

  method Take(b: AgBuffer, n: nat, ghost m: Plain) returns (out: Out)
    requires Refines(b, m)
    modifies b`position
    ensures Refines(b, m.Apply(TakeData(n), [])) && out == m.Output(TakeData(n))
  {
    var dst := new Byte[n](i => 0);
    assert dst[..] == Zeros(n);
    SlicesMatch(b, m, b.position, n);
    ghost var p := b.position;
    b.ReadData(n, dst);
    assert dst[..n] == dst[..];
    out := Text(dst[..]);
  }

  method Copy(b: AgBuffer, from: nat, n: nat, room: nat, ghost m: Plain) returns (out: Out)
    requires Refines(b, m)
    ensures Refines(b, m) && out == m.Output(CopyOut(from, n, room))
  {
    var dst := new Byte[room](i => 0);
    assert dst[..] == Zeros(room);
    SlicesMatch(b, m, from, n);
    b.GetData(from, n, dst);
    if from + n <= b.virtualLength && n <= room {
      assert dst[n..] == Zeros(room - n);
      assert dst[..] == dst[..n] + dst[n..];
    }
    out := Text(dst[..]);
  }

  lemma SlicesMatch(b: AgBuffer, m: Plain, from: nat, n: nat)
    requires Refines(b, m)
    ensures from + n <= m.len ==> b.Contents()[from..from + n] == m.bytes[from..from + n]
  {
    if from + n <= m.len {
      SliceOfSlice(b.data[..], 0, |m.bytes|, from, from + n);
      SliceOfSlice(b.data[..], 0, m.len, from, from + n);
      assert b.data[..][0..|m.bytes|] == m.bytes && b.data[..][0..m.len] == b.Contents();
    }
  }

  /** One operation. */
  method Perform(b: AgBuffer, op: Op, ghost m: Plain) returns (out: Out, ghost fill: seq<Byte>)
    requires Refines(b, m) && Sane(op)
    modifies b, b.data
    ensures Fits(fill, op, m) && Refines(b, m.Apply(op, fill)) && out == m.Output(op)
    ensures b.data == old(b.data) || fresh(b.data)
  {
    out, fill := Nothing, [];
    match op {
      case PutData(bs) => Write(b, bs, m);
      case SeekTo(p) => b.Seek(p);
      case SetLen(n) =>
        ghost var before := b.data[..];
        b.SetLength(n);
        assert b.data[..|m.bytes|] == before[..|m.bytes|];
        if n > |m.bytes| {
          fill := b.data[|m.bytes|..n];
          assert m.bytes + fill == b.data[..n];
        }
      case SetOrder(e) => b.endianness := e;
      case GetU8 => out := TakeU8(b, m);
      case GetU16 => out := TakeU16(b, m);
      case GetU32 => out := TakeU32(b, m);
      case GetString => out := TakeString(b, m);
      case TakeData(n) => out := Take(b, n, m);
      case CopyOut(from, n, room) => out := Copy(b, from, n, room, m);
      case PutRepeat(v, n) => WriteRepeated(b, v, n, m);
      case PutString(s) => WriteText(b, s, m);
      case PutWide(ws) => WriteUnits(b, ws, m);
      case _ => WriteInt(b, op, m);
    }
  }

  /** Every run of the buffer, from empty, is a run of the plain sequence with the same outputs. */
  method RunAll(ops: seq<Op>) returns (outs: seq<Out>, ghost fills: seq<seq<Byte>>, ghost ms: seq<Plain>)
    requires forall i :: 0 <= i < |ops| ==> Sane(ops[i])
    ensures |outs| == |ops| && PlainRun(ops, fills, outs, ms) && ms[0] == Plain([], 0, 0, Small)
  {
    var b := new AgBuffer();
    outs, fills, ms := [], [], [Plain([], 0, 0, Small)];
    var i := 0;
    while i < |ops|
      invariant 0 <= i <= |ops|
      invariant fresh(b) && fresh(b.data)
      invariant PlainRun(ops[..i], fills, outs, ms) && ms[0] == Plain([], 0, 0, Small)
      invariant Refines(b, ms[i])
    {
      var out, fill := Perform(b, ops[i], ms[i]);
      RunOneMore(ops, i, fills, outs, ms, fill, out);
      ms := ms + [ms[i].Apply(ops[i], fill)];
      outs, fills := outs + [out], fills + [fill];
      i := i + 1;
    }
    assert ops[..i] == ops;
  }

  lemma RunOneMore(ops: seq<Op>, i: nat, fills: seq<seq<Byte>>, outs: seq<Out>, ms: seq<Plain>, fill: seq<Byte>, out: Out)
    requires i < |ops| && PlainRun(ops[..i], fills, outs, ms)
    requires ms[i].Valid() && Sane(ops[i]) && Fits(fill, ops[i], ms[i]) && out == ms[i].Output(ops[i])
    ensures PlainRun(ops[..i + 1], fills + [fill], outs + [out], ms + [ms[i].Apply(ops[i], fill)])
  {
    var fs, os, ns := fills + [fill], outs + [out], ms + [ms[i].Apply(ops[i], fill)];
    forall k | 0 <= k < i + 1
      ensures ns[k].Valid() && Sane(ops[k]) && Fits(fs[k], ops[k], ns[k])
      ensures ns[k + 1] == ns[k].Apply(ops[k], fs[k]) && os[k] == ns[k].Output(ops[k])
    {
      if k < i {
        assert ops[..i][k] == ops[k] && ns[k] == ms[k] && ns[k + 1] == ms[k + 1];
      }
    }
  }

  /** A number written, sought back to and read is the number, in either byte order and from any state. */
  lemma WriteSeekRead(m: Plain, w: Word, h: nat)
    requires m.Valid() && h < 0x1_0000
    ensures m.Apply(PutU32(w), []).Apply(SeekTo(m.pos), []).Output(GetU32) == Num(w)
    ensures m.Apply(PutU16(h), []).Apply(SeekTo(m.pos), []).Output(GetU16) == Num(h)
  {
    var a := m.Apply(PutU32(w), []).Apply(SeekTo(m.pos), []);
    var bs := U32Bytes(w, m.order);
    assert [a.At(m.pos), a.At(m.pos + 1), a.At(m.pos + 2), a.At(m.pos + 3)] == bs;
    FromLEofLE(Swapped32(w, m.order));
    SwapTwice(w, m.order);
    var c := m.Apply(PutU16(h), []).Apply(SeekTo(m.pos), []);
    assert c.At(m.pos) == U16Bytes(h, m.order)[0] && c.At(m.pos + 1) == U16Bytes(h, m.order)[1];
    ReadBack16(c.At(m.pos), c.At(m.pos + 1), m.order);
    EncodingsInjective(c.Output(GetU16).n, h, 0, 0, m.order);
  }

  /** Two strings without NUL that both end at a NUL of the same bytes, or at their end, are the same string. */
  lemma FirstNul(bytes: seq<Byte>, s: seq<Byte>, r: seq<Byte>)
    requires 0 !in s && 0 !in r && s + [0] <= bytes && r <= bytes
    requires |r| < |bytes| ==> bytes[|r|] == 0
    ensures r == s
  {
    assert bytes[|s|] == (s + [0])[|s|] == 0;
    assert forall k :: 0 <= k < |s| ==> bytes[k] == (s + [0])[k] == s[k] && s[k] in s;
    assert forall k :: 0 <= k < |r| ==> bytes[k] == r[k] && r[k] in r;
  }

  /** A NUL-free string written, sought back to and read is the string, whatever the buffer held. */
  method WriteThenReadString(b: AgBuffer, s: seq<Byte>) returns (r: seq<Byte>)
    requires b.Valid() && 0 !in s
    modifies b, b.data
    ensures b.Valid() && r == s && b.position == old(b.position) + |s| + 1
  {
    hide Overwritten;
    var p := b.position;
    ghost var seen := b.Seen();
    b.WriteString(s);
    ghost var after := b.Contents();
    WrittenIsThere(seen, p, s + [0]);
    b.Seek(p);
    r := b.ReadString();
    SliceOfSlice(b.data[..], 0, |after|, p, p + |r|);
    FirstNul(after[p..], s, r);
  }

  lemma WrittenIsThere(seen: seq<Byte>, p: nat, bs: seq<Byte>)
    requires p <= |seen|
    ensures var after := Overwritten(seen, p, bs); p + |bs| <= |after| && bs <= after[p..]
  {
  }
}
