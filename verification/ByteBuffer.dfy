/** The growable byte buffer: seek, overwrite, append and endian-aware integers over one in-place array. */
module ByteBuffer {
  import opened Words
  import opened Endian

  datatype Endianness = Big | Small

  /** The machine is little-endian. */
  const SYSTEM := Small

  const GROW_SIZE := 1024

  /** `s` with `bs` written over it at `p`, longer if `bs` reaches past the end. */
  function Overwritten(s: seq<Byte>, p: nat, bs: seq<Byte>): (r: seq<Byte>)
    requires p <= |s|
    ensures |r| == if p + |bs| > |s| then p + |bs| else |s|
  {
    s[..p] + bs + if p + |bs| < |s| then s[p + |bs|..] else []
  }

  function U16Bytes(v: int, e: Endianness): (s: seq<Byte>)
    requires 0 <= v < 0x1_0000
    ensures |s| == 2
  {
    if e == SYSTEM then [v % 0x100, v / 0x100] else [v / 0x100, v % 0x100]
  }

  function U32Bytes(v: Word, e: Endianness): (s: seq<Byte>)
    ensures |s| == 4
  {
    LE(Swapped32(v, e))
  }

  /** swap_endianness on a DWORD. */
  function Swapped32(v: Word, e: Endianness): Word {
    if e == SYSTEM then v else SwapU32(v)
  }

  /** swap_endianness on a 16-bit value. */
  function Swapped16(v: int, e: Endianness): (r: int)
    requires 0 <= v < 0x1_0000
    ensures 0 <= r < 0x1_0000
  {
    if e == SYSTEM then v else SwapU16(v)
  }

  lemma SwappedDigits(v: int, e: Endianness)
    requires 0 <= v < 0x1_0000
    ensures var s := Swapped16(v, e); U16Bytes(v, e) == [s % 0x100] + [s / 0x100]
  {
  }

  lemma SwapTwice(v: Word, e: Endianness)
    ensures Swapped32(Swapped32(v, e), e) == v
    ensures e != SYSTEM ==> U32Bytes(v, e) == Reverse(LE(v))
  {
    LEofFromLE(Reverse(LE(v)));
    ReverseTwice(LE(v));
    FromLEofLE(v);
  }

  lemma ReadBack16(lo: Byte, hi: Byte, e: Endianness)
    ensures U16Bytes(Raw16(lo, hi, e), e) == [lo, hi]
  {
    var v: int := lo as int + 0x100 * hi as int;
    assert v % 0x100 == lo && v / 0x100 == hi;
    var w := v % 0x100 * 0x100 + v / 0x100;
    assert w / 0x100 == lo && w % 0x100 == hi;
  }

  /** Equal encodings come from equal values: what is written and read back is the same number. */
  lemma EncodingsInjective(a: int, b: int, v: Word, w: Word, e: Endianness)
    requires 0 <= a < 0x1_0000 && 0 <= b < 0x1_0000
    ensures U16Bytes(a, e) == U16Bytes(b, e) ==> a == b
    ensures U32Bytes(v, e) == U32Bytes(w, e) ==> v == w
  {
    var x, y := U16Bytes(a, e), U16Bytes(b, e);
    if x == y { assert x[0] == y[0] && x[1] == y[1]; }
    SwapTwice(v, e);
    SwapTwice(w, e);
    FromLEofLE(Swapped32(v, e));
    FromLEofLE(Swapped32(w, e));
  }

  /** Numbers are written low byte first in the small order and high byte first in the big one. */
  lemma BytesInOrder(b0: Byte, b1: Byte, b2: Byte, b3: Byte)
    ensures var w := b0 as int + 0x100 * b1 as int + 0x1_0000 * b2 as int + 0x100_0000 * b3 as int;
            U32Bytes(w, Small) == [b0, b1, b2, b3] && U32Bytes(w, Big) == [b3, b2, b1, b0]
  {
    hide LE, SwapU32, Reverse, FromLE;
    var w := b0 as int + 0x100 * b1 as int + 0x1_0000 * b2 as int + 0x100_0000 * b3 as int;
    LowByteFirst(b0, b1, b2, b3);
    SwapTwice(w, Big);
    ReversedFour(b0, b1, b2, b3);
  }

  /** The same for two bytes, which a read takes apart in the same order. */
  lemma HalvesInOrder(b0: Byte, b1: Byte)
    ensures var h := b0 as int + 0x100 * b1 as int; U16Bytes(h, Small) == [b0, b1] && U16Bytes(h, Big) == [b1, b0]
    ensures Raw16(b0, b1, Small) == b0 as int + 0x100 * b1 as int && Raw16(b0, b1, Big) == b1 as int + 0x100 * b0 as int
  {
  }

  lemma ReversedFour(b0: Byte, b1: Byte, b2: Byte, b3: Byte)
    ensures Reverse([b0, b1, b2, b3]) == [b3, b2, b1, b0]
  {
  }

  /** What overwriting leaves: the new bytes from `p` on, the old ones elsewhere. */
  lemma OverwrittenAt(s: seq<Byte>, p: nat, bs: seq<Byte>, i: nat)
    requires p <= |s| && i < |Overwritten(s, p, bs)|
    ensures Overwritten(s, p, bs)[i] == if p <= i < p + |bs| then bs[i - p] else s[i]
  {
  }

  lemma OverwrittenTwice(s: seq<Byte>, p: nat, x: seq<Byte>, y: seq<Byte>)
    requires p <= |s|
    ensures Overwritten(Overwritten(s, p, x), p + |x|, y) == Overwritten(s, p, x + y)
  {
  }

  lemma CopiedIsOverwritten(before: seq<Byte>, after: seq<Byte>, p: nat, len: nat, src: seq<Byte>)
    requires len <= |before| == |after| && p + |src| <= |before|
    requires forall k :: 0 <= k < |after| ==> after[k] == if p <= k < p + |src| then src[k - p] else before[k]
    ensures after[..Max(p + |src|, len)] == Overwritten(before[..Max(p, len)], p, src)
  {
  }

  function Raw16(lo: Byte, hi: Byte, e: Endianness): (r: int)
    ensures 0 <= r < 0x1_0000
  {
    var l: int, h: int := lo, hi;
    Swapped16(l + 0x100 * h, e)
  }

  /** Reading `n` bytes stops at the end. */
  function Advanced(p: nat, n: nat, end: nat): nat {
    if p >= end then p else if p + n <= end then p + n else end
  }

  function Max(a: nat, b: nat): nat {
    if a > b then a else b
  }

  class AgBuffer {
    var position: nat
    var virtualLength: nat
    var realLength: nat
    var data: array<Byte>
    var endianness: Endianness

    ghost predicate Valid()
      reads this
    {
      data.Length == realLength && position <= realLength && virtualLength <= realLength
    }

    ghost function Contents(): seq<Byte>
      requires Valid()
      reads this, data
    {
      data[..virtualLength]
    }

    /** The bytes up to the cursor or the end, whichever is later: after set_length the cursor may be past the end. */
    ghost function Seen(): seq<Byte>
      requires Valid()
      reads this, data
    {
      data[..Max(position, virtualLength)]
    }

    /** The byte a read at `i` sees; past the end it is 0. */
    ghost function At(i: nat): Byte
      requires Valid()
      reads this, data
    {
      if i < virtualLength then data[i] else 0
    }

    constructor ()
      ensures Valid() && fresh(data)
      ensures Contents() == [] && position == 0 && endianness == Small
    {
      realLength := GROW_SIZE;
      data := new Byte[GROW_SIZE];
      position := 0;
      virtualLength := 0;
      endianness := Small;
    }

    /** realloc to real + requested + 1024 bytes; what lies past the old end is not initialised. */
    method Grow(n: nat)
      requires Valid()
      modifies this`data, this`realLength
      ensures Valid() && fresh(data) && realLength == old(realLength) + n + 1024
      ensures data[..old(realLength)] == old(data[..])
    {
      var bigger := new Byte[realLength + n + GROW_SIZE];
      var i := 0;
      while i < realLength
        invariant 0 <= i <= realLength && Valid()
        invariant data == old(data) && realLength == old(realLength) && data[..] == old(data[..])
        invariant bigger[..i] == data[..i]
      {
        bigger[i] := data[i];
        i := i + 1;
      }
      data := bigger;
      realLength := realLength + n + GROW_SIZE;
    }

    /** memcpy to the cursor. */
    method CopyIn(src: seq<Byte>)
      requires Valid() && position + |src| <= realLength
      modifies data
      ensures forall k :: 0 <= k < data.Length ==>
                data[k] == if position <= k < position + |src| then src[k - position] else old(data[k])
    {
      var i := 0;
      while i < |src|
        invariant 0 <= i <= |src|
        invariant forall k :: 0 <= k < data.Length ==>
                    data[k] == if position <= k < position + i then src[k - position] else old(data[k])
      {
        data[position + i] := src[i];
        i := i + 1;
      }
    }

    method WriteData(src: seq<Byte>)
      requires Valid()
      modifies this, data
      ensures Valid() && (data == old(data) || fresh(data)) && endianness == old(endianness)
      ensures src == [] ==> Contents() == old(Contents()) && position == old(position)
      ensures src != [] ==> Contents() == Overwritten(old(Seen()), old(position), src)
      ensures position == old(position) + |src|
      ensures realLength >= old(realLength)
      ensures forall i :: 0 <= i < old(realLength) && !(old(position) <= i < old(position) + |src|) ==> data[i] == old(data[i])
    {
      if |src| == 0 { return; }
      if position + |src| > realLength {
        Grow(|src|);
      }
      ghost var before := data[..];
      CopyIn(src);
      position := position + |src|;
      if position > virtualLength {
        virtualLength := position;
      }
      CopiedIsOverwritten(before, data[..], old(position), old(virtualLength), src);
      assert before[..old(Max(position, virtualLength))] == old(Seen());
    }

    method WriteU8(v: Byte)
      requires Valid()
      modifies this, data
      ensures Valid() && (data == old(data) || fresh(data)) && endianness == old(endianness)
      ensures Contents() == Overwritten(old(Seen()), old(position), [v])
      ensures position == old(position) + 1 && position <= virtualLength
      ensures realLength >= old(realLength)
      ensures forall i :: 0 <= i < old(realLength) && i != old(position) ==> data[i] == old(data[i])
    {
      if position + 1 > realLength {
        Grow(1);
      }
      data[position] := v;
      position := position + 1;
      if position > virtualLength {
        virtualLength := position;
      }
    }

    method WriteU16(v: int)
      requires Valid() && 0 <= v < 0x1_0000
      modifies this, data
      ensures Valid() && (data == old(data) || fresh(data)) && endianness == old(endianness)
      ensures Contents() == Overwritten(old(Seen()), old(position), U16Bytes(v, endianness))
      ensures position == old(position) + 2 && position <= virtualLength && realLength >= old(realLength)
      ensures forall i :: 0 <= i < old(realLength) && !(old(position) <= i < old(position) + 2) ==> data[i] == old(data[i])
    {
      hide Overwritten, Swapped16;
      var s := Swapped16(v, endianness);
      ghost var seen, p := Seen(), position;
      WriteU8(s % 0x100);
      WriteNext(s / 0x100, seen, p, [s % 0x100]);
      SwappedDigits(v, endianness);
    }

    method WriteU32(v: Word)
      requires Valid()
      modifies this, data
      ensures Valid() && (data == old(data) || fresh(data)) && endianness == old(endianness)
      ensures Contents() == Overwritten(old(Seen()), old(position), U32Bytes(v, endianness))
      ensures position == old(position) + 4 && position <= virtualLength && realLength >= old(realLength)
      ensures forall i :: 0 <= i < old(realLength) && !(old(position) <= i < old(position) + 4) ==> data[i] == old(data[i])
    {
      hide Overwritten, LE, Swapped32;
      var s := LE(Swapped32(v, endianness));
      ghost var seen, p := Seen(), position;
      WriteU8(s[0]);
      WriteNext(s[1], seen, p, [s[0]]);
      WriteNext(s[2], seen, p, [s[0]] + [s[1]]);
      WriteNext(s[3], seen, p, [s[0]] + [s[1]] + [s[2]]);
      assert [s[0]] + [s[1]] + [s[2]] + [s[3]] == s;
    }

    /** One more byte of a number, after `before` written from `p` over `seen`. */
    method WriteNext(v: Byte, ghost seen: seq<Byte>, ghost p: nat, ghost before: seq<Byte>)
      requires Valid() && p <= |seen| && position == p + |before| <= virtualLength
      requires Contents() == Overwritten(seen, p, before)
      modifies this, data
      ensures Valid() && (data == old(data) || fresh(data)) && endianness == old(endianness)
      ensures Contents() == Overwritten(seen, p, before + [v])
      ensures position == old(position) + 1 && position <= virtualLength && realLength >= old(realLength)
      ensures forall i :: 0 <= i < old(realLength) && i != old(position) ==> data[i] == old(data[i])
    {
      hide Overwritten;
      assert Seen() == Contents();
      WriteU8(v);
      OverwrittenTwice(seen, p, before, [v]);
    }

    method Seek(p: nat)
      requires Valid()
      modifies this`position
      ensures Valid() && position == if p > virtualLength then virtualLength else p
    {
      if p > virtualLength {
        position := virtualLength;
        return;
      }
      position := p;
    }

    /** Shortening keeps the cursor where it is; lengthening exposes whatever the block holds. */
    method SetLength(n: nat)
      requires Valid()
      modifies this`data, this`realLength, this`virtualLength
      ensures Valid() && (data == old(data) || fresh(data))
      ensures virtualLength == n && realLength >= old(realLength)
      ensures data[..old(realLength)] == old(data[..])
    {
      if n > realLength {
        Grow(n - realLength);
      }
      virtualLength := n;
    }

    method ReadU8() returns (v: Byte)
      requires Valid()
      modifies this`position
      ensures Valid() && v == At(old(position)) && v == if old(position) < virtualLength then data[old(position)] else 0
      ensures position == if old(position) < virtualLength then old(position) + 1 else old(position)
    {
      if position >= virtualLength {
        return 0;
      }
      v := data[position];
      position := position + 1;
    }

    method ReadU16() returns (v: int)
      requires Valid()
      modifies this`position
      ensures Valid() && 0 <= v < 0x1_0000
      ensures v == Raw16(At(old(position)), At(old(position) + 1), endianness)
      ensures position == Advanced(old(position), 2, virtualLength)
      ensures old(position) + 2 <= virtualLength ==>
                position == old(position) + 2 && U16Bytes(v, endianness) == data[old(position)..old(position) + 2]
    {
      var lo: int := ReadU8();
      var hi: int := ReadU8();
      v := Raw16(lo, hi, endianness);
      ReadBack16(lo, hi, endianness);
    }

    method ReadU32() returns (v: Word)
      requires Valid()
      modifies this`position
      ensures Valid()
      ensures var p := old(position); v == Swapped32(FromLE([At(p), At(p + 1), At(p + 2), At(p + 3)]), endianness)
      ensures position == Advanced(old(position), 4, virtualLength)
      ensures old(position) + 4 <= virtualLength ==>
                position == old(position) + 4 && U32Bytes(v, endianness) == data[old(position)..old(position) + 4]
    {
      hide FromLE, LE, Swapped32;
      var b0 := ReadU8();
      var b1 := ReadU8();
      var b2 := ReadU8();
      var b3 := ReadU8();
      var raw := [b0, b1, b2, b3];
      v := Swapped32(FromLE(raw), endianness);
      LEofFromLE(raw);
      SwapTwice(FromLE(raw), endianness);
    }

    method WriteRepeat(v: Byte, n: nat)
      requires Valid()
      modifies this, data
      ensures Valid() && (data == old(data) || fresh(data)) && endianness == old(endianness)
      ensures position == old(position) + n
      ensures n > 0 ==> Contents() == Overwritten(old(Seen()), old(position), seq(n, i => v)) && position <= virtualLength
      ensures n == 0 ==> Contents() == old(Contents())
      ensures realLength >= old(realLength)
      ensures forall i :: 0 <= i < old(realLength) && !(old(position) <= i < old(position) + n) ==> data[i] == old(data[i])
    {
      hide Overwritten;
      var i := 0;
      while i < n
        invariant 0 <= i <= n
        invariant Valid() && (data == old(data) || fresh(data)) && endianness == old(endianness)
        invariant position == old(position) + i
        invariant if i == 0 then Contents() == old(Contents()) && Seen() == old(Seen())
                  else Contents() == Overwritten(old(Seen()), old(position), seq(i, k => v)) && position <= virtualLength
        invariant realLength >= old(realLength)
        invariant forall k :: 0 <= k < old(realLength) && !(old(position) <= k < old(position) + i) ==> data[k] == old(data[k])
      {
        assert i > 0 ==> Seen() == Contents();
        WriteU8(v);
        if i > 0 {
          OverwrittenTwice(old(Seen()), old(position), seq(i, k => v), [v]);
        } else {
          assert [v] == seq(i + 1, k => v);
        }
        assert seq(i, k => v) + [v] == seq(i + 1, k => v);
        i := i + 1;
      }
    }

    /** The bytes, then a NUL. */
    method WriteString(s: seq<Byte>)
      requires Valid()
      modifies this, data
      ensures Valid() && (data == old(data) || fresh(data)) && endianness == old(endianness)
      ensures position == old(position) + |s| + 1 && position <= virtualLength
      ensures Contents() == Overwritten(old(Seen()), old(position), s + [0])
      ensures realLength >= old(realLength)
      ensures forall i :: 0 <= i < old(realLength) && !(old(position) <= i < old(position) + |s| + 1) ==> data[i] == old(data[i])
    {
      hide Overwritten;
      var i := 0;
      while i < |s|
        invariant 0 <= i <= |s|
        invariant Valid() && (data == old(data) || fresh(data)) && endianness == old(endianness)
        invariant position == old(position) + i
        invariant if i == 0 then Seen() == old(Seen())
                  else Contents() == Overwritten(old(Seen()), old(position), s[..i]) && position <= virtualLength
        invariant realLength >= old(realLength)
        invariant forall k :: 0 <= k < old(realLength) && !(old(position) <= k < old(position) + i) ==> data[k] == old(data[k])
      {
        assert i > 0 ==> Seen() == Contents();
        WriteU8(s[i]);
        if i > 0 {
          OverwrittenTwice(old(Seen()), old(position), s[..i], [s[i]]);
        } else {
          assert [s[i]] == s[..i + 1];
        }
        assert s[..i] + [s[i]] == s[..i + 1];
        i := i + 1;
      }
      assert s[..i] == s;
      assert i > 0 ==> Seen() == Contents();
      WriteU8(0);
      if i > 0 {
        OverwrittenTwice(old(Seen()), old(position), s, [0]);
      } else {
        assert s + [0] == [0];
      }
    }

    /** The bytes up to the first NUL, or up to the end. */
    method ReadString() returns (s: seq<Byte>)
      requires Valid()
      modifies this`position
      ensures Valid()
      ensures var p := old(position);
              && 0 !in s && p + |s| <= Max(p, virtualLength)
              && s == data[p..p + |s|] && At(p + |s|) == 0
              && position == if p + |s| < virtualLength then p + |s| + 1 else p + |s|
    {
      s := [];
      while true
        invariant Valid() && position == old(position) + |s|
        invariant position <= Max(old(position), virtualLength)
        invariant 0 !in s && s == data[old(position)..position]
        decreases virtualLength - position
      {
        var p := position;
        var c := ReadU8();
        if c == 0 {
          return;
        }
        s := s + [c];
        assert data[old(position)..p] + [data[p]] == data[old(position)..p + 1];
      }
    }

    /** A UTF-16 unit is swapped here and again by WriteU16, so it is always written low byte first. */
    method WriteWchar(c: int)
      requires Valid() && 0 <= c < 0x1_0000
      modifies this, data
      ensures Valid() && (data == old(data) || fresh(data)) && endianness == old(endianness)
      ensures Contents() == Overwritten(old(Seen()), old(position), U16Bytes(c, Small))
      ensures position == old(position) + 2 && position <= virtualLength
      ensures realLength >= old(realLength)
      ensures forall i :: 0 <= i < old(realLength) && !(old(position) <= i < old(position) + 2) ==> data[i] == old(data[i])
    {
      WriteU16(Swapped16(c, endianness));
      WcharLowFirst(c, endianness);
    }

    method WriteWString(s: seq<int>)
      requires Valid() && forall i :: 0 <= i < |s| ==> 0 <= s[i] < 0x1_0000
      modifies this, data
      ensures Valid() && (data == old(data) || fresh(data)) && endianness == old(endianness)
      ensures position == old(position) + 2 * |s|
      ensures s != [] ==> Contents() == Overwritten(old(Seen()), old(position), WideBytes(s)) && position <= virtualLength
      ensures s == [] ==> Contents() == old(Contents())
      ensures realLength >= old(realLength)
      ensures forall i :: 0 <= i < old(realLength) && !(old(position) <= i < old(position) + 2 * |s|) ==> data[i] == old(data[i])
    {
      hide Overwritten, U16Bytes;
      var i := 0;
      while i < |s|
        invariant 0 <= i <= |s|
        invariant Valid() && (data == old(data) || fresh(data)) && endianness == old(endianness)
        invariant position == old(position) + 2 * i
        invariant if i == 0 then Contents() == old(Contents()) && Seen() == old(Seen())
                  else Contents() == Overwritten(old(Seen()), old(position), WideBytes(s[..i])) && position <= virtualLength
        invariant realLength >= old(realLength)
        invariant forall k :: 0 <= k < old(realLength) && !(old(position) <= k < old(position) + 2 * i) ==> data[k] == old(data[k])
      {
        assert i > 0 ==> Seen() == Contents();
        WriteWchar(s[i]);
        if i > 0 {
          OverwrittenTwice(old(Seen()), old(position), WideBytes(s[..i]), U16Bytes(s[i], Small));
        } else {
          assert WideBytes(s[..i]) + U16Bytes(s[i], Small) == U16Bytes(s[i], Small);
        }
        assert s[..i + 1][..i] == s[..i];
        assert WideBytes(s[..i]) + U16Bytes(s[i], Small) == WideBytes(s[..i + 1]);
        i := i + 1;
      }
      assert s[..i] == s;
    }

    /** Copies `count` bytes from the cursor and moves it; refused when fewer are left. */
    method ReadData(count: nat, dst: array<Byte>)
      requires Valid() && dst != data && count <= dst.Length
      modifies dst, this`position
      ensures Valid()
      ensures if old(position) + count <= virtualLength
              then dst[..count] == Contents()[old(position)..old(position) + count] && dst[count..] == old(dst[count..])
                   && position == old(position) + count
              else dst[..] == old(dst[..]) && position == old(position)
    {
      if count > virtualLength { return; }
      if position + count > virtualLength { return; }
      GetData(position, count, dst);
      position := position + count;
    }

    /** Copies `count` bytes from `offset`; refused when the source range or the destination is too short. */
    method GetData(offset: nat, count: nat, dst: array<Byte>)
      requires Valid() && dst != data
      modifies dst
      ensures offset + count <= virtualLength && count <= dst.Length ==>
                dst[..count] == Contents()[offset..offset + count] && dst[count..] == old(dst[count..])
      ensures !(offset + count <= virtualLength && count <= dst.Length) ==> dst[..] == old(dst[..])
    {
      if count > virtualLength { return; }
      if offset + count > virtualLength { return; }
      if dst.Length < count { return; }
      var i := 0;
      while i < count
        invariant 0 <= i <= count
        invariant dst[..i] == data[offset..offset + i]
        invariant dst[count..] == old(dst[count..])
      {
        dst[i] := data[offset + i];
        i := i + 1;
      }
    }
  }

  function WideBytes(s: seq<int>): (bs: seq<Byte>)
    requires forall i :: 0 <= i < |s| ==> 0 <= s[i] < 0x1_0000
    ensures |bs| == 2 * |s|
  {
    if s == [] then [] else WideBytes(s[..|s| - 1]) + U16Bytes(s[|s| - 1], Small)
  }

  /** Unit `i` of a wide string takes bytes 2 i and 2 i + 1, low byte first. */
  lemma {:induction false} WideBytesAt(s: seq<int>, i: nat)
    requires (forall k :: 0 <= k < |s| ==> 0 <= s[k] < 0x1_0000) && i < |s|
    ensures WideBytes(s)[2 * i] == s[i] % 0x100 && WideBytes(s)[2 * i + 1] == s[i] / 0x100
    decreases |s|
  {
    var n := |s| - 1;
    if i < n {
      WideBytesAt(s[..n], i);
    }
  }

  lemma WcharLowFirst(c: int, e: Endianness)
    requires 0 <= c < 0x1_0000
    ensures U16Bytes(Swapped16(c, e), e) == U16Bytes(c, Small)
  {
    var w := c % 0x100 * 0x100 + c / 0x100;
    assert w / 0x100 == c % 0x100 && w % 0x100 == c / 0x100;
  }
}
