/** Bytes, 32-bit words and flat 4 GiB memory, as the 32-bit Windows process of the launcher sees them. */
module Words {
  const SIZE: int := 0x1_0000_0000

  type Byte = x: int | 0 <= x < 256
  type Word = x: int | 0 <= x < SIZE

  /** Every address of the process holds one byte. */
  type Memory = m: seq<Byte> | |m| == SIZE witness seq(SIZE, i => 0)

  /** Arithmetic on a DWORD keeps the low 32 bits. */
  function Wrap(x: int): Word {
    x % SIZE
  }

  function Zeros(n: nat): (s: seq<Byte>)
    ensures |s| == n
  {
    seq(n, i => 0)
  }

  function LE(w: Word): (s: seq<Byte>)
    ensures |s| == 4
  {
    [w % 256, w / 0x100 % 256, w / 0x1_0000 % 256, w / 0x100_0000]
  }

  function FromLE(s: seq<Byte>): Word
    requires |s| == 4
  {
    var b: seq<int> := s;
    b[0] + 0x100 * b[1] + 0x1_0000 * b[2] + 0x100_0000 * b[3]
  }

  lemma FromLEofLE(w: Word)
    ensures FromLE(LE(w)) == w
  {
    var a, b := w / 0x100, w / 0x1_0000;
    assert b == a / 0x100 && w / 0x100_0000 == b / 0x100;
    assert w == 0x100 * a + w % 256 && a == 0x100 * b + a % 256;
    assert b == 0x100 * (b / 0x100) + b % 256;
  }

  /** The low byte comes first. */
  lemma LowByteFirst(b0: Byte, b1: Byte, b2: Byte, b3: Byte)
    ensures LE(b0 as int + 0x100 * b1 as int + 0x1_0000 * b2 as int + 0x100_0000 * b3 as int) == [b0, b1, b2, b3]
  {
    Digits(b0, b1, b2, b3);
  }

  lemma Digits(b0: int, b1: int, b2: int, b3: int)
    requires 0 <= b0 < 256 && 0 <= b1 < 256 && 0 <= b2 < 256 && 0 <= b3 < 256
    ensures var w := b0 + 0x100 * b1 + 0x1_0000 * b2 + 0x100_0000 * b3;
            w % 256 == b0 && w / 0x100 % 256 == b1 && w / 0x1_0000 % 256 == b2 && w / 0x100_0000 == b3
  {
    var w := b0 + 0x100 * b1 + 0x1_0000 * b2 + 0x100_0000 * b3;
    assert w / 0x100 == b1 + 0x100 * b2 + 0x1_0000 * b3;
    assert w / 0x1_0000 == b2 + 0x100 * b3;
  }

  lemma LEofFromLE(s: seq<Byte>)
    requires |s| == 4
    ensures LE(FromLE(s)) == s
  {
    Digits(s[0], s[1], s[2], s[3]);
  }

  /** `count` bytes from `start`, going round the end of the address space. */
  datatype Span = Span(start: Word, count: nat)

  predicate In(x: Word, sp: Span) {
    Wrap(x - sp.start) < sp.count
  }

  ghost function Addresses(sp: Span): iset<Word> {
    iset x: Word | In(x, sp)
  }

  function Load(m: Memory, a: Word, n: nat): (s: seq<Byte>)
    ensures |s| == n
  {
    seq(n, i requires 0 <= i < n => m[Wrap(a + i)])
  }

  /** Memory after writing `bs` at `a`. */
  function Store(m: Memory, a: Word, bs: seq<Byte>): (r: Memory)
    ensures forall x: Word :: r[x] == if In(x, Span(a, |bs|)) then bs[Wrap(x - a)] else m[x]
  {
    seq(SIZE, x requires 0 <= x < SIZE => if In(x, Span(a, |bs|)) then bs[Wrap(x - a)] else m[x])
  }

  function LoadWord(m: Memory, a: Word): Word {
    FromLE(Load(m, a, 4))
  }

  function StoreWord(m: Memory, a: Word, w: Word): Memory {
    Store(m, a, LE(w))
  }

  lemma WrapInside(a: Word, n: nat, x: Word)
    requires a + n <= SIZE
    ensures In(x, Span(a, n)) <==> a <= x < a + n
    ensures In(x, Span(a, n)) ==> Wrap(x - a) == x - a
  {
  }

  lemma SliceOfSlice(m: seq<Byte>, a: nat, b: nat, i: nat, j: nat)
    requires a <= b <= |m| && i <= j <= b - a
    ensures m[a..b][i..j] == m[a + i..a + j]
  {
    var s := m[a..b];
    forall k | 0 <= k < j - i ensures s[i..j][k] == m[a + i..a + j][k] {
      assert s[i + k] == m[a + i + k];
    }
  }

  lemma LoadIsSlice(m: Memory, a: Word, n: nat)
    requires a + n <= SIZE
    ensures Load(m, a, n) == m[a..a + n]
  {
    forall i | 0 <= i < n ensures Load(m, a, n)[i] == m[a..a + n][i] {
      assert Wrap(a + i) == a + i;
    }
  }

  lemma LoadStored(m: Memory, a: Word, bs: seq<Byte>)
    requires |bs| <= SIZE
    ensures Load(Store(m, a, bs), a, |bs|) == bs
  {
    var r := Store(m, a, bs);
    forall i | 0 <= i < |bs| ensures Load(r, a, |bs|)[i] == bs[i] {
      assert Wrap(Wrap(a + i) - a) == i;
    }
  }

  ghost predicate Disjoint(s: Span, t: Span) {
    forall x: Word :: !(In(x, s) && In(x, t))
  }

  ghost predicate AgreeOutside(m: Memory, m': Memory, t: iset<Word>) {
    forall x: Word :: x !in t ==> m[x] == m'[x]
  }

  lemma LoadAgree(m: Memory, m': Memory, t: iset<Word>, a: Word, n: nat)
    requires n <= SIZE
    requires AgreeOutside(m, m', t)
    requires Addresses(Span(a, n)) !! t
    ensures Load(m, a, n) == Load(m', a, n)
  {
    forall i | 0 <= i < n ensures Load(m, a, n)[i] == Load(m', a, n)[i] {
      var x := Wrap(a + i);
      assert Wrap(x - a) == i;
      assert x in Addresses(Span(a, n));
    }
  }

  /** Writing the same bytes to two memories makes them agree there. */
  lemma StoreAgree(m: Memory, m': Memory, t: iset<Word>, a: Word, bs: seq<Byte>)
    requires AgreeOutside(m, m', t)
    ensures AgreeOutside(Store(m, a, bs), Store(m', a, bs), t - Addresses(Span(a, |bs|)))
  {
  }

  lemma StoreFrame(m: Memory, a: Word, bs: seq<Byte>)
    ensures AgreeOutside(m, Store(m, a, bs), Addresses(Span(a, |bs|)))
  {
  }

  lemma WordIsWrapped(w: Word)
    ensures Wrap(w) == w
  {
  }

  lemma WrapIs(x: int, k: int, r: Word)
    requires x == SIZE * k + r
    ensures Wrap(x) == r
  {
  }

  lemma WrapShift(x: int, d: int)
    ensures Wrap(Wrap(x) + d) == Wrap(x + d)
    ensures Wrap(d - Wrap(x)) == Wrap(d - x)
  {
    var k, up, down := x / SIZE, (x + d) / SIZE, (d - x) / SIZE;
    var w, u, v := Wrap(x), Wrap(x + d), Wrap(d - x);
    assert x == SIZE * k + w && x + d == SIZE * up + u && d - x == SIZE * down + v;
    hide Wrap;
    WrapIs(w + d, up - k, u);
    WrapIs(d - w, down + k, v);
  }

  lemma WrapInjective(a: Word, b: Word, n: int)
    ensures Wrap(a + n) == Wrap(b + n) <==> a == b
  {
    var j, k := (a + n) / SIZE, (b + n) / SIZE;
    assert a + n == SIZE * j + Wrap(a + n) && b + n == SIZE * k + Wrap(b + n);
  }

  lemma OffsetIn(b: int, o: int, n: nat, x: Word)
    ensures In(x, Span(Wrap(b + o), n)) <==> Wrap((x - b) - o) < n
  {
    WrapShift(b + o, x);
  }

  /** Byte ranges at non-overlapping offsets from one base share no address. */
  lemma SpansApart(b: int, o1: int, n1: nat, o2: int, n2: nat)
    requires o1 + n1 <= o2 && o2 + n2 <= o1 + SIZE
    ensures Addresses(Span(Wrap(b + o1), n1)) !! Addresses(Span(Wrap(b + o2), n2))
  {
    var s, t := Addresses(Span(Wrap(b + o1), n1)), Addresses(Span(Wrap(b + o2), n2));
    forall x | x in s ensures x !in t {
      OffsetIn(b, o1, n1, x);
      OffsetIn(b, o2, n2, x);
      Apart(x - b, o1, n1, o2, n2);
    }
  }

  lemma Apart(e: int, o1: int, n1: nat, o2: int, n2: nat)
    requires o1 + n1 <= o2 && o2 + n2 <= o1 + SIZE
    ensures !(Wrap(e - o1) < n1 && Wrap(e - o2) < n2)
  {
    var k1, k2 := (e - o1) / SIZE, (e - o2) / SIZE;
    assert e - o1 == SIZE * k1 + Wrap(e - o1) && e - o2 == SIZE * k2 + Wrap(e - o2);
  }

  /** A byte range at an offset inside another one from the same base is part of it. */
  lemma SpanInside(b: int, o1: int, n1: nat, o2: int, n2: nat)
    requires o1 <= o2 && o2 + n2 <= o1 + n1
    ensures Addresses(Span(Wrap(b + o2), n2)) <= Addresses(Span(Wrap(b + o1), n1))
  {
    var s, t := Addresses(Span(Wrap(b + o2), n2)), Addresses(Span(Wrap(b + o1), n1));
    forall x | x in s ensures x in t {
      OffsetIn(b, o1, n1, x);
      OffsetIn(b, o2, n2, x);
      Inside(x - b, o1, n1, o2, n2);
    }
  }

  lemma Inside(e: int, o1: int, n1: nat, o2: int, n2: nat)
    requires o1 <= o2 && o2 + n2 <= o1 + n1
    ensures Wrap(e - o2) < n2 ==> Wrap(e - o1) < n1
  {
    var k1, k2 := (e - o1) / SIZE, (e - o2) / SIZE;
    assert e - o1 == SIZE * k1 + Wrap(e - o1) && e - o2 == SIZE * k2 + Wrap(e - o2);
  }

  /** A later store elsewhere does not change what was stored before. */
  lemma LoadPast(m: Memory, a: Word, bs: seq<Byte>, b: Word, n: nat)
    requires n <= SIZE
    requires Addresses(Span(a, |bs|)) !! Addresses(Span(b, n))
    ensures Load(Store(m, a, bs), b, n) == Load(m, b, n)
  {
    StoreFrame(m, a, bs);
    LoadAgree(m, Store(m, a, bs), Addresses(Span(a, |bs|)), b, n);
  }

  lemma LoadStoredWord(m: Memory, a: Word, w: Word)
    ensures LoadWord(StoreWord(m, a, w), a) == w
  {
    LoadStored(m, a, LE(w));
    FromLEofLE(w);
  }

  lemma AgreeTrans(m: Memory, m': Memory, m'': Memory, s: iset<Word>, t: iset<Word>, r: iset<Word>)
    requires AgreeOutside(m, m', s) && AgreeOutside(m', m'', t)
    requires s <= r && t <= r
    ensures AgreeOutside(m, m'', r)
  {
  }
}
