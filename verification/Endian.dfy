/** The endianness swaps of the buffer: mask-and-shift fast forms against reversing the bytes. */
module Endian {
  import opened Words

  function Swap16(x: bv16): bv16 {
    (x >> 8) | (x << 8)
  }

  function Swap32(x: bv32): bv32 {
    var h := (x >> 16) | (x << 16);
    ((h & 0xFF00FF00) >> 8) | ((h & 0x00FF00FF) << 8)
  }

  function Swap64(x: bv64): bv64 {
    var h := (x >> 32) | (x << 32);
    var q := ((h & 0xFFFF0000FFFF0000) >> 16) | ((h & 0x0000FFFF0000FFFF) << 16);
    ((q & 0xFF00FF00FF00FF00) >> 8) | ((q & 0x00FF00FF00FF00FF) << 8)
  }

  // The bytes of a value as they lie in memory on a little-endian machine.

  function Bytes16(x: bv16): (s: seq<bv16>)
    ensures |s| == 2
  {
    [x & 0xFF, (x >> 8) & 0xFF]
  }

  function Bytes32(x: bv32): (s: seq<bv32>)
    ensures |s| == 4
  {
    [x & 0xFF, (x >> 8) & 0xFF, (x >> 16) & 0xFF, (x >> 24) & 0xFF]
  }

  function Bytes64(x: bv64): (s: seq<bv64>)
    ensures |s| == 8
  {
    [x & 0xFF, (x >> 8) & 0xFF, (x >> 16) & 0xFF, (x >> 24) & 0xFF,
     (x >> 32) & 0xFF, (x >> 40) & 0xFF, (x >> 48) & 0xFF, (x >> 56) & 0xFF]
  }

  function Reverse<T>(s: seq<T>): (r: seq<T>)
    ensures |r| == |s|
  {
    seq(|s|, i requires 0 <= i < |s| => s[|s| - 1 - i])
  }

  /** The two-pointer loop on a byte array, run only when the orders differ. */
  method SwapBytes<T>(data: array<T>, differs: bool)
    modifies data
    ensures data[..] == if differs then Reverse(old(data[..])) else old(data[..])
    ensures differs ==> forall k :: 0 <= k < data.Length ==> data[k] == old(data[data.Length - 1 - k])
  {
    if differs {
      ghost var was := data[..];
      var lo, hi := 0, data.Length - 1;
      while lo < hi
        invariant 0 <= lo <= hi + 2 && hi == data.Length - 1 - lo
        invariant SwappedUpTo(data[..], was, lo)
      {
        var temp := data[lo];
        data[lo] := data[hi];
        data[hi] := temp;
        lo := lo + 1;
        hi := hi - 1;
      }
    }
  }

  /** The outer `lo` places on either side have changed sides; the rest is as it was. */
  predicate SwappedUpTo<T(==)>(s: seq<T>, was: seq<T>, lo: nat) {
    |s| == |was| && forall k :: 0 <= k < |s| ==> s[k] == if lo <= k < |s| - lo then was[k] else Reverse(was)[k]
  }

  lemma ReverseTwice<T>(s: seq<T>)
    ensures Reverse(Reverse(s)) == s
  {
  }

  lemma Swap16Reverses(x: bv16)
    ensures Bytes16(Swap16(x)) == Reverse(Bytes16(x))
  {
  }

  lemma Swap32Reverses(x: bv32)
    ensures Bytes32(Swap32(x)) == Reverse(Bytes32(x))
  {
  }

  lemma Swap64Reverses(x: bv64)
    ensures Bytes64(Swap64(x)) == Reverse(Bytes64(x))
  {
    hide Swap64, Reverse;
    Swap64Bytes(x);
    ReverseEight(Bytes64(x));
  }

  lemma ReverseEight<T>(s: seq<T>)
    requires |s| == 8
    ensures Reverse(s) == [s[7], s[6], s[5], s[4], s[3], s[2], s[1], s[0]]
  {
  }

  lemma Swap64Bytes(x: bv64)
    ensures var y := Swap64(x);
            && y & 0xFF == (x >> 56) & 0xFF && (y >> 8) & 0xFF == (x >> 48) & 0xFF
            && (y >> 16) & 0xFF == (x >> 40) & 0xFF && (y >> 24) & 0xFF == (x >> 32) & 0xFF
            && (y >> 32) & 0xFF == (x >> 24) & 0xFF && (y >> 40) & 0xFF == (x >> 16) & 0xFF
            && (y >> 48) & 0xFF == (x >> 8) & 0xFF && (y >> 56) & 0xFF == x & 0xFF
  {
  }

  /** Bytes determine the value, so each swap undoes itself. */
  lemma SwapsUndoThemselves(x: bv16, y: bv32, z: bv64)
    ensures Swap16(Swap16(x)) == x && Swap32(Swap32(y)) == y && Swap64(Swap64(z)) == z
  {
  }

  // --- the same swap on numbers, byte by byte ---

  predicate Bit(b: bv8, place: bv3) {
    (b >> place) & 1 == 1
  }

  function Digit(on: bool, value: nat): nat {
    if on then value else 0
  }

  function Number(b: bv8): Byte {
    Digit(Bit(b, 0), 1) + Digit(Bit(b, 1), 2) + Digit(Bit(b, 2), 4) + Digit(Bit(b, 3), 8) +
    Digit(Bit(b, 4), 16) + Digit(Bit(b, 5), 32) + Digit(Bit(b, 6), 64) + Digit(Bit(b, 7), 128)
  }

  function FromBools(b0: bool, b1: bool, b2: bool, b3: bool, b4: bool, b5: bool, b6: bool, b7: bool): bv8 {
    (if b0 then 1 else 0) | (if b1 then 2 else 0) | (if b2 then 4 else 0) | (if b3 then 8 else 0) |
    (if b4 then 16 else 0) | (if b5 then 32 else 0) | (if b6 then 64 else 0) | (if b7 then 128 else 0)
  }

  predicate Odd(n: nat) {
    n % 2 == 1
  }

  /** The bit pattern of a byte's value. */
  function Bits(n: Byte): bv8 {
    var h1 := n as int / 2;
    var h2 := h1 / 2;
    var h3 := h2 / 2;
    var h4 := h3 / 2;
    var h5 := h4 / 2;
    var h6 := h5 / 2;
    FromBools(Odd(n), Odd(h1), Odd(h2), Odd(h3), Odd(h4), Odd(h5), Odd(h6), Odd(h6 / 2))
  }

  lemma Halving(n: nat, value: nat)
    ensures n == 2 * (n / 2) + n % 2 && Digit(Odd(n), value) == value * (n % 2)
  {
  }

  lemma Binary(n: nat, h1: nat, h2: nat, h3: nat, h4: nat, h5: nat, h6: nat, h7: nat, h8: nat,
               d0: nat, d1: nat, d2: nat, d3: nat, d4: nat, d5: nat, d6: nat, d7: nat)
    requires n == 2 * h1 + d0 < 256 && h1 == 2 * h2 + d1 && h2 == 2 * h3 + d2 && h3 == 2 * h4 + d3
    requires h4 == 2 * h5 + d4 && h5 == 2 * h6 + d5 && h6 == 2 * h7 + d6 && h7 == 2 * h8 + d7
    ensures n == d0 + 2 * d1 + 4 * d2 + 8 * d3 + 16 * d4 + 32 * d5 + 64 * d6 + 128 * d7
  {
  }

  lemma BoolsBack(b0: bool, b1: bool, b2: bool, b3: bool, b4: bool, b5: bool, b6: bool, b7: bool)
    ensures var b := FromBools(b0, b1, b2, b3, b4, b5, b6, b7);
            && Bit(b, 0) == b0 && Bit(b, 1) == b1 && Bit(b, 2) == b2 && Bit(b, 3) == b3
            && Bit(b, 4) == b4 && Bit(b, 5) == b5 && Bit(b, 6) == b6 && Bit(b, 7) == b7
  {
  }

  /** A DWORD's bit pattern, and the bytes of a bit pattern as numbers. */
  function Bits32(w: Word): bv32 {
    var b := LE(w);
    Pack(Bits(b[0]), Bits(b[1]), Bits(b[2]), Bits(b[3]))
  }

  function Pack(b0: bv8, b1: bv8, b2: bv8, b3: bv8): bv32 {
    (b0 as bv32) | ((b1 as bv32) << 8) | ((b2 as bv32) << 16) | ((b3 as bv32) << 24)
  }

  function Byte8(x: bv32, shift: bv6): bv8
    requires shift <= 24
  {
    ((x >> shift) & 0xFF) as bv8
  }

  function Digits32(x: bv32): (s: seq<Byte>)
    ensures |s| == 4
  {
    [Number(Byte8(x, 0)), Number(Byte8(x, 8)), Number(Byte8(x, 16)), Number(Byte8(x, 24))]
  }

  /** The number whose bytes are those of `w` in the other order. */
  function SwapU32(w: Word): Word {
    FromLE(Reverse(LE(w)))
  }

  lemma ThroughBits(n: Byte)
    ensures Number(Bits(n)) == n
  {
    hide Bit, FromBools, Odd, Digit;
    var h1 := n as int / 2;
    var h2 := h1 / 2;
    var h3 := h2 / 2;
    var h4 := h3 / 2;
    var h5 := h4 / 2;
    var h6 := h5 / 2;
    var h7 := h6 / 2;
    Halving(n, 1); Halving(h1, 2); Halving(h2, 4); Halving(h3, 8); Halving(h4, 16); Halving(h5, 32); Halving(h6, 64); Halving(h7, 128);
    Binary(n, h1, h2, h3, h4, h5, h6, h7, h7 / 2, n % 2, h1 % 2, h2 % 2, h3 % 2, h4 % 2, h5 % 2, h6 % 2, h7 % 2);
    BoolsBack(Odd(n), Odd(h1), Odd(h2), Odd(h3), Odd(h4), Odd(h5), Odd(h6), Odd(h7));
  }

  lemma Unpack(b0: bv8, b1: bv8, b2: bv8, b3: bv8)
    ensures var x := Pack(b0, b1, b2, b3);
            Byte8(x, 0) == b0 && Byte8(x, 8) == b1 && Byte8(x, 16) == b2 && Byte8(x, 24) == b3
  {
  }

  lemma SwapMovesBytes(x: bv32)
    ensures var y := Swap32(x);
            Byte8(y, 0) == Byte8(x, 24) && Byte8(y, 8) == Byte8(x, 16) && Byte8(y, 16) == Byte8(x, 8) && Byte8(y, 24) == Byte8(x, 0)
  {
  }

  /** On every DWORD the mask-and-shift swap is the byte reversal. */
  lemma FastSwap32(w: Word)
    ensures FromLE(Digits32(Swap32(Bits32(w)))) == SwapU32(w)
  {
    hide Swap32, Pack, Byte8, Number, Bits, LE, FromLE;
    var b := LE(w);
    Unpack(Bits(b[0]), Bits(b[1]), Bits(b[2]), Bits(b[3]));
    SwapMovesBytes(Bits32(w));
    ThroughBits(b[0]);
    ThroughBits(b[1]);
    ThroughBits(b[2]);
    ThroughBits(b[3]);
    assert Reverse(b) == [b[3], b[2], b[1], b[0]];
  }

  // --- the same for sixteen bits ---

  function Bits16(n: int): bv16
    requires 0 <= n < 0x1_0000
  {
    Pack16(Bits(n % 0x100), Bits(n / 0x100))
  }

  function Pack16(b0: bv8, b1: bv8): bv16 {
    (b0 as bv16) | ((b1 as bv16) << 8)
  }

  function Low8(x: bv16): bv8 {
    (x & 0xFF) as bv8
  }

  function High8(x: bv16): bv8 {
    (x >> 8) as bv8
  }

  function Value16(x: bv16): (n: int)
    ensures 0 <= n < 0x1_0000
  {
    var low: int, high: int := Number(Low8(x)), Number(High8(x));
    low + 0x100 * high
  }

  /** The number whose two bytes are those of `n` in the other order. */
  function SwapU16(n: int): (r: int)
    requires 0 <= n < 0x1_0000
    ensures 0 <= r < 0x1_0000
  {
    n % 0x100 * 0x100 + n / 0x100
  }

  lemma Swap16Packs(b0: bv8, b1: bv8)
    ensures Low8(Swap16(Pack16(b0, b1))) == b1 && High8(Swap16(Pack16(b0, b1))) == b0
  {
  }

  /** On every 16-bit value the shift form is the exchange of the two bytes. */
  lemma FastSwap16(n: int)
    requires 0 <= n < 0x1_0000
    ensures Value16(Swap16(Bits16(n))) == SwapU16(n)
  {
    hide Swap16, Pack16, Low8, High8, Number, Bits;
    Swap16Packs(Bits(n % 0x100), Bits(n / 0x100));
    ThroughBits(n % 0x100);
    ThroughBits(n / 0x100);
  }
}
