/** Numbers, bytes and bits, least significant first. */
module Bits {
  type u8 = x: int | 0 <= x < 256
  type u32 = x: int | 0 <= x < 0x1_0000_0000
  type u64 = x: int | 0 <= x < 0x1_0000_0000_0000_0000

  function Pow2(n: nat): (p: nat)
    ensures p > 0
  {
    if n == 0 then 1 else 2 * Pow2(n - 1)
  }

  lemma {:induction false} PowMonotone(k: nat, n: nat)
    requires k <= n
    ensures Pow2(k) <= Pow2(n)
    decreases n
  {
    if k < n { PowMonotone(k, n - 1); }
  }

  lemma {:induction false} PowAdd(a: nat, b: nat)
    ensures Pow2(a + b) == Pow2(a) * Pow2(b)
    decreases b
  {
    if b > 0 { PowAdd(a, b - 1); }
  }

  lemma PowIs32()
    ensures Pow2(32) == 0x1_0000_0000
  {
    hide Pow2;
    PowIs8();
    PowAdd(8, 8);
    PowAdd(16, 16);
  }

  lemma PowIs8()
    ensures Pow2(8) == 256
  {
  }

  lemma PowIs64()
    ensures Pow2(64) == 0x1_0000_0000_0000_0000
  {
    PowIs32();
    PowAdd(32, 32);
  }

  /** Bitwise and, bit by bit. */
  function BitAnd(x: nat, y: nat): nat {
    if x == 0 || y == 0 then 0 else (x % 2) * (y % 2) + 2 * BitAnd(x / 2, y / 2)
  }

  /** Bit i of x. */
  function Bit(x: nat, i: nat): bool {
    if i == 0 then x % 2 == 1 else Bit(x / 2, i - 1)
  }

  lemma {:induction false} BitOfAnd(x: nat, y: nat, i: nat)
    ensures Bit(BitAnd(x, y), i) <==> Bit(x, i) && Bit(y, i)
    decreases i
  {
    if x == 0 || y == 0 {
      BitOfZero(i);
    } else {
      var low := x % 2 * (y % 2);
      assert low == if x % 2 == 1 && y % 2 == 1 then 1 else 0;
      assert BitAnd(x, y) / 2 == BitAnd(x / 2, y / 2) && BitAnd(x, y) % 2 == low;
      if i > 0 { BitOfAnd(x / 2, y / 2, i - 1); }
    }
  }

  lemma {:induction false} BitOfZero(i: nat)
    ensures !Bit(0, i)
  {
    if i > 0 { BitOfZero(i - 1); }
  }

  /** The n lowest bits of x. */
  function BitsOf(x: nat, n: nat): (b: seq<bool>)
    ensures |b| == n
  {
    if n == 0 then [] else [x % 2 == 1] + BitsOf(x / 2, n - 1)
  }

  lemma {:induction false} BitsPrefix(x: nat, n: nat, m: nat)
    ensures BitsOf(x, n + m)[..n] == BitsOf(x, n)
    decreases n
  {
    if n > 0 {
      BitsPrefix(x / 2, n - 1, m);
      assert BitsOf(x, n + m)[..n] == [x % 2 == 1] + BitsOf(x / 2, n - 1 + m)[..n - 1];
    }
  }

  function FromBits(b: seq<bool>): nat {
    if b == [] then 0 else (if b[0] then 1 else 0) + 2 * FromBits(b[1..])
  }

  lemma {:induction false} FromBitsBack(b: seq<bool>)
    ensures BitsOf(FromBits(b), |b|) == b && FromBits(b) < Pow2(|b|)
  {
    if b != [] { FromBitsBack(b[1..]); }
  }

  /** A number below 2^n with y on top of it. */
  lemma {:induction false} BitsStack(x: nat, n: nat, y: nat, m: nat)
    requires x < Pow2(n)
    ensures BitsOf(x + Pow2(n) * y, n + m) == BitsOf(x, n) + BitsOf(y, m)
    decreases n
  {
    if n == 0 {
      assert Pow2(0) * y == y;
    } else {
      var p := Pow2(n - 1);
      assert Pow2(n) * y == 2 * (p * y);
      assert (x + Pow2(n) * y) / 2 == x / 2 + p * y;
      BitsStack(x / 2, n - 1, y, m);
    }
  }

  /** Bits of a byte string, byte after byte. */
  function BytesBits(b: seq<u8>): (r: seq<bool>)
    ensures |r| == 8 * |b|
  {
    if b == [] then [] else BitsOf(b[0], 8) + BytesBits(b[1..])
  }

  lemma {:induction false} BytesBitsConcat(a: seq<u8>, b: seq<u8>)
    ensures BytesBits(a + b) == BytesBits(a) + BytesBits(b)
  {
    var s := a + b;
    if a == [] {
      assert s == b;
    } else {
      assert s[0] == a[0] && s[1..] == a[1..] + b;
      BytesBitsConcat(a[1..], b);
      var x, y, z := BitsOf(a[0], 8), BytesBits(a[1..]), BytesBits(b);
      assert x + (y + z) == (x + y) + z;
    }
  }

  lemma BytesBitsSlice(b: seq<u8>, i: nat, j: nat)
    requires i <= j <= |b|
    ensures BytesBits(b)[8 * i..8 * j] == BytesBits(b[i..j])
  {
    hide BytesBits;
    var x, y, z := b[..i], b[i..j], b[j..];
    Split3(b, i, j);
    BytesBitsConcat(x, y + z);
    BytesBitsConcat(y, z);
    Middle(BytesBits(x), BytesBits(y), BytesBits(z));
  }

  lemma Split3<T>(b: seq<T>, i: nat, j: nat)
    requires i <= j <= |b|
    ensures b == b[..i] + (b[i..j] + b[j..])
  {
  }

  lemma Middle<T>(x: seq<T>, y: seq<T>, z: seq<T>)
    ensures (x + (y + z))[|x|..|x| + |y|] == y
  {
  }

  /** Little-endian value of a byte string. */
  function Word(b: seq<u8>): nat {
    if b == [] then 0 else b[0] + 256 * Word(b[1..])
  }

  /** The n bytes of x, little-endian. */
  function Unword(x: nat, n: nat): (b: seq<u8>)
    ensures |b| == n
  {
    if n == 0 then [] else [x % 256] + Unword(x / 256, n - 1)
  }

  lemma {:induction false} WordBits(b: seq<u8>)
    ensures BitsOf(Word(b), 8 * |b|) == BytesBits(b) && Word(b) < Pow2(8 * |b|)
  {
    if b != [] {
      WordBits(b[1..]);
      PowIs8();
      BitsStack(b[0], 8, Word(b[1..]), 8 * |b[1..]|);
      PowAdd(8 * |b[1..]|, 8);
      assert 8 * |b[1..]| + 8 == 8 * |b|;
      assert b[0] + 256 * Word(b[1..]) < Pow2(8 * |b[1..]|) * 256;
    }
  }

  lemma {:induction false} UnwordBits(x: nat, n: nat)
    ensures BytesBits(Unword(x, n)) == BitsOf(x, 8 * n)
    decreases n
  {
    if n > 0 {
      UnwordBits(x / 256, n - 1);
      PowIs8();
      BitsStack(x % 256, 8, x / 256, 8 * (n - 1));
      assert x == x % 256 + 256 * (x / 256);
    }
  }

  lemma {:induction false} WordUnwordN(x: nat, n: nat)
    requires x < Pow2(8 * n)
    ensures Word(Unword(x, n)) == x
    decreases n
  {
    if n > 0 {
      PowIs8();
      PowAdd(8 * (n - 1), 8);
      assert 8 * (n - 1) + 8 == 8 * n;
      assert x / 256 < Pow2(8 * (n - 1));
      WordUnwordN(x / 256, n - 1);
      assert Unword(x, n)[1..] == Unword(x / 256, n - 1);
    }
  }

  lemma WordUnword(x: nat)
    requires x < 0x1_0000_0000
    ensures Word(Unword(x, 4)) == x
  {
    PowIs32();
    WordUnwordN(x, 4);
  }

  lemma {:induction false} UnwordWord(b: seq<u8>)
    ensures Unword(Word(b), |b|) == b
  {
    if b != [] {
      UnwordWord(b[1..]);
      assert Word(b) % 256 == b[0] && Word(b) / 256 == Word(b[1..]);
    }
  }
}
