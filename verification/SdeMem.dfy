/** Sizes and offsets of the write-back memory of a channel, in size_t arithmetic. */
module SdeMem {
  import opened SdeDesc
  import opened Modular
  import opened Bits

  const SDE_ALIGN: u64 := 64

  function Wrap64(x: nat): u64 { x % 0x1_0000_0000_0000_0000 }
  function Not64(x: u64): u64 { 0xFFFF_FFFF_FFFF_FFFF - x }

  /** sde_aligned_size: (size + (bit_alignment - 1)) & ~(bit_alignment - 1). */
  function AlignedSize(size: u64, alignment: u64): nat
    requires alignment > 0
  {
    BitAnd(Wrap64(size + (alignment - 1)), Not64(alignment - 1))
  }

  /** All ones: nothing is masked off. */
  lemma {:induction false} AndOnes(x: nat, n: nat)
    requires x < Pow2(n)
    ensures BitAnd(x, Pow2(n) - 1) == x
  {
    if n > 0 && x > 0 {
      assert (Pow2(n) - 1) / 2 == Pow2(n - 1) - 1 && (Pow2(n) - 1) % 2 == 1;
      AndOnes(x / 2, n - 1);
    }
  }

  lemma ModHalf(x: nat, m: nat)
    requires m > 0
    ensures x % (2 * m) == 2 * (x / 2 % m) + x % 2
  {
    var q, r := x / 2 / m, x / 2 % m;
    assert x / 2 == m * q + r;
    assert x == 2 * (x / 2) + x % 2;
    assert x == q * (2 * m) + (2 * r + x % 2) by { assert 2 * (m * q) == q * (2 * m); }
    DivModUnique(x, 2 * m, q, 2 * r + x % 2);
  }

  lemma AndEven(x: nat, y: nat)
    requires y % 2 == 0
    ensures BitAnd(x, y) == 2 * BitAnd(x / 2, y / 2)
  {
  }

  lemma MaskHalves(k: nat, n: nat)
    requires 0 < k <= n && Pow2(k) <= Pow2(n)
    ensures Pow2(k) == 2 * Pow2(k - 1) && (Pow2(n) - Pow2(k)) / 2 == Pow2(n - 1) - Pow2(k - 1) && (Pow2(n) - Pow2(k)) % 2 == 0
  {
    EvenParts(Pow2(n - 1), Pow2(k - 1));
  }

  lemma EvenParts(a: int, b: int)
    ensures (2 * a - 2 * b) / 2 == a - b && (2 * a - 2 * b) % 2 == 0
  {
  }

  /** The greatest multiple of m that is not above x. */
  function RoundDown(x: nat, m: nat): int
    requires m > 0
  {
    x - x % m
  }

  /** Rounding the half down and doubling it is rounding down to the double. */
  lemma DoubleRound(x: nat, m: nat)
    requires m > 0
    ensures 2 * RoundDown(x / 2, m) == RoundDown(x, 2 * m)
    ensures RoundDown(x, 1) == x
  {
    ModHalf(x, m);
    assert x == 2 * (x / 2) + x % 2;
  }

  lemma PowZero()
    ensures Pow2(0) == 1
  {
  }

  /** The mask of all bits from k up clears what is below k. */
  lemma {:induction false} AndMask(x: nat, k: nat, n: nat)
    requires k <= n && x < Pow2(n)
    ensures Pow2(k) <= Pow2(n)
    ensures BitAnd(x, Pow2(n) - Pow2(k)) == RoundDown(x, Pow2(k))
    decreases k
  {
    hide BitAnd, Pow2, RoundDown;
    PowMonotone(k, n);
    if k == 0 {
      AndOnes(x, n);
      PowZero();
      DoubleRound(x, 1);
    } else {
      MaskHalves(k, n);
      AndEven(x, Pow2(n) - Pow2(k));
      HalfBelow(x, n);
      AndMask(x / 2, k - 1, n - 1);
      DoubleRound(x, Pow2(k - 1));
    }
  }

  lemma HalfBelow(x: nat, n: nat)
    requires n > 0 && x < Pow2(n)
    ensures x / 2 < Pow2(n - 1)
  {
  }

  lemma WrapSmall(x: nat)
    requires x < 0x1_0000_0000_0000_0000
    ensures Wrap64(x) == x
  {
  }

  lemma WrapOver(x: nat)
    requires 0x1_0000_0000_0000_0000 <= x < 2 * 0x1_0000_0000_0000_0000
    ensures Wrap64(x) == x - 0x1_0000_0000_0000_0000
  {
  }

  lemma PowFits(k: nat)
    requires k < 64
    ensures 0 < Pow2(k) < 0x1_0000_0000_0000_0000 == Pow2(64)
  {
    PowIs64();
    PowMonotone(k, 63);
    assert Pow2(64) == 2 * Pow2(63);
  }

  lemma AlignedValue(size: u64, k: nat)
    requires k < 64 && 0 < Pow2(k) < 0x1_0000_0000_0000_0000
    ensures var x := Wrap64(size + (Pow2(k) - 1)); AlignedSize(size, Pow2(k)) == x - x % Pow2(k)
  {
    hide Pow2, Wrap64, BitAnd;
    PowFits(k);
    AndMask(Wrap64(size + (Pow2(k) - 1)), k, 64);
  }

  /** Rounding down after adding a - 1 is rounding up to the least multiple. */
  lemma LeastMultiple(size: nat, a: nat)
    requires a > 0
    ensures var x := size + (a - 1);
            && size <= x - x % a < size + a && (x - x % a) % a == 0
            && forall m: nat :: size <= m && m % a == 0 ==> x - x % a <= m
  {
    var x := size + (a - 1);
    var r := x - x % a;
    assert r == x / a * a;
    DivModUnique(r, a, x / a, 0);
    forall m: nat | size <= m && m % a == 0 ensures r <= m { NoneBetween(m, r, a); }
  }

  lemma NoneBetween(m: nat, r: nat, a: nat)
    requires a > 0 && m % a == 0 && r % a == 0 && r < m + a
    ensures r <= m
  {
    var d := r / a - m / a;
    assert r == a * (r / a) && m == a * (m / a);
    assert a * d == r - m by { assert a * d == a * (r / a) - a * (m / a); }
    MulBound(a, d);
  }

  /** For a power of two the bit trick gives the least multiple that is not below size;
      when the sum does not fit size_t it gives 0. */
  lemma AlignedSizeIs(size: u64, k: nat)
    requires k < 64
    ensures 0 < Pow2(k) < 0x1_0000_0000_0000_0000
    ensures var r := AlignedSize(size, Pow2(k));
            if size + (Pow2(k) - 1) < 0x1_0000_0000_0000_0000 then
              && size <= r < size + Pow2(k) && r % Pow2(k) == 0
              && forall m: nat :: size <= m && m % Pow2(k) == 0 ==> r <= m
            else r == 0 < size
  {
    hide AlignedSize, Pow2, Wrap64;
    PowFits(k);
    AlignedValue(size, k);
    var a := Pow2(k);
    if size + (a - 1) < 0x1_0000_0000_0000_0000 {
      WrapSmall(size + (a - 1));
      LeastMultiple(size, a);
    } else {
      WrapOver(size + (a - 1));
      ModSmall(size + (a - 1) - 0x1_0000_0000_0000_0000, a);
    }
  }

  lemma Aligned64(size: u64)
    requires size + 63 < 0x1_0000_0000_0000_0000
    ensures size <= AlignedSize(size, SDE_ALIGN) < size + 64
    ensures AlignedSize(size, SDE_ALIGN) % 64 == 0
  {
    hide AlignedSize;
    assert Pow2(6) == 64;
    AlignedSizeIs(size, 6);
  }

  // ---- Layout of the write-back memory ----------------------------------------------

  datatype Writeback = Writeback(metadataOffset: nat, descOffset: nat, statusOffset: nat, memorySize: nat)

  /** writeback_init, for any element sizes and 64 elements a ring. Only C2H has metadata. */
  function WritebackInit(sub: Subsystem, mdSize: u64, descSize: u64, statusSize: u64): Writeback {
    var mdRing := if sub.C2H? then AlignedSize(Wrap64(mdSize * 64), SDE_ALIGN) else 0;
    var descRing := AlignedSize(Wrap64(descSize * 64), SDE_ALIGN);
    var status := AlignedSize(statusSize, SDE_ALIGN);
    Writeback(0, mdRing, Wrap64(mdRing + descRing), Wrap64(Wrap64(descRing + mdRing) + status))
  }

  /** As long as the total fits size_t, the three regions start on 64-byte boundaries,
      do not overlap, and lie inside the memory that is mapped, with room for every
      element of each. */
  lemma RegionsDisjoint(sub: Subsystem, mdSize: u64, descSize: u64, statusSize: u64)
    requires mdSize * 64 + descSize * 64 + statusSize + 3 * 63 < 0x1_0000_0000_0000_0000
    ensures var w := WritebackInit(sub, mdSize, descSize, statusSize);
            && w.metadataOffset % 64 == 0 && w.descOffset % 64 == 0 && w.statusOffset % 64 == 0
            && w.metadataOffset + (if sub.C2H? then mdSize * 64 else 0) <= w.descOffset
            && w.descOffset + descSize * 64 <= w.statusOffset
            && w.statusOffset + statusSize <= w.memorySize
            && w.memorySize < mdSize * 64 + descSize * 64 + statusSize + 3 * 64
  {
    hide AlignedSize, Wrap64;
    var md, desc := mdSize * 64, descSize * 64;
    Aligned64(md);
    Aligned64(desc);
    Aligned64(statusSize);
    WrapSmall(md);
    WrapSmall(desc);
    var mdRing, descRing := if sub.C2H? then AlignedSize(md, SDE_ALIGN) else 0, AlignedSize(desc, SDE_ALIGN);
    WrapSmall(mdRing + descRing);
    WrapSmall(descRing + mdRing + AlignedSize(statusSize, SDE_ALIGN));
    SumAligned(mdRing, descRing);
  }

  lemma SumAligned(a: nat, b: nat)
    requires a % 64 == 0 && b % 64 == 0
    ensures (a + b) % 64 == 0
  {
  }
}
