/** The clock generator's registers and the driver of its four clock managers (MMCMs). */
module ClkgenMmcm {
  import opened Bits
  import opened Modular

  const MAX_RETRIES: nat := 100
  const MMCM_STATUS_LOCKED: u32 := 1
  const FPGA_ERR_HARDWARE_BUSY: int := 19
  const FPGA_ERR_SOFTWARE_PROBLEM: int := 24

  const MMCM_STATUS_REG: nat := 0x04
  const MMCM_MAIN_CFG_REG: nat := 0x200
  const MMCM_LOAD_CFG_REG: nat := 0x25C
  const CLKS_AVAIL: nat := 0x5800C
  const GRST_REG: nat := 0x58010
  const SYSRST_REG: nat := 0x58014
  const LOCK_REG: nat := 0x58020

  datatype Group = A | B | C | HBM

  function Base(g: Group): nat {
    match g case A => 0x52000 case B => 0x50000 case C => 0x51000 case HBM => 0x54000
  }

  function AvailBitStart(g: Group): nat { match g case A => 1 case B => 4 case C => 6 case HBM => 8 }
  function NumClocks(g: Group): nat { match g case A => 3 case B => 2 case C => 2 case HBM => 1 }
  function LockBit(g: Group): nat { match g case A => 0 case B => 4 case C => 6 case HBM => 8 }

  /** Offset of the divider register of clock i. Only clock 0 divides by fractions. */
  function ClkCfgReg(i: nat): nat { if i == 0 then 0x208 else if i == 1 then 0x214 else 0x220 }
  predicate HasFrac(i: nat) { i == 0 }

  // ---- Register codecs ------------------------------------------------------------------------

  function NonZero(x: u32): u32 { if x == 0 then 1 else x }

  /** (div & 0xFF) | ((mult << 8) & 0xFF00) | ((mult_frac << 16) & 0x0FFF0000); the three
      fields share no bit. */
  function MainCfg(mult: u32, frac: u32, div: u32): u32 {
    NonZero(div) % 0x100 + NonZero(mult) % 0x100 * 0x100 + frac % 0x1000 * 0x1_0000
  }

  function MultOf(v: u32): u32 { v / 0x100 % 0x100 }
  function FracOf(v: u32): u32 { v / 0x1_0000 % 0x400 }
  function DivOf(v: u32): u32 { v % 0x100 }

  /** (div & 0xFF) | ((div_frac << 8) & 0x000FFF00), without the fraction where there is none. */
  function ClkCfg(i: nat, div: u32, frac: u32): u32 {
    NonZero(div) % 0x100 + if HasFrac(i) then frac % 0x1000 * 0x100 else 0
  }

  function ClkFracOf(i: nat, v: u32): u32 { if HasFrac(i) then v / 0x100 % 0x400 else 0 }

  /** The write mask keeps 12 bits of the fraction, the read mask 10; what is written reads
      back unchanged exactly in the ranges both sides can hold. */
  lemma MainCfgRoundTrip(mult: u32, frac: u32, div: u32)
    ensures var v := MainCfg(mult, frac, div);
            (MultOf(v) == mult && FracOf(v) == frac && DivOf(v) == div)
            <==> 1 <= mult < 0x100 && frac < 0x400 && 1 <= div < 0x100
  {
    Fields(NonZero(div) % 0x100, NonZero(mult) % 0x100, frac % 0x1000);
    FieldKeeps(mult);
    FieldKeeps(div);
    FracKeeps(frac);
  }

  /** The three fields of a word come apart again. */
  lemma Fields(d: nat, m: nat, f: nat)
    requires d < 0x100 && m < 0x100
    ensures var v := d + m * 0x100 + f * 0x1_0000; v % 0x100 == d && v / 0x100 % 0x100 == m && v / 0x1_0000 == f
  {
    var v := d + m * 0x100 + f * 0x1_0000;
    DivModUnique(v, 0x100, m + f * 0x100, d);
    DivModUnique(m + f * 0x100, 0x100, f, m);
    DivModUnique(v, 0x1_0000, f, d + m * 0x100);
  }

  lemma FieldKeeps(x: u32)
    ensures NonZero(x) % 0x100 == x <==> 1 <= x < 0x100
  {
  }

  lemma FracKeeps(x: u32)
    ensures x % 0x1000 % 0x400 == x <==> x < 0x400
  {
  }

  lemma ClkCfgRoundTrip(i: nat, div: u32, frac: u32)
    ensures var v := ClkCfg(i, div, frac);
            (DivOf(v) == div && ClkFracOf(i, v) == frac)
            <==> 1 <= div < 0x100 && (if HasFrac(i) then frac < 0x400 else frac == 0)
  {
  }

  // ---- The record of an API call ----------------------------------------------------------------

  /** Successful register accesses. */
  datatype Access = Read(offset: nat, value: u32) | Write(offset: nat, value: u32)

  /** The registers of the clock managers themselves. */
  predicate MmcmSpace(offset: nat) { 0x50000 <= offset < 0x58000 }

  const ALL_RESETS: u32 := 0xFFFF_FFFF

  /** Resets are asserted: the last write to SYSRST in the call was all ones. */
  predicate Asserted(log: seq<Access>) {
    if log == [] then false
    else
      var last := log[|log| - 1];
      if last.Write? && last.offset == SYSRST_REG then last.value == ALL_RESETS
      else Asserted(log[..|log| - 1])
  }

  /** May this access come after that record? */
  predicate Allowed(log: seq<Access>, next: Access, mask: nat) {
    next.Write? ==>
      && (MmcmSpace(next.offset) ==> Asserted(log))
      && (next.offset == SYSRST_REG && next.value != ALL_RESETS ==>
            && log != [] && log[|log| - 1].Read? && log[|log| - 1].offset == LOCK_REG
            && BitAnd(log[|log| - 1].value, mask) == mask)
  }

  /** Clock managers were only written with resets asserted, and resets were released only
      right after a lock read that showed every expected lock. */
  predicate Safe(log: seq<Access>, mask: nat) {
    log == [] || (Safe(log[..|log| - 1], mask) && Allowed(log[..|log| - 1], log[|log| - 1], mask))
  }

  lemma SafeMore(log: seq<Access>, next: Access, mask: nat)
    requires Safe(log, mask) && Allowed(log, next, mask)
    ensures Safe(log + [next], mask)
    ensures !(next.Write? && next.offset == SYSRST_REG) ==> Asserted(log + [next]) == Asserted(log)
    ensures next.Write? && next.offset == SYSRST_REG ==> Asserted(log + [next]) == (next.value == ALL_RESETS)
  {
  }

  /** What Safe says of any single access. */
  lemma {:induction false} SafeAt(log: seq<Access>, mask: nat, i: nat)
    requires Safe(log, mask) && i < |log|
    ensures Allowed(log[..i], log[i], mask)
    decreases |log|
  {
    var front := log[..|log| - 1];
    if i < |front| {
      SafeAt(front, mask, i);
      assert front[..i] == log[..i] && front[i] == log[i];
    }
  }

  /** A write to a clock manager has a reset assertion before it, and no release between. */
  lemma {:induction false} AssertedSince(log: seq<Access>) returns (j: nat)
    requires Asserted(log)
    ensures j < |log| && log[j] == Write(SYSRST_REG, ALL_RESETS)
    ensures forall k :: j < k < |log| ==> !(log[k].Write? && log[k].offset == SYSRST_REG)
  {
    var n := |log| - 1;
    if log[n].Write? && log[n].offset == SYSRST_REG {
      j := n;
    } else {
      j := AssertedSince(log[..n]);
      assert forall k :: 0 <= k < n ==> log[..n][k] == log[k];
    }
  }

  // ---- The driver state --------------------------------------------------------------------------

  /** Per group: is any clock known to be there (never taken back), and which. */
  datatype GroupState = GroupState(any: bool, avail: seq<bool>)

  datatype States = States(a: GroupState, b: GroupState, c: GroupState, hbm: GroupState)

  function Of(st: States, g: Group): GroupState {
    match g case A => st.a case B => st.b case C => st.c case HBM => st.hbm
  }

  function With(st: States, g: Group, s: GroupState): States {
    match g case A => st.(a := s) case B => st.(b := s) case C => st.(c := s) case HBM => st.(hbm := s)
  }

  predicate AllGroups(st: States) {
    forall g: Group :: |Of(st, g).avail| == NumClocks(g)
  }

  function LockValue(st: States, g: Group): nat {
    if !Of(st, g).any then 0 else match g case A => 1 case B => 0x10 case C => 0x40 case HBM => 0x100
  }

  /** mmcm_get_expected_lock_mask: one bit for each group in use. */
  function ExpectedMask(st: States): nat {
    LockValue(st, A) + LockValue(st, B) + LockValue(st, C) + LockValue(st, HBM)
  }

  /** A lock register that contains the mask shows a lock for every group in use. */
  lemma MaskCovers(st: States, v: nat, g: Group)
    requires BitAnd(v, ExpectedMask(st)) == ExpectedMask(st) && Of(st, g).any
    ensures Bit(v, LockBit(g))
  {
    var mask := ExpectedMask(st);
    BitOfAnd(v, mask, LockBit(g));
    MaskBits(st, g);
  }

  lemma MaskBits(st: States, g: Group)
    ensures Bit(ExpectedMask(st), LockBit(g)) <==> Of(st, g).any
  {
    var a, b, c, h := if st.a.any then 1 else 0, if st.b.any then 1 else 0, if st.c.any then 1 else 0, if st.hbm.any then 1 else 0;
    MaskDigits(a, b, c, h);
  }

  lemma MaskDigits(a: nat, b: nat, c: nat, h: nat)
    requires a < 2 && b < 2 && c < 2 && h < 2
    ensures var mask := a + 16 * b + 64 * c + 256 * h;
            (Bit(mask, 0) <==> a == 1) && (Bit(mask, 4) <==> b == 1) && (Bit(mask, 6) <==> c == 1) && (Bit(mask, 8) <==> h == 1)
  {
    hide Bit;
    var mask := a + 16 * b + 64 * c + 256 * h;
    assert mask / 16 == b + 4 * c + 16 * h && mask / 64 == c + 4 * h && mask / 256 == h;
    FourUp(mask);
    SixUp(mask);
    EightUp(mask);
    LowBit(mask);
    LowBit(mask / 16);
    LowBit(mask / 64);
    LowBit(mask / 256);
  }

  lemma LowBit(x: nat)
    ensures Bit(x, 0) <==> x % 2 == 1
  {
  }

  lemma FourUp(x: nat)
    ensures Bit(x, 4) == Bit(x / 16, 0)
  {
    assert x / 2 / 2 / 2 / 2 == x / 16;
    assert Bit(x, 4) == Bit(x / 2, 3) == Bit(x / 2 / 2, 2) == Bit(x / 2 / 2 / 2, 1) == Bit(x / 2 / 2 / 2 / 2, 0);
  }

  lemma SixUp(x: nat)
    ensures Bit(x, 6) == Bit(x / 64, 0)
  {
    assert Bit(x, 6) == Bit(x / 2, 5) == Bit(x / 2 / 2, 4);
    FourUp(x / 2 / 2);
    assert x / 2 / 2 / 16 == x / 64;
  }

  lemma EightUp(x: nat)
    ensures Bit(x, 8) == Bit(x / 256, 0)
  {
    assert Bit(x, 8) == Bit(x / 2, 7) == Bit(x / 2 / 2, 6);
    SixUp(x / 2 / 2);
    assert x / 2 / 2 / 64 == x / 256;
  }
}
