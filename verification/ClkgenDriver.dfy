/** The clock generator as an object: its registers, and the operations on one clock manager. */
module ClkgenDriver {
  import opened Bits
  import opened ClkgenMmcm

  const FPGA_ERR_INVALID_CLKGEN_INPUTS: int := 28
  const FPGA_ERR_CLKGEN_NOT_FOUND: int := 29

  /** Divider and multiplier settings of one clock manager. */
  datatype Recipe = Recipe(mult: u32, frac: u32, div: u32, div0: u32, div0Frac: u32, div1: u32, div2: u32)

  function Div(r: Recipe, i: nat): u32 { if i == 0 then r.div0 else if i == 1 then r.div1 else r.div2 }
  function DivFrac(r: Recipe, i: nat): u32 { if i == 0 then r.div0Frac else 0 }

  function MainReg(g: Group): nat { Base(g) + MMCM_MAIN_CFG_REG }
  function ClkReg(g: Group, i: nat): nat { Base(g) + ClkCfgReg(i) }

  /** Configuration registers hold what was written; 0 stands for a value never written. */
  function Reg(regs: map<nat, u32>, offset: nat): u32 { if offset in regs then regs[offset] else 0 }

  predicate IsConfig(offset: nat) {
    exists g: Group :: offset == MainReg(g) || offset == ClkReg(g, 0) || offset == ClkReg(g, 1) || offset == ClkReg(g, 2)
  }

  /** The registers of g hold the recipe, for every clock that is there. */
  predicate Programmed(regs: map<nat, u32>, g: Group, s: GroupState, r: Recipe)
    requires |s.avail| == NumClocks(g)
  {
    && Reg(regs, MainReg(g)) == MainCfg(r.mult, r.frac, r.div)
    && forall i :: 0 <= i < NumClocks(g) && s.avail[i] ==> Reg(regs, ClkReg(g, i)) == ClkCfg(i, Div(r, i), DivFrac(r, i))
  }

  /** Nothing of group h is touched. */
  predicate SameGroup(a: map<nat, u32>, b: map<nat, u32>, h: Group) {
    Reg(a, MainReg(h)) == Reg(b, MainReg(h)) && forall i :: 0 <= i < 3 ==> Reg(a, ClkReg(h, i)) == Reg(b, ClkReg(h, i))
  }

  predicate OthersKept(a: map<nat, u32>, b: map<nat, u32>, g: Group) { forall h :: h != g ==> SameGroup(a, b, h) }
  predicate AllKept(a: map<nat, u32>, b: map<nat, u32>) { forall h :: SameGroup(a, b, h) }

  lemma WriteKeeps(regs: map<nat, u32>, g: Group, offset: nat, v: u32)
    requires Base(g) <= offset < Base(g) + 0x1000
    ensures OthersKept(regs, regs[offset := v], g)
    ensures offset == Base(g) + MMCM_LOAD_CFG_REG ==> AllKept(regs, regs[offset := v])
  {
  }

  lemma OutsideKeeps(regs: map<nat, u32>, offset: nat, v: u32)
    requires !MmcmSpace(offset)
    ensures AllKept(regs, regs[offset := v])
  {
  }

  lemma KeptTwice(a: map<nat, u32>, b: map<nat, u32>, c: map<nat, u32>, g: Group)
    requires OthersKept(a, b, g) && (OthersKept(b, c, g) || AllKept(b, c))
    ensures OthersKept(a, c, g)
  {
    forall h | h != g ensures SameGroup(a, c, h) {
      assert SameGroup(a, b, h) && SameGroup(b, c, h);
    }
  }

  lemma KeptSelf(a: map<nat, u32>, g: Group)
    ensures OthersKept(a, a, g) && AllKept(a, a)
  {
  }

  lemma WithIs(st: States, g: Group, s: GroupState)
    requires AllGroups(st) && |s.avail| == NumClocks(g)
    ensures AllGroups(With(st, g, s)) && Of(With(st, g, s), g) == s
    ensures forall h :: h != g ==> Of(With(st, g, s), h) == Of(st, h)
  {
  }

  class Clkgen {
    var regs: map<nat, u32>
    var st: States
    ghost var log: seq<Access>   // of the API call under way

    constructor ()
      ensures Valid() && regs == map[] && log == []
      ensures forall g :: !Of(st, g).any
    {
      regs, log := map[], [];
      st := States(GroupState(false, [false, false, false]), GroupState(false, [false, false]),
                   GroupState(false, [false, false]), GroupState(false, [false]));
    }

    ghost predicate Valid()
      reads this
    {
      AllGroups(st)
    }

    ghost predicate Fine()
      reads this
    {
      Valid() && Safe(log, ExpectedMask(st))
    }

    /** fpga_pci_peek: configuration registers read back what they hold. */
    method Peek(offset: nat) returns (rc: int, v: u32)
      requires Fine()
      modifies this`log
      ensures Fine() && Asserted(log) == Asserted(old(log))
      ensures rc == 0 ==> log == old(log) + [Read(offset, v)] && (IsConfig(offset) ==> v == Reg(regs, offset))
      ensures rc != 0 ==> log == old(log)
    {
      rc, v := *, *;
      if IsConfig(offset) { v := Reg(regs, offset); }
      if rc == 0 {
        SafeMore(log, Read(offset, v), ExpectedMask(st));
        log := log + [Read(offset, v)];
      }
    }

    /** fpga_pci_poke: it may fail, without effect. */
    method Poke(offset: nat, v: u32) returns (rc: int)
      requires Fine() && Allowed(log, Write(offset, v), ExpectedMask(st))
      modifies this`log, this`regs
      ensures Fine()
      ensures rc == 0 ==> log == old(log) + [Write(offset, v)] && regs == old(regs)[offset := v]
      ensures rc != 0 ==> log == old(log) && regs == old(regs)
      ensures offset != SYSRST_REG ==> Asserted(log) == Asserted(old(log))
      ensures offset == SYSRST_REG && rc == 0 ==> Asserted(log) == (v == ALL_RESETS)
    {
      rc := *;
      if rc == 0 {
        SafeMore(log, Write(offset, v), ExpectedMask(st));
        log := log + [Write(offset, v)];
        regs := regs[offset := v];
      }
    }

    /** mmcm_init: find out which clocks there are. The flag for the group is only ever set. */
    method MmcmInit(g: Group) returns (rc: int)
      requires Valid() && OnlyReads(log)
      modifies this`log, this`st
      ensures Fine() && OnlyReads(log)
      ensures forall h :: h != g ==> Of(st, h) == Of(old(st), h)
      ensures rc != 0 ==> st == old(st)
      ensures rc == 0 ==>
                && (Of(st, g).any <==> Of(old(st), g).any || exists i :: 0 <= i < NumClocks(g) && Of(st, g).avail[i])
                && exists v: u32 :: log == old(log) + [Read(CLKS_AVAIL, v)] &&
                     forall i :: 0 <= i < NumClocks(g) ==> Of(st, g).avail[i] == Bit(v, AvailBitStart(g) + i)
    {
      hide Bit, ExpectedMask, Safe, Asserted, With, Of, NumClocks, AvailBitStart, IsConfig, AllGroups;
      ReadsSafe(log, ExpectedMask(st));
      var v;
      rc, v := Peek(CLKS_AVAIL);
      if rc != 0 { return; }
      var avail, any := AvailBits(v, AvailBitStart(g), NumClocks(g), Of(st, g).any);
      WithIs(st, g, GroupState(any, avail));
      st := With(st, g, GroupState(any, avail));
      ReadsSafe(log, ExpectedMask(st));
    }

    /** The loop of mmcm_init over the clocks of a group. */
    static method AvailBits(v: u32, start: nat, n: nat, before: bool) returns (avail: seq<bool>, any: bool)
      ensures |avail| == n && forall i :: 0 <= i < n ==> avail[i] == Bit(v, start + i)
      ensures any <==> before || exists i :: 0 <= i < n && avail[i]
    {
      hide Bit, ShiftRight;
      var shifted := ShiftRight(v, start);
      avail, any := [], before;
      var i := 0;
      while i < n
        invariant 0 <= i <= n && |avail| == i
        invariant forall k :: 0 <= k < i ==> avail[k] == Bit(v, start + k)
        invariant any <==> before || exists k :: 0 <= k < i && avail[k]
      {
        BitShifted(v, start, i);
        ghost var front := avail;
        avail := avail + [Bit(shifted, i)];
        assert forall k :: 0 <= k < i ==> avail[k] == front[k];
        if Bit(shifted, i) {
          assert avail[i];
          any := true;
        }
        i := i + 1;
      }
    }

    /** mmcm_wait_for_locked: at most 100 reads of the status register. */
    method WaitForLocked(g: Group) returns (rc: int)
      requires Fine()
      modifies this`log
      ensures Fine() && Asserted(log) == Asserted(old(log)) && |log| <= |old(log)| + MAX_RETRIES
      ensures rc == 0 ==> log != [] && log[|log| - 1] == Read(Base(g) + MMCM_STATUS_REG, MMCM_STATUS_LOCKED)
    {
      var loopCount := 0;
      while loopCount < MAX_RETRIES
        invariant 0 <= loopCount <= MAX_RETRIES && Fine()
        invariant Asserted(log) == Asserted(old(log)) && |log| == |old(log)| + loopCount
      {
        var v;
        rc, v := Peek(Base(g) + MMCM_STATUS_REG);
        if rc != 0 { return; }
        if v == MMCM_STATUS_LOCKED { return; }
        loopCount := loopCount + 1;
      }
      rc := FPGA_ERR_HARDWARE_BUSY;
    }

    /** mmcm_set_shared_clock */
    method SetSharedClock(g: Group, mult: u32, frac: u32, div: u32) returns (rc: int)
      requires Fine() && Asserted(log)
      modifies this`log, this`regs
      ensures Fine() && Asserted(log)
      ensures OthersKept(old(regs), regs, g)
      ensures regs == if rc == 0 then old(regs)[MainReg(g) := MainCfg(mult, frac, div)] else old(regs)
    {
      WriteKeeps(regs, g, MainReg(g), MainCfg(mult, frac, div));
      KeptSelf(regs, g);
      rc := Poke(MainReg(g), MainCfg(mult, frac, div));
    }

    /** mmcm_set_clk_div */
    method SetClkDiv(g: Group, i: nat, div: u32, frac: u32) returns (rc: int)
      requires Fine() && Asserted(log)
      modifies this`log, this`regs
      ensures Fine() && Asserted(log)
      ensures i >= NumClocks(g) ==> rc == FPGA_ERR_SOFTWARE_PROBLEM
      ensures OthersKept(old(regs), regs, g)
      ensures regs == if rc == 0 then old(regs)[ClkReg(g, i) := ClkCfg(i, div, frac)] else old(regs)
    {
      KeptSelf(regs, g);
      if i >= NumClocks(g) { return FPGA_ERR_SOFTWARE_PROBLEM; }
      WriteKeeps(regs, g, ClkReg(g, i), ClkCfg(i, div, frac));
      rc := Poke(ClkReg(g, i), ClkCfg(i, div, frac));
    }

    /** mmcm_load_cfg */
    method LoadCfg(g: Group, reset: bool) returns (rc: int)
      requires Fine() && Asserted(log)
      modifies this`log, this`regs
      ensures Fine() && Asserted(log)
      ensures AllKept(old(regs), regs)
      ensures regs == if rc == 0 then old(regs)[Base(g) + MMCM_LOAD_CFG_REG := if reset then 1 else 3] else old(regs)
    {
      KeptSelf(regs, g);
      WriteKeeps(regs, g, Base(g) + MMCM_LOAD_CFG_REG, if reset then 1 else 3);
      rc := Poke(Base(g) + MMCM_LOAD_CFG_REG, if reset then 1 else 3);
    }

    /** aws_clkgen_set_mmcm: a recipe goes into the registers of a group that has clocks. */
    method SetMmcm(g: Group, r: Recipe, reset: bool) returns (rc: int)
      requires Fine() && Asserted(log)
      modifies this`log, this`regs
      ensures Fine() && Asserted(log)
      ensures OthersKept(old(regs), regs, g)
      ensures !Of(st, g).any ==> rc == 0 && regs == old(regs)
      ensures rc == 0 && !reset && Of(st, g).any ==> Programmed(regs, g, Of(st, g), r)
    {
      hide Safe, Asserted, MainCfg, ClkCfg, Allowed, ExpectedMask;
      KeptSelf(regs, g);
      if !Of(st, g).any { return 0; }
      if !reset {
        rc := SetDividers(g, r);
        if rc != 0 { return; }
      }
      rc := WaitForLocked(g);
      if rc != 0 { return; }
      ghost var before := regs;
      rc := LoadCfg(g, reset);
      KeptTwice(old(regs), before, regs, g);
      if rc != 0 { return; }
      rc := WaitForLocked(g);
    }

    method SetDividers(g: Group, r: Recipe) returns (rc: int)
      requires Fine() && Asserted(log)
      modifies this`log, this`regs
      ensures Fine() && Asserted(log)
      ensures OthersKept(old(regs), regs, g)
      ensures rc == 0 ==> Programmed(regs, g, Of(st, g), r)
    {
      hide Safe, Asserted, MainCfg, ClkCfg, Allowed, ExpectedMask, OthersKept;
      rc := SetSharedClock(g, r.mult, r.frac, r.div);
      if rc != 0 { return; }
      var i := 0;
      while i < 3
        invariant 0 <= i <= 3 && Fine() && Asserted(log)
        invariant OthersKept(old(regs), regs, g)
        invariant Reg(regs, MainReg(g)) == MainCfg(r.mult, r.frac, r.div)
        invariant forall k :: 0 <= k < i && k < NumClocks(g) && Of(st, g).avail[k] ==>
                    Reg(regs, ClkReg(g, k)) == ClkCfg(k, Div(r, k), DivFrac(r, k))
      {
        if i < NumClocks(g) && Of(st, g).avail[i] {
          ghost var before := regs;
          rc := SetClkDiv(g, i, Div(r, i), DivFrac(r, i));
          KeptTwice(old(regs), before, regs, g);
          if rc != 0 { return; }
        }
        i := i + 1;
      }
    }

    /** aws_clkgen_reset. Releasing waits for the locks; when they do not come the resets
        stay asserted, and the code returned is 0 all the same. */
    method Reset(reset: bool) returns (rc: int, ghost released: bool)
      requires Fine()
      modifies this`log, this`regs
      ensures Fine()
      ensures reset && rc == 0 ==> Asserted(log)
      ensures AllKept(old(regs), regs)
      ensures released ==> !reset && rc == 0 && log != [] && log[|log| - 1] == Write(SYSRST_REG, 0)
      ensures !reset && !released ==> Asserted(log) == Asserted(old(log))
    {
      hide Safe, Asserted, BitAnd, ExpectedMask, AllKept;
      released := false;
      KeptSelf(regs, A);
      OutsideKeeps(regs, GRST_REG, 0);
      rc := Poke(GRST_REG, 0);
      if rc != 0 { return; }
      if !reset {
        var mask := ExpectedMask(st);
        var locked := false;
        var loopCount := 0;
        while loopCount < MAX_RETRIES && !locked
          invariant 0 <= loopCount <= MAX_RETRIES && Fine() && Asserted(log) == Asserted(old(log)) && rc == 0
          invariant AllKept(old(regs), regs)
          invariant locked ==> log != [] && log[|log| - 1].Read? && log[|log| - 1].offset == LOCK_REG
                               && BitAnd(log[|log| - 1].value, mask) == mask
          decreases MAX_RETRIES - loopCount, !locked
        {
          var v;
          rc, v := Peek(LOCK_REG);
          if rc != 0 { return; }
          if BitAnd(v, mask) == mask { locked := true; } else { loopCount := loopCount + 1; }
        }
        if loopCount >= MAX_RETRIES { return; }
      }
      OutsideKeeps(regs, SYSRST_REG, if reset then ALL_RESETS else 0);
      ghost var before := regs;
      rc := Poke(SYSRST_REG, if reset then ALL_RESETS else 0);
      AllKeptTwice(old(regs), before, regs);
      released := !reset && rc == 0;
    }
  }

  predicate OnlyReads(log: seq<Access>) {
    forall i :: 0 <= i < |log| ==> log[i].Read?
  }

  lemma {:induction false} ReadsSafe(log: seq<Access>, mask: nat)
    requires OnlyReads(log)
    ensures Safe(log, mask)
    decreases |log|
  {
    if log != [] { ReadsSafe(log[..|log| - 1], mask); }
  }

  function ShiftRight(x: nat, n: nat): nat {
    if n == 0 then x else ShiftRight(x / 2, n - 1)
  }

  lemma {:induction false} BitShifted(x: nat, n: nat, i: nat)
    ensures Bit(ShiftRight(x, n), i) == Bit(x, n + i)
    decreases n
  {
    if n > 0 { BitShifted(x / 2, n - 1, i); }
  }

  lemma AllKeptTwice(a: map<nat, u32>, b: map<nat, u32>, c: map<nat, u32>)
    requires AllKept(a, b) && (AllKept(b, c) || b == c)
    ensures AllKept(a, c)
  {
    forall h ensures SameGroup(a, c, h) {
      assert SameGroup(a, b, h) && (b == c || SameGroup(b, c, h));
    }
  }
}
