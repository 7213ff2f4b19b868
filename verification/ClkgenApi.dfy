/** The calls an application makes to the clock generator. Whatever fails on the way, the
    clock managers are only written while the resets are asserted, and the resets are only
    released on a lock read that shows every expected lock. */
module ClkgenApi {
  import opened Bits
  import opened ClkgenMmcm
  import opened ClkgenDriver
  import opened ClkgenUtils

  /** The end of a call that touches the resets: if it asserted them and did not get as far
      as releasing them, they still are. */
  ghost predicate ResetsKept(log: seq<Access>, asserted: bool, released: bool) {
    && (asserted && !released ==> Asserted(log))
    && (released ==> log != [] && log[|log| - 1] == Write(SYSRST_REG, 0))
  }

  /** The release at the end of a call came right after a read of all expected locks. */
  lemma ReleasedLocked(log: seq<Access>, st: States, g: Group)
    requires Safe(log, ExpectedMask(st)) && log != [] && log[|log| - 1] == Write(SYSRST_REG, 0) && Of(st, g).any
    ensures |log| >= 2 && log[|log| - 2].Read? && log[|log| - 2].offset == LOCK_REG
    ensures Bit(log[|log| - 2].value, LockBit(g))
  {
    hide ExpectedMask, Bit, BitAnd;
    var n := |log| - 1;
    SafeAt(log, ExpectedMask(st), n);
    assert log[..n][n - 1] == log[n - 1];
    MaskCovers(st, log[n - 1].value, g);
  }

  /** aws_clkgen_check_id */
  method CheckId(c: Clkgen) returns (rc: int)
    requires c.Fine() && OnlyReads(c.log)
    modifies c`log
    ensures c.Fine() && OnlyReads(c.log)
    ensures rc == 0 ==> c.log == old(c.log) + [Read(ID_REG, CLKGEN_ID), Read(VER_REG, CLKGEN_VER), Read(BLD_REG, CLKGEN_BLD)]
  {
    hide Safe, Asserted, ExpectedMask, IsConfig, AllGroups;
    var v;
    rc, v := c.Peek(ID_REG);
    if rc != 0 { return; }
    if v != CLKGEN_ID { return 1; }
    rc, v := c.Peek(VER_REG);
    if rc != 0 { return; }
    if v != CLKGEN_VER { return 1; }
    rc, v := c.Peek(BLD_REG);
    if rc != 0 { return; }
    if v != CLKGEN_BLD { return 1; }
  }

  /** How every call begins: attach, look for the clocks of all groups, check the ids. */
  method Prepare(c: Clkgen) returns (rc: int)
    requires c.Valid()
    modifies c`log, c`st
    ensures c.Fine() && OnlyReads(c.log)
    ensures forall g :: Of(old(c.st), g).any ==> Of(c.st, g).any
    ensures rc == 0 ==> |c.log| == 7 && c.log[4..] == [Read(ID_REG, CLKGEN_ID), Read(VER_REG, CLKGEN_VER), Read(BLD_REG, CLKGEN_BLD)]
  {
    hide ExpectedMask, Safe, Asserted, IsConfig;
    c.log := [];
    ReadsSafe(c.log, ExpectedMask(c.st));
    rc := *;
    if rc != 0 { return; }
    rc := c.MmcmInit(A);
    if rc != 0 { return; }
    rc := c.MmcmInit(B);
    if rc != 0 { return; }
    rc := c.MmcmInit(C);
    if rc != 0 { return; }
    rc := c.MmcmInit(HBM);
    if rc != 0 { return; }
    rc := CheckId(c);
    if rc != 0 { rc := FPGA_ERR_CLKGEN_NOT_FOUND; }
  }

  function Pick<T>(g: Group, a: T, b: T, c: T, hbm: T): T {
    match g case A => a case B => b case C => c case HBM => hbm
  }

  /** Every group that has clocks holds its recipe. */
  predicate AllProgrammed(regs: map<nat, u32>, st: States, a: Recipe, b: Recipe, c: Recipe, hbm: Recipe)
    requires AllGroups(st)
  {
    forall g: Group :: Of(st, g).any ==> Programmed(regs, g, Of(st, g), Pick(g, a, b, c, hbm))
  }

  lemma ProgrammedKept(a: map<nat, u32>, b: map<nat, u32>, g: Group, h: Group, s: GroupState, r: Recipe)
    requires |s.avail| == NumClocks(h) && Programmed(a, h, s, r) && ((OthersKept(a, b, g) && g != h) || AllKept(a, b))
    ensures Programmed(b, h, s, r)
  {
    hide MainCfg, ClkCfg;
    assert SameGroup(a, b, h);
  }

  /** aws_clkgen_set_recipe */
  method SetRecipe(c: Clkgen, ra: nat, rb: nat, rc_: nat, rh: nat, reset: bool)
    returns (rc: int, ghost asserted: bool, ghost released: bool)
    requires c.Valid()
    modifies c
    ensures c.Fine() && ResetsKept(c.log, asserted, released)
    ensures !reset && (ra >= |RECIPES_A| || rb >= |RECIPES_B| || rc_ >= |RECIPES_C| || rh >= |RECIPES_HBM|) ==>
              rc == FPGA_ERR_INVALID_CLKGEN_INPUTS && c.regs == old(c.regs)
    ensures rc == 0 ==> asserted
    ensures rc == 0 && !reset ==>
              AllProgrammed(c.regs, c.st, RECIPES_A[ra], RECIPES_B[rb], RECIPES_C[rc_], RECIPES_HBM[rh])
  {
    hide Programmed, Safe, Asserted, ExpectedMask;
    asserted, released := false, false;
    c.log := [];
    ReadsSafe(c.log, ExpectedMask(c.st));
    var a, b, c_, h := ra, rb, rc_, rh;
    if !reset {
      if ra >= |RECIPES_A| || rb >= |RECIPES_B| || rc_ >= |RECIPES_C| || rh >= |RECIPES_HBM| {
        return FPGA_ERR_INVALID_CLKGEN_INPUTS, asserted, released;
      }
    } else {
      a, b, c_, h := 0, 0, 0, 0;
    }
    rc, asserted, released := Configure(c, RECIPES_A[a], RECIPES_B[b], RECIPES_C[c_], RECIPES_HBM[h], reset);
  }

  /** The common middle of set_recipe: assert, program the four groups, release. */
  method Configure(c: Clkgen, a: Recipe, b: Recipe, c_: Recipe, h: Recipe, reset: bool)
    returns (rc: int, ghost asserted: bool, ghost released: bool)
    requires c.Valid()
    modifies c
    ensures c.Fine() && ResetsKept(c.log, asserted, released)
    ensures rc == 0 ==> asserted
    ensures rc == 0 && !reset ==> AllProgrammed(c.regs, c.st, a, b, c_, h)
  {
    hide Programmed, Safe, Asserted, ExpectedMask, OthersKept, AllKept, AllProgrammed;
    asserted, released := false, false;
    rc := Prepare(c);
    if rc != 0 { return; }
    ghost var r;
    rc, r := c.Reset(true);
    if rc != 0 { return; }
    asserted := true;
    rc := c.SetMmcm(A, a, reset);
    if rc != 0 { return; }
    ghost var regsA := c.regs;
    rc := c.SetMmcm(B, b, reset);
    if rc != 0 { return; }
    ghost var regsB := c.regs;
    rc := c.SetMmcm(C, c_, reset);
    if rc != 0 { return; }
    ghost var regsC := c.regs;
    rc := c.SetMmcm(HBM, h, reset);
    if rc != 0 { return; }
    ghost var regsH := c.regs;
    rc, released := c.Reset(false);
    if rc == 0 && !reset {
      AllSet(regsA, regsB, regsC, regsH, c.regs, c.st, a, b, c_, h);
    }
  }

  lemma AllSet(ra: map<nat, u32>, rb: map<nat, u32>, rc: map<nat, u32>, rh: map<nat, u32>, end: map<nat, u32>, st: States,
               a: Recipe, b: Recipe, c: Recipe, h: Recipe)
    requires AllGroups(st) && OthersKept(ra, rb, B) && OthersKept(rb, rc, C) && OthersKept(rc, rh, HBM) && AllKept(rh, end)
    requires st.a.any ==> Programmed(ra, A, st.a, a)
    requires st.b.any ==> Programmed(rb, B, st.b, b)
    requires st.c.any ==> Programmed(rc, C, st.c, c)
    requires st.hbm.any ==> Programmed(rh, HBM, st.hbm, h)
    ensures AllProgrammed(end, st, a, b, c, h)
  {
    hide Programmed, OthersKept, AllKept;
    if st.a.any {
      ProgrammedKept(ra, rb, B, A, st.a, a);
      ProgrammedKept(rb, rc, C, A, st.a, a);
      ProgrammedKept(rc, rh, HBM, A, st.a, a);
      ProgrammedKept(rh, end, HBM, A, st.a, a);
    }
    if st.b.any {
      ProgrammedKept(rb, rc, C, B, st.b, b);
      ProgrammedKept(rc, rh, HBM, B, st.b, b);
      ProgrammedKept(rh, end, HBM, B, st.b, b);
    }
    if st.c.any {
      ProgrammedKept(rc, rh, HBM, C, st.c, c);
      ProgrammedKept(rh, end, HBM, C, st.c, c);
    }
    if st.hbm.any { ProgrammedKept(rh, end, HBM, HBM, st.hbm, h); }
  }

  /** aws_clkgen_set_dynamic: for every accepted request, the chosen rows. */
  method SetDynamic(c: Clkgen, fa: nat, fb: nat, fc: nat, fh: nat, reset: bool)
    returns (rc: int, ghost asserted: bool, ghost released: bool, ghost ia: nat, ghost ib: nat, ghost ic: nat, ghost ih: nat)
    requires c.Valid()
    modifies c
    ensures c.Fine() && ResetsKept(c.log, asserted, released)
    ensures !reset && (fa > CLKGEN_A_1_MAX || fb > CLKGEN_B_0_MAX || fc > CLKGEN_C_0_MAX || fh > CLKGEN_HBM_MAX) ==>
              rc == FPGA_ERR_INVALID_CLKGEN_INPUTS && c.regs == old(c.regs)
    ensures rc == 0 ==> asserted
    ensures rc == 0 && !reset ==> ia < ROWS && ib < ROWS && ic < ROWS && ih < ROWS
    ensures rc == 0 && !reset ==> forall g :: Of(c.st, g).any ==> Chosen(Pick(g, ia, ib, ic, ih), Pick(g, fa, fb, fc, fh))
    ensures rc == 0 && !reset ==>
              AllProgrammed(c.regs, c.st, RecipeOf(FreqTable(ia)), RecipeOf(FreqTable(ib)), RecipeOf(FreqTable(ic)), RecipeOf(FreqTable(ih)))
  {
    hide Programmed, Safe, Asserted, ExpectedMask, OthersKept, AllKept, FreqTable, AllProgrammed, Chosen;
    asserted, released, ia, ib, ic, ih := false, false, 0, 0, 0, 0;
    c.log := [];
    ReadsSafe(c.log, ExpectedMask(c.st));
    var a, b, c_, h := fa, fb, fc, fh;
    if !reset {
      if fa > CLKGEN_A_1_MAX || fb > CLKGEN_B_0_MAX || fc > CLKGEN_C_0_MAX || fh > CLKGEN_HBM_MAX {
        rc := FPGA_ERR_INVALID_CLKGEN_INPUTS;
        return;
      }
    } else {
      a, b, c_, h := 0, 0, 0, 0;
    }
    rc := Prepare(c);
    if rc != 0 { return; }
    ghost var r;
    rc, r := c.Reset(true);
    if rc != 0 { return; }
    asserted := true;
    rc, ia := SetFreq(c, A, a, reset);
    if rc != 0 { return; }
    ghost var regsA := c.regs;
    rc, ib := SetFreq(c, B, b, reset);
    if rc != 0 { return; }
    ghost var regsB := c.regs;
    rc, ic := SetFreq(c, C, c_, reset);
    if rc != 0 { return; }
    ghost var regsC := c.regs;
    rc, ih := SetFreq(c, HBM, h, reset);
    if rc != 0 { return; }
    ghost var regsH := c.regs;
    rc, released := c.Reset(false);
    if rc == 0 && !reset {
      AllSet(regsA, regsB, regsC, regsH, c.regs, c.st,
             RecipeOf(FreqTable(ia)), RecipeOf(FreqTable(ib)), RecipeOf(FreqTable(ic)), RecipeOf(FreqTable(ih)));
    }
  }

  /** aws_clkgen_deassert_resets */
  method DeassertResets(c: Clkgen) returns (rc: int, ghost released: bool)
    requires c.Valid()
    modifies c
    ensures c.Fine() && ResetsKept(c.log, false, released) && AllKept(old(c.regs), c.regs)
  {
    hide Safe, Asserted, ExpectedMask;
    released := false;
    KeptSelf(c.regs, A);
    rc := Prepare(c);
    if rc != 0 { return; }
    rc, released := c.Reset(false);
  }

  /** aws_clkgen_reset_toggle */
  method ResetToggle(c: Clkgen) returns (rc: int, ghost asserted: bool, ghost released: bool)
    requires c.Valid()
    modifies c
    ensures c.Fine() && ResetsKept(c.log, asserted, released) && AllKept(old(c.regs), c.regs)
    ensures rc == 0 ==> asserted
  {
    hide Safe, Asserted, ExpectedMask, AllKept;
    asserted, released := false, false;
    KeptSelf(c.regs, A);
    ghost var r;
    rc := Prepare(c);
    if rc != 0 { return; }
    rc, r := c.Reset(true);
    if rc != 0 { return; }
    asserted := true;
    ghost var before := c.regs;
    rc, released := c.Reset(false);
    AllKeptTwice(old(c.regs), before, c.regs);
  }

  /** aws_clkgen_get_dynamic: never writes, and reports what the registers hold. */
  method GetDynamic(c: Clkgen) returns (rc: int, a: seq<Clock>, b: seq<Clock>, cc: seq<Clock>, hbm: seq<Clock>)
    requires c.Valid()
    modifies c`log, c`st
    ensures c.Fine()
    ensures rc == 0 ==> forall g :: Of(c.st, g).any ==>
              |Pick(g, a, b, cc, hbm)| == NumClocks(g) &&
              forall i :: 0 <= i < NumClocks(g) ==> Pick(g, a, b, cc, hbm)[i] == ClockOf(c.regs, g, i)
  {
    hide Safe, Asserted, ExpectedMask, ClockOf;
    a, b, cc, hbm := [], [], [], [];
    rc := Prepare(c);
    if rc != 0 { return; }
    rc, a := GetFreq(c, A, 3);
    if rc != 0 { return; }
    rc, b := GetFreq(c, B, 2);
    if rc != 0 { return; }
    rc, cc := GetFreq(c, C, 2);
    if rc != 0 { return; }
    rc, hbm := GetFreq(c, HBM, 1);
  }
}
