/** Setting and reading frequencies, and the clock generator's API calls. */
module ClkgenUtils {
  import opened Bits
  import opened ClkgenMmcm
  import opened ClkgenDriver

  const CLKGEN_A_1_MAX: nat := 125
  const CLKGEN_B_0_MAX: nat := 450
  const CLKGEN_C_0_MAX: nat := 300
  const CLKGEN_HBM_MAX: nat := 450
  const ID_REG: nat := 0x58000
  const VER_REG: nat := 0x58004
  const BLD_REG: nat := 0x58008
  const CLKGEN_ID: u32 := 0x9048_1D0F
  const CLKGEN_VER: u32 := 0x0201_0000
  const CLKGEN_BLD: u32 := 0x0923_2223

  // ---- The frequency table ----------------------------------------------------------------------

  /** A label in MHz and the settings for it. */
  datatype Row = Row(freq: nat, mult: u32, div: u32, frac: u32, div0: u32, div0Frac: u32)

  const ROWS: nat := 42

  function FreqTable(i: nat): Row
    requires i < ROWS
  {
    match i
    case 0 => Row(87, 8, 1, 750, 10, 0)
    case 1 => Row(97, 9, 1, 750, 10, 0)
    case 2 => Row(100, 12, 1, 0, 12, 0)
    case 3 => Row(109, 10, 1, 875, 10, 0)
    case 4 => Row(125, 11, 1, 875, 9, 500)
    case 5 => Row(136, 13, 1, 625, 10, 0)
    case 6 => Row(150, 12, 1, 0, 8, 0)
    case 7 => Row(156, 15, 1, 625, 10, 0)
    case 8 => Row(166, 16, 1, 625, 10, 0)
    case 9 => Row(171, 17, 1, 125, 10, 0)
    case 10 => Row(177, 17, 1, 750, 10, 0)
    case 11 => Row(182, 18, 1, 250, 10, 0)
    case 12 => Row(187, 18, 1, 750, 10, 0)
    case 13 => Row(196, 19, 1, 625, 10, 0)
    case 14 => Row(200, 12, 1, 0, 6, 0)
    case 15 => Row(218, 21, 1, 750, 10, 0)
    case 16 => Row(227, 22, 1, 750, 10, 0)
    case 17 => Row(250, 11, 1, 875, 4, 750)
    case 18 => Row(265, 26, 2, 500, 5, 0)
    case 19 => Row(266, 8, 1, 0, 3, 0)
    case 20 => Row(273, 27, 2, 250, 5, 0)
    case 21 => Row(291, 29, 2, 0, 5, 0)
    case 22 => Row(300, 12, 1, 0, 4, 0)
    case 23 => Row(318, 31, 2, 750, 5, 0)
    case 24 => Row(333, 10, 1, 0, 3, 0)
    case 25 => Row(343, 34, 4, 250, 2, 500)
    case 26 => Row(364, 36, 4, 750, 2, 500)
    case 27 => Row(375, 37, 4, 500, 2, 500)
    case 28 => Row(400, 12, 1, 0, 3, 0)
    case 29 => Row(405, 20, 1, 250, 5, 0)
    case 30 => Row(410, 20, 1, 500, 5, 0)
    case 31 => Row(415, 20, 1, 750, 5, 0)
    case 32 => Row(420, 21, 1, 0, 5, 0)
    case 33 => Row(425, 21, 1, 250, 5, 0)
    case 34 => Row(430, 21, 1, 500, 5, 0)
    case 35 => Row(435, 21, 1, 750, 5, 0)
    case 36 => Row(437, 43, 4, 625, 2, 500)
    case 37 => Row(440, 22, 1, 0, 5, 0)
    case 38 => Row(445, 22, 1, 250, 5, 0)
    case 39 => Row(450, 11, 1, 250, 2, 500)
    case 40 => Row(458, 45, 4, 750, 2, 500)
    case _ => Row(500, 15, 1, 0, 3, 0)
  }

  const RECIPES_A: seq<Recipe> := [
    Recipe(15, 0, 1, 24, 0, 8, 6),
    Recipe(15, 0, 1, 12, 0, 4, 3),
    Recipe(12, 500, 1, 80, 0, 10, 20)
  ]

  const RECIPES_B: seq<Recipe> := [
    Recipe(12, 500, 1, 5, 0, 10, 1),
    Recipe(11, 875, 1, 9, 500, 19, 1),
    Recipe(11, 250, 1, 2, 500, 5, 1),
    Recipe(11, 875, 1, 4, 750, 19, 1),
    Recipe(12, 0, 1, 4, 0, 16, 1),
    Recipe(12, 0, 1, 3, 0, 12, 1)
  ]

  const RECIPES_C: seq<Recipe> := [
    Recipe(12, 0, 1, 4, 0, 3, 1),
    Recipe(12, 0, 1, 8, 0, 6, 1),
    Recipe(12, 0, 1, 16, 0, 12, 1),
    Recipe(8, 0, 1, 4, 0, 3, 1)
  ]

  const RECIPES_HBM: seq<Recipe> := [
    Recipe(12, 500, 1, 5, 0, 1, 1),
    Recipe(11, 875, 1, 9, 500, 1, 1),
    Recipe(11, 250, 1, 2, 500, 1, 1),
    Recipe(12, 0, 1, 4, 0, 1, 1),
    Recipe(12, 0, 1, 3, 0, 1, 1)
  ]

  /** The exact frequency of a row in MHz is Num / Den. */
  function Num(r: Row): nat { 100 * (1000 * r.mult + r.frac) }
  function Den(r: Row): nat { r.div * (1000 * r.div0 + r.div0Frac) }

  /** Fits the register fields, and lies within 3.5 MHz of its label. */
  predicate RowFine(r: Row) {
    && 1 <= r.mult < 256 && r.frac < 1024 && 1 <= r.div < 256 && 1 <= r.div0 < 256 && r.div0Frac < 1024
    && 2 * Num(r) <= (2 * r.freq + 7) * Den(r) && (2 * r.freq - 7) * Den(r) <= 2 * Num(r)
  }

  /** The next row has a larger label and no smaller frequency. */
  predicate StepFine(r: Row, s: Row) {
    r.freq < s.freq && Num(r) * Den(s) <= Num(s) * Den(r)
  }

  lemma TableFine(i: nat)
    requires i < ROWS
    ensures RowFine(FreqTable(i))
  {
    hide FreqTable, RowFine;
    if i < 14 { LowRows(i); } else if i < 28 { MiddleRows(i); } else { HighRows(i); }
  }

  lemma LowRows(i: nat)
    requires i < 14
    ensures RowFine(FreqTable(i))
  {
  }

  lemma MiddleRows(i: nat)
    requires 14 <= i < 28
    ensures RowFine(FreqTable(i))
  {
  }

  lemma HighRows(i: nat)
    requires 28 <= i < ROWS
    ensures RowFine(FreqTable(i))
  {
  }

  lemma StepsFine(i: nat)
    requires i + 1 < ROWS
    ensures StepFine(FreqTable(i), FreqTable(i + 1))
  {
  }

  lemma {:induction false} Ascending(i: nat, j: nat)
    requires i <= j < ROWS
    ensures FreqTable(i).freq <= FreqTable(j).freq && (i < j ==> FreqTable(i).freq < FreqTable(j).freq)
    decreases j
  {
    hide FreqTable;
    if i < j {
      StepsFine(j - 1);
      Ascending(i, j - 1);
    }
  }

  // ---- Frequencies ------------------------------------------------------------------------------

  /** What the code computes from the settings: the 100 MHz reference, times the shared
      multiplier, by the shared divider, by the clock's own. */
  function Mhz(mult: nat, frac: nat, div: nat, d: nat, dFrac: nat): real
    requires div > 0 && d + dFrac > 0
  {
    100.0 * (mult as real + frac as real / 1000.0) / div as real / (d as real + dFrac as real / 1000.0)
  }

  function RowMhz(r: Row): real
    requires RowFine(r)
  {
    Mhz(r.mult, r.frac, r.div, r.div0, r.div0Frac)
  }

  lemma RowMhzIs(r: Row)
    requires RowFine(r)
    ensures Den(r) > 0 && RowMhz(r) == Num(r) as real / Den(r) as real
  {
  }

  lemma RatioBelow(n: nat, d: nat, a: int)
    requires d > 0 && 2 * n <= a * d
    ensures n as real / d as real <= a as real / 2.0
  {
  }

  lemma RatioAbove(n: nat, d: nat, a: int)
    requires d > 0 && a * d <= 2 * n
    ensures a as real / 2.0 <= n as real / d as real
  {
  }

  lemma RatioOrder(n: nat, d: nat, m: nat, e: nat)
    requires d > 0 && e > 0 && n * e <= m * d
    ensures n as real / d as real <= m as real / e as real
  {
  }

  /** Every row yields a frequency within 3.5 MHz of its label. */
  lemma NearLabel(i: nat)
    requires i < ROWS
    ensures RowFine(FreqTable(i))
    ensures var r := FreqTable(i); r.freq as real - 3.5 <= RowMhz(r) <= r.freq as real + 3.5
  {
    hide FreqTable, Num, Den, RowMhz;
    TableFine(i);
    var r := FreqTable(i);
    RowMhzIs(r);
    RatioBelow(Num(r), Den(r), 2 * r.freq + 7);
    RatioAbove(Num(r), Den(r), 2 * r.freq - 7);
  }

  lemma {:induction false} RowsMonotone(i: nat, j: nat)
    requires i <= j < ROWS
    ensures RowFine(FreqTable(i)) && RowFine(FreqTable(j))
    ensures RowMhz(FreqTable(i)) <= RowMhz(FreqTable(j))
    decreases j
  {
    hide FreqTable, Num, Den, RowMhz, Mhz;
    TableFine(i);
    TableFine(j);
    if i < j {
      RowsMonotone(i, j - 1);
      TableFine(j - 1);
      StepsFine(j - 1);
      var r, s := FreqTable(j - 1), FreqTable(j);
      RowMhzIs(r);
      RowMhzIs(s);
      RatioOrder(Num(r), Den(r), Num(s), Den(s));
    }
  }

  // ---- Choosing a row -----------------------------------------------------------------------------

  /** Row i is the one with the greatest label that is not above the request. */
  predicate Chosen(i: nat, req: nat) {
    i < ROWS && FreqTable(i).freq <= req && forall j :: i < j < ROWS ==> FreqTable(j).freq > req
  }

  lemma LowestLabel()
    ensures FreqTable(0).freq == 87
  {
  }

  /** There is one choice only, and it does not fall as the request rises. */
  lemma ChoiceMonotone(i: nat, req: nat, i': nat, req': nat)
    requires Chosen(i, req) && Chosen(i', req') && req <= req'
    ensures i <= i' && (req == req' ==> i == i')
    ensures RowFine(FreqTable(i)) && RowFine(FreqTable(i'))
    ensures RowMhz(FreqTable(i)) <= RowMhz(FreqTable(i'))
  {
    hide FreqTable, RowMhz;
    RowsMonotone(i, i');
  }

  /** The loop of aws_clkgen_set_freq, from the top of the table down. */
  method FindRow(req: nat) returns (idx: nat)
    ensures idx < ROWS && (req >= 87 ==> Chosen(idx, req))
  {
    hide FreqTable;
    idx := 0;
    var i := ROWS - 1;
    while i >= 0
      invariant -1 <= i < ROWS && idx == 0
      invariant forall j :: i < j < ROWS ==> FreqTable(j).freq > req
    {
      if FreqTable(i).freq <= req {
        idx := i;
        break;
      }
      i := i - 1;
    }
    LowestLabel();
  }

  function RecipeOf(r: Row): Recipe { Recipe(r.mult, r.frac, r.div, r.div0, r.div0Frac, 0xF, 0xF) }

  // ---- Reading back ----------------------------------------------------------------------------------

  /** A frequency as the library reports it; dividing by a zero field gives no number. */
  datatype Clock = Rate(mhz: real) | Undefined

  /** What the shared and the own register of clock i stand for. */
  function Decoded(main: u32, own: u32, i: nat): Clock {
    if DivOf(main) == 0 || DivOf(own) + ClkFracOf(i, own) == 0 then Undefined
    else Rate(Mhz(MultOf(main), FracOf(main), DivOf(main), DivOf(own), ClkFracOf(i, own)))
  }

  function ClockOf(regs: map<nat, u32>, g: Group, i: nat): Clock {
    Decoded(Reg(regs, MainReg(g)), Reg(regs, ClkReg(g, i)), i)
  }

  /** Settings that survive the register fields for clock i. */
  predicate Fits(r: Recipe, i: nat) {
    && 1 <= r.mult < 0x100 && r.frac < 0x400 && 1 <= r.div < 0x100
    && 1 <= Div(r, i) < 0x100 && DivFrac(r, i) < 0x400
  }

  /** Set and get: a programmed clock reads back at exactly its recipe's frequency, though
      the fraction fields are written with 12 bits and read with 10. */
  lemma ReadsBack(regs: map<nat, u32>, g: Group, s: GroupState, r: Recipe, i: nat)
    requires |s.avail| == NumClocks(g) && Programmed(regs, g, s, r) && i < NumClocks(g) && s.avail[i] && Fits(r, i)
    ensures ClockOf(regs, g, i) == Rate(Mhz(r.mult, r.frac, r.div, Div(r, i), DivFrac(r, i)))
  {
    hide MainCfg, ClkCfg, MultOf, FracOf, DivOf, ClkFracOf, Mhz;
    MainCfgRoundTrip(r.mult, r.frac, r.div);
    ClkCfgRoundTrip(i, Div(r, i), DivFrac(r, i));
  }

  /** Every predefined recipe survives the register fields, for every clock. */
  lemma RecipesFit(r: Recipe, i: nat)
    requires r in RECIPES_A || r in RECIPES_B || r in RECIPES_C || r in RECIPES_HBM
    ensures Fits(r, i)
  {
  }

  /** For an accepted request: clock 0 then runs at the exact frequency of the row chosen,
      which is within 3.5 MHz of its label. */
  lemma SetGet(regs: map<nat, u32>, g: Group, s: GroupState, req: nat, idx: nat)
    requires |s.avail| == NumClocks(g) && s.avail[0] && Chosen(idx, req) && Programmed(regs, g, s, RecipeOf(FreqTable(idx)))
    ensures RowFine(FreqTable(idx)) && ClockOf(regs, g, 0) == Rate(RowMhz(FreqTable(idx)))
    ensures ClockOf(regs, g, 0).mhz <= req as real + 3.5
  {
    hide FreqTable, Mhz, Programmed;
    NearLabel(idx);
    ReadsBack(regs, g, s, RecipeOf(FreqTable(idx)), 0);
  }

  /** aws_clkgen_set_freq */
  method SetFreq(c: Clkgen, g: Group, req: nat, reset: bool) returns (rc: int, ghost idx: nat)
    requires c.Fine() && Asserted(c.log)
    modifies c`log, c`regs
    ensures c.Fine() && Asserted(c.log) && OthersKept(old(c.regs), c.regs, g) && idx < ROWS
    ensures !reset && req < 87 ==> rc == FPGA_ERR_INVALID_CLKGEN_INPUTS && c.regs == old(c.regs)
    ensures rc == 0 && !reset && Of(c.st, g).any ==> Chosen(idx, req) && Programmed(c.regs, g, Of(c.st, g), RecipeOf(FreqTable(idx)))
  {
    hide FreqTable, Programmed, Chosen, Safe, Asserted, ExpectedMask;
    LowestLabel();
    KeptSelf(c.regs, g);
    idx := 0;
    if !reset && req < FreqTable(0).freq { return FPGA_ERR_INVALID_CLKGEN_INPUTS, idx; }
    var recipe := Recipe(0, 0, 0, 0, 0, 0, 0);
    if !reset {
      var i := FindRow(req);
      recipe := RecipeOf(FreqTable(i));
      idx := i;
    }
    rc := c.SetMmcm(g, recipe, reset);
  }

  /** aws_clkgen_get_freq */
  method GetFreq(c: Clkgen, g: Group, numClocks: nat) returns (rc: int, clocks: seq<Clock>)
    requires c.Fine()
    modifies c`log
    ensures c.Fine() && Asserted(c.log) == Asserted(old(c.log))
    ensures numClocks < 1 || numClocks > 3 ==> rc == FPGA_ERR_SOFTWARE_PROBLEM
    ensures rc == 0 && Of(c.st, g).any ==>
              numClocks <= NumClocks(g) && |clocks| == numClocks && forall i :: 0 <= i < numClocks ==> clocks[i] == ClockOf(c.regs, g, i)
    ensures rc == 0 && !Of(c.st, g).any ==> clocks == []
  {
    hide Safe, Asserted, ExpectedMask, Decoded, Reg, MainReg, ClkReg, IsConfig, NumClocks, Of, AllGroups;
    clocks := [];
    if numClocks < 1 || numClocks > 3 { return FPGA_ERR_SOFTWARE_PROBLEM, clocks; }
    if !Of(c.st, g).any { return 0, clocks; }
    var main;
    ConfigRegs(g);
    rc, main := c.Peek(MainReg(g));
    if rc != 0 { return; }
    var i := 0;
    while i < numClocks
      invariant 0 <= i <= numClocks && |clocks| == i && c.Fine() && Asserted(c.log) == Asserted(old(c.log)) && rc == 0
      invariant i > 0 ==> i <= NumClocks(g)
      invariant forall k :: 0 <= k < i ==> clocks[k] == ClockOf(c.regs, g, k)
    {
      if i >= NumClocks(g) { return FPGA_ERR_SOFTWARE_PROBLEM, clocks; }
      var own;
      rc, own := c.Peek(ClkReg(g, i));
      if rc != 0 { return; }
      clocks := clocks + [Decoded(main, own, i)];
      i := i + 1;
    }
  }

  lemma ConfigRegs(g: Group)
    ensures IsConfig(MainReg(g)) && forall i :: 0 <= i < 3 ==> IsConfig(ClkReg(g, i))
  {
  }
}
