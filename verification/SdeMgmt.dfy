/** The sde_mgmt object of one slot: the calls an application makes, with the card
    acting between any two accesses to what they share. */
module SdeMgmt {
  import opened Bits
  import opened SdeDesc
  import opened SdeCard
  import opened SdeDmaBuffer
  import opened SdeRun
  import opened SdeLoopback
  import opened SdeProgress
  import opened SdeRead
  import opened SdeStart
  import opened SdeWrite
  import opened Modular

  const DESC_WAIT_MAX_ITERS: nat := 1000000
  const SDE_STATUS_COUNTER_ERROR := 0x1002
  const SDE_DESC_LIMIT_TIMEOUT := 0x1003
  const SDE_METADATA_VALID_TIMEOUT := 0x1004
  const MAX_PKT_SIZE: nat := 0x200000

  /** Packets, and so descriptors, that size bytes take: the quotient rounded up. */
  function CeilDiv(size: nat, pktSize: nat): nat
    requires pktSize > 0
  {
    QuotientNonNeg(size + pktSize - 1, pktSize);
    (size + pktSize - 1) / pktSize
  }

  lemma CeilIsUsed(L: nat, size: nat)
    requires L > 0 && size > 0
    ensures CeilDiv(size, L) == BuffersUsed(L, size)
  {
    BuffersUsedIs(L, size);
  }

  lemma ZeroIndex()
    ensures Slot(0) == 0 && Wrap32(0) == 0
  {
  }

  lemma QuotientNonNeg(x: nat, n: nat)
    requires n > 0
    ensures x / n >= 0
  {
  }

  lemma LowBits(x: u32)
    ensures Bit(x, 0) == (x % 2 != 0) && Bit(x, 1) == (x / 2 % 2 != 0) && Bit(x, 2) == (x / 4 % 2 != 0)
  {
    assert Bit(x, 1) == Bit(x / 2, 0) && Bit(x, 2) == Bit(x / 2, 1) == Bit(x / 2 / 2, 0);
    assert x / 2 / 2 == x / 4;
  }

  class SdeMgmt {
    const card: Card
    const h2cBuf: DmaBuffer
    const c2hBuf: DmaBuffer
    var initialized: bool
    var c2hDescConsumed: u32
    var h2cDescConsumed: u32
    var mdReadIndex: nat
    ghost var c2hTotal: nat     // descriptors ever charged, without wrap-around
    ghost var h2cTotal: nat
    ghost var base: nat         // number of the first packet of the transfer under way
    ghost var pkts: seq<Bytes>  // ... and its packets

    constructor (card: Card)
      ensures this.card == card && !initialized && Wired()
      ensures fresh(h2cBuf) && fresh(c2hBuf)
    {
      this.card := card;
      h2cBuf := new DmaBuffer(H2C, card);
      c2hBuf := new DmaBuffer(C2H, card);
      initialized := false;
      c2hDescConsumed, h2cDescConsumed, mdReadIndex := 0, 0, 0;
      c2hTotal, h2cTotal := 0, 0;
      base, pkts := 0, [];
    }

    ghost predicate Wired() {
      && h2cBuf.card == card && c2hBuf.card == card && h2cBuf != c2hBuf
      && h2cBuf.sub == H2C && c2hBuf.sub == C2H
    }

    ghost function Vw(): View
      reads h2cBuf, c2hBuf
    {
      View(h2cBuf.descs, c2hBuf.descs, h2cBuf.buffers, c2hBuf.buffers)
    }

    /** Both channels in MULTI layout with buffers of one packet size. */
    ghost predicate Layout()
      reads h2cBuf, c2hBuf
    {
      && h2cBuf.numDesc == c2hBuf.numDesc == h2cBuf.numBuffers == c2hBuf.numBuffers == SDE_NUM_DESC
      && h2cBuf.pktSize == c2hBuf.pktSize
      && Uniform(h2cBuf.buffers, h2cBuf.pktSize) && Uniform(c2hBuf.buffers, c2hBuf.pktSize)
    }

    /** Holds in every state of every run of the calls below, failing ones included. */
    ghost predicate Valid()
      reads this, card, h2cBuf, c2hBuf
    {
      && Wired() && h2cBuf.Valid() && c2hBuf.Valid() && Layout()
      && Inv(Vw(), card.s, h2cTotal, c2hTotal, false)
      && h2cDescConsumed == Wrap32(h2cTotal) && c2hDescConsumed == Wrap32(c2hTotal)
      && mdReadIndex == Slot(card.s.mdRead)
      && c2hBuf.currentBufferIndex == Slot(card.s.bufRead)
    }

    /** A slot is either not initialised or in a valid state. */
    ghost predicate Ok()
      reads this, card, h2cBuf, c2hBuf
    {
      initialized ==> Valid()
    }

    ghost function Total(sub: Subsystem): nat
      reads this
    {
      if sub.C2H? then c2hTotal else h2cTotal
    }

    /** The credit theorem at the level of the object: no descriptor RAM ever holds
        more than 64 descriptors, and none was lost to overflow. */
    lemma RamSafe(sub: Subsystem)
      requires Valid()
      ensures var ch := ChanOf(card.s, sub);
              && 0 <= Whole(sub, ch.stream) - ch.popped <= RAM_DEPTH
              && Whole(sub, ch.stream) <= Total(sub) <= ch.limit <= RAM_DEPTH + ch.popped
              && !ch.oflow
    {
    }

    lemma Unfold()
      requires Valid()
      ensures h2cBuf.Valid() && c2hBuf.Valid() && Layout() && Wired()
      ensures h2cBuf.numDesc == c2hBuf.numDesc == SDE_NUM_DESC
      ensures h2cBuf.card == card && c2hBuf.card == card && h2cBuf.sub == H2C && c2hBuf.sub == C2H
      ensures Ring(H2C, h2cBuf.descs) && Ring(C2H, c2hBuf.descs)
      ensures Inv(Vw(), card.s, h2cTotal, c2hTotal, false)
      ensures h2cDescConsumed == Wrap32(h2cTotal) && c2hDescConsumed == Wrap32(c2hTotal)
      ensures mdReadIndex == Slot(card.s.mdRead) && c2hBuf.currentBufferIndex == Slot(card.s.bufRead)
    {
    }

    lemma Fold()
      requires Wired() && h2cBuf.Valid() && c2hBuf.Valid() && Layout()
      requires Inv(Vw(), card.s, h2cTotal, c2hTotal, false)
      requires h2cDescConsumed == Wrap32(h2cTotal) && c2hDescConsumed == Wrap32(c2hTotal)
      requires mdReadIndex == Slot(card.s.mdRead) && c2hBuf.currentBufferIndex == Slot(card.s.bufRead)
      ensures Valid()
    {
    }

    lemma ValidParts()
      requires Valid()
      ensures h2cBuf.pktSize > 0 && c2hBuf.pktSize > 0
      ensures Ring(H2C, h2cBuf.descs) && Ring(C2H, c2hBuf.descs)
    {
    }

    lemma IndexBound()
      requires Valid()
      ensures h2cBuf.currentBufferIndex < 64 == |h2cBuf.buffers|
    {
    }

    lemma BuffersUniform()
      requires Valid()
      ensures Uniform(c2hBuf.buffers, c2hBuf.pktSize) && Uniform(h2cBuf.buffers, c2hBuf.pktSize)
    {
      hide Inv;
    }

    /** sde_mgmt_init for loopback: everything is zero, then the DMA memory and the card
        are attached; the addresses are those the allocator hands out. */
    method Init(pktSize: nat, h2cAddrs: seq<u64>, c2hAddrs: seq<u64>) returns (ret: int)
      requires Wired() && DistinctAddrs(h2cAddrs, c2hAddrs)
      modifies this, card, h2cBuf, c2hBuf
      ensures initialized <==> ret == 0
      ensures pktSize == 0 || pktSize > MAX_PKT_SIZE ==> ret != 0
      ensures ret == 0 ==> c2hDescConsumed == h2cDescConsumed == 0 && mdReadIndex == 0 && c2hTotal == h2cTotal == base == 0 && pkts == []
      ensures ret == 0 ==> h2cBuf.pktSize == c2hBuf.pktSize == pktSize && h2cBuf.numDesc == c2hBuf.numDesc == SDE_NUM_DESC
      ensures ret == 0 ==> BuffersAt(h2cBuf, h2cAddrs, pktSize) && BuffersAt(c2hBuf, c2hAddrs, pktSize)
      ensures ret == 0 ==> MemOk(Vw(), card.s.mem) && |card.s.md| == NUM_MD && forall i :: 0 <= i < NUM_MD ==> !IsValid(card.s.md[i])
    {
      initialized, c2hDescConsumed, h2cDescConsumed, mdReadIndex := false, 0, 0, 0;
      c2hTotal, h2cTotal, base, pkts := 0, 0, 0, [];
      if pktSize > MAX_PKT_SIZE { return FPGA_ERR_SOFTWARE_PROBLEM; }
      // Mapping the DMA memory or attaching the BARs may fail; mapping 0 bytes does.
      var code: int := *;
      if pktSize == 0 || code != 0 { return if code == 0 then -1 else code; }
      c2hBuf.Init(pktSize, c2hAddrs);
      h2cBuf.Init(pktSize, h2cAddrs);
      ZerosIn(h2cBuf, h2cAddrs, h2cAddrs + c2hAddrs, pktSize);
      ZerosIn(c2hBuf, c2hAddrs, h2cAddrs + c2hAddrs, pktSize);
      card.s := card.s.(mem := ZeroBuffers(h2cAddrs + c2hAddrs, pktSize), md := seq(NUM_MD, i => Md(0, 0, 0)));
      initialized := true;
      ret := 0;
    }

    /** sde_mgmt_reset: reset the card and put the status words and the metadata index
        back; the consumed counters stay. */
    method Reset() returns (ret: int)
      modifies card, this`mdReadIndex
      ensures !initialized ==> ret == FPGA_ERR_SOFTWARE_PROBLEM
      ensures ret != 0 ==> card.s == old(card.s) && mdReadIndex == old(mdReadIndex)
      ensures ret == 0 ==> card.s == AfterReset(old(card.s)) && mdReadIndex == 0
    {
      if !initialized { return FPGA_ERR_SOFTWARE_PROBLEM; }
      ret := *;
      if ret != 0 { return; }
      card.s := AfterReset(card.s);
      mdReadIndex := 0;
    }

    /** sde_mgmt_cfg for loopback: the card's registers, then both descriptor rings. */
    method Cfg() returns (ret: int)
      requires Wired() && h2cBuf.numBuffers == |h2cBuf.buffers| && c2hBuf.numBuffers == |c2hBuf.buffers|
      modifies card, h2cBuf, c2hBuf
      ensures !initialized ==> ret == FPGA_ERR_SOFTWARE_PROBLEM
      ensures ret == 0 ==> card.s == old(card.s).(loopback := true) && RingSet(h2cBuf) && RingSet(c2hBuf)
      ensures h2cBuf.buffers == old(h2cBuf.buffers) && c2hBuf.buffers == old(c2hBuf.buffers)
      ensures h2cBuf.numBuffers == old(h2cBuf.numBuffers) && c2hBuf.numBuffers == old(c2hBuf.numBuffers)
      ensures h2cBuf.numDesc == old(h2cBuf.numDesc) && c2hBuf.numDesc == old(c2hBuf.numDesc)
      ensures h2cBuf.pktSize == old(h2cBuf.pktSize) && c2hBuf.pktSize == old(c2hBuf.pktSize)
    {
      if !initialized { return FPGA_ERR_SOFTWARE_PROBLEM; }
      ret := *;
      if ret != 0 { return; }
      card.s := card.s.(loopback := true);
      ret := c2hBuf.InitDescBuffer();
      if ret != 0 { return; }
      ret := h2cBuf.InitDescBuffer();
    }

    /** sde_mgmt_init_and_cfg: a run starts out valid and quiet. */
    method InitAndCfg(pktSize: nat, h2cAddrs: seq<u64>, c2hAddrs: seq<u64>) returns (ret: int)
      requires Wired() && DistinctAddrs(h2cAddrs, c2hAddrs)
      modifies this, card, h2cBuf, c2hBuf
      ensures pktSize == 0 || pktSize > MAX_PKT_SIZE ==> ret != 0
      ensures ret == 0 ==> initialized && Moving() && base == 0 && pkts == [] && h2cBuf.pktSize == pktSize
      ensures ret == 0 ==> h2cTotal == c2hTotal == 0 && card.s.mdRead == card.s.bufRead == 0
      ensures ret == 0 ==> card.s.h2c.stream == card.s.c2h.stream == []
      ensures ret == 0 ==> h2cBuf.currentBufferIndex == h2cBuf.currDescIndexToPost == c2hBuf.currDescIndexToPost == 0
    {
      ret := Init(pktSize, h2cAddrs, c2hAddrs);
      if ret != 0 { return; }
      ret := Reset();
      if ret != 0 { return; }
      ret := Cfg();
      if ret != 0 { return; }
      hide Inv, Multi, MemOk, Transfer, Slot, Wrap32, BuffersAt, RingSet, DmaBuffer.Valid, Uniform;
      MultiBegins(h2cBuf, c2hBuf, h2cAddrs, c2hAddrs, pktSize);
      RunBegins(Vw(), card.s);
      ZeroIndex();
      Fold();
    }

    /** sde_mgmt_wait_desc_credit */
    method WaitDescCredit(sub: Subsystem, numDesc: nat) returns (ret: int)
      requires Ok()
      modifies card
      ensures Ok() && Reaches(old(card.s), card.s)
      ensures !initialized || numDesc > SDE_NUM_DESC ==> ret == FPGA_ERR_SOFTWARE_PROBLEM && card.s == old(card.s)
      ensures initialized && numDesc <= SDE_NUM_DESC ==>
                ret == if Total(sub) + numDesc <= ChanOf(card.s, sub).limit then 0 else SDE_DESC_LIMIT_TIMEOUT
    {
      hide Reaches, Multi, Order, Grows;
      ReachesSelf(card.s);
      if !initialized { return FPGA_ERR_SOFTWARE_PROBLEM; }
      if numDesc > SDE_NUM_DESC { return FPGA_ERR_SOFTWARE_PROBLEM; }
      ghost var a := card.s;
      var consumed := if sub.C2H? then c2hDescConsumed else h2cDescConsumed;
      var credits: nat := 0;
      var iters := 0;
      while iters == 0 || (credits < numDesc && iters < DESC_WAIT_MAX_ITERS)
        invariant 0 <= iters <= DESC_WAIT_MAX_ITERS
        invariant Valid() && Reaches(a, card.s)
        invariant iters > 0 ==> Total(sub) + credits == ChanOf(card.s, sub).limit
        decreases DESC_WAIT_MAX_ITERS - iters
      {
        ghost var b := card.s;
        card.Run();
        ReachesTwice(a, b, card.s);
        KeepInv(Vw(), b, card.s, h2cTotal, c2hTotal, false);
        GrowsCounters(b, card.s);
        var descLimit := Wrap32(ChanOf(card.s, sub).limit);
        credits := Credits(descLimit, consumed);
        InvCredit(Vw(), card.s, h2cTotal, c2hTotal, sub);
        CreditsExact(sub, ChanOf(card.s, sub), Total(sub));
        iters := iters + 1;
      }
      ret := if credits < numDesc then SDE_DESC_LIMIT_TIMEOUT else 0;
    }

    /** sde_mgmt_post_desc, written out for either channel. It charges the whole request
        even when a poke failed part way, and does no credit check of its own: the
        object stays valid whenever the caller has the credit. */
    method PostC2h(numDesc: nat) returns (ret: int, ghost done: nat)
      requires Ok()
      modifies this`c2hDescConsumed, this`c2hTotal, card, c2hBuf`currDescIndexToPost
      ensures !initialized || numDesc > SDE_NUM_DESC ==>
                ret == FPGA_ERR_SOFTWARE_PROBLEM && card.s == old(card.s) && unchanged(this) && unchanged(c2hBuf)
      ensures initialized && numDesc <= SDE_NUM_DESC ==>
                && c2hTotal == old(c2hTotal) + numDesc
                && PostOutcome(old(card.s), card.s, C2H, c2hBuf.descs, old(c2hBuf.currDescIndexToPost), numDesc, ret, done)
      ensures initialized && numDesc <= SDE_NUM_DESC && ret == 0 ==>
                c2hBuf.currDescIndexToPost == RingAdd(old(c2hBuf.currDescIndexToPost), numDesc, SDE_NUM_DESC)
      ensures initialized && old(c2hTotal + numDesc <= card.s.c2h.limit) ==> Valid()
    {
      done := 0;
      if !initialized { return FPGA_ERR_SOFTWARE_PROBLEM, done; }
      if numDesc > SDE_NUM_DESC { return FPGA_ERR_SOFTWARE_PROBLEM, done; }
      ret, done := ChargeC2h(numDesc);
    }

    method ChargeC2h(numDesc: nat) returns (ret: int, ghost done: nat)
      requires Valid()
      modifies this`c2hDescConsumed, this`c2hTotal, card, c2hBuf`currDescIndexToPost
      ensures c2hTotal == old(c2hTotal) + numDesc && Ring(C2H, c2hBuf.descs)
      ensures PostOutcome(old(card.s), card.s, C2H, c2hBuf.descs, old(c2hBuf.currDescIndexToPost), numDesc, ret, done)
      ensures ret == 0 ==> c2hBuf.currDescIndexToPost == RingAdd(old(c2hBuf.currDescIndexToPost), numDesc, SDE_NUM_DESC)
      ensures old(c2hTotal + numDesc <= card.s.c2h.limit) ==> Valid()
    {
      hide Valid, Uniform, DmaBuffer.Valid, PostOutcome, Inv, RingAdd, Add32, Wrap32, Ring;
      Unfold();
      ghost var v, a, hb, cb := Vw(), card.s, h2cTotal, c2hTotal;
      ghost var idx := c2hBuf.currDescIndexToPost;
      ret, done := c2hBuf.PostDesc(numDesc);
      c2hDescConsumed := Add32(c2hDescConsumed, numDesc);
      c2hTotal := c2hTotal + numDesc;
      if cb + numDesc <= a.c2h.limit {
        OutcomeKeeps(v, a, card.s, C2H, c2hBuf.descs, idx, numDesc, ret, done, hb, cb);
        WrapAdd(cb, numDesc);
        Fold();
      }
    }

    method PostH2c(numDesc: nat) returns (ret: int, ghost done: nat)
      requires Ok()
      modifies this`h2cDescConsumed, this`h2cTotal, card, h2cBuf`currDescIndexToPost
      ensures !initialized || numDesc > SDE_NUM_DESC ==>
                ret == FPGA_ERR_SOFTWARE_PROBLEM && card.s == old(card.s) && unchanged(this) && unchanged(h2cBuf)
      ensures initialized && numDesc <= SDE_NUM_DESC ==>
                && h2cTotal == old(h2cTotal) + numDesc
                && PostOutcome(old(card.s), card.s, H2C, h2cBuf.descs, old(h2cBuf.currDescIndexToPost), numDesc, ret, done)
      ensures initialized && numDesc <= SDE_NUM_DESC && ret == 0 ==>
                h2cBuf.currDescIndexToPost == RingAdd(old(h2cBuf.currDescIndexToPost), numDesc, SDE_NUM_DESC)
      ensures initialized && old(h2cTotal + numDesc <= card.s.h2c.limit) ==> Valid()
    {
      done := 0;
      if !initialized { return FPGA_ERR_SOFTWARE_PROBLEM, done; }
      if numDesc > SDE_NUM_DESC { return FPGA_ERR_SOFTWARE_PROBLEM, done; }
      ret, done := ChargeH2c(numDesc);
    }

    method ChargeH2c(numDesc: nat) returns (ret: int, ghost done: nat)
      requires Valid()
      modifies this`h2cDescConsumed, this`h2cTotal, card, h2cBuf`currDescIndexToPost
      ensures h2cTotal == old(h2cTotal) + numDesc && Ring(H2C, h2cBuf.descs)
      ensures PostOutcome(old(card.s), card.s, H2C, h2cBuf.descs, old(h2cBuf.currDescIndexToPost), numDesc, ret, done)
      ensures ret == 0 ==> h2cBuf.currDescIndexToPost == RingAdd(old(h2cBuf.currDescIndexToPost), numDesc, SDE_NUM_DESC)
      ensures old(h2cTotal + numDesc <= card.s.h2c.limit) ==> Valid()
    {
      hide Valid, Uniform, DmaBuffer.Valid, PostOutcome, Inv, RingAdd, Add32, Wrap32, Ring;
      Unfold();
      ghost var v, a, hb, cb := Vw(), card.s, h2cTotal, c2hTotal;
      ghost var idx := h2cBuf.currDescIndexToPost;
      ret, done := h2cBuf.PostDesc(numDesc);
      h2cDescConsumed := Add32(h2cDescConsumed, numDesc);
      h2cTotal := h2cTotal + numDesc;
      if hb + numDesc <= a.h2c.limit {
        OutcomeKeeps(v, a, card.s, H2C, h2cBuf.descs, idx, numDesc, ret, done, hb, cb);
        WrapAdd(hb, numDesc);
        Fold();
      }
    }

    /** sde_mgmt_check_status: reads the status word the card wrote back last, whatever that
        is, and fails if and only if one of its three error bits is set. */
    method CheckStatus() returns (ret: int, status: u32)
      requires Ok()
      modifies card
      ensures Ok()
      ensures !initialized ==> ret == FPGA_ERR_SOFTWARE_PROBLEM && card.s == old(card.s)
      ensures initialized ==>
                && Reaches(old(card.s), card.s) && ret in {0, SDE_STATUS_COUNTER_ERROR}
                && (ret == 0 <==> !Bit(status, 0) && !Bit(status, 1) && !Bit(status, 2))
    {
      status := 0;
      if !initialized { return FPGA_ERR_SOFTWARE_PROBLEM, status; }
      hide Valid, Uniform, DmaBuffer.Valid, Inv, Reaches;
      Unfold();
      ghost var a := card.s;
      card.Run();
      KeepInv(Vw(), a, card.s, h2cTotal, c2hTotal, false);
      GrowsCounters(a, card.s);
      Fold();
      status := *;
      var descError, dmError, wbError := status % 2 != 0, status / 2 % 2 != 0, status / 4 % 2 != 0;
      LowBits(status);
      ret := if descError || dmError || wbError then SDE_STATUS_COUNTER_ERROR else 0;
    }

    /** sde_mgmt_start_read: post a C2H descriptor for each packet, once there is credit
        for all of them. */
    method StartRead(size: nat) returns (ret: int)
      requires Ok()
      modifies this`c2hDescConsumed, this`c2hTotal, card, c2hBuf`currDescIndexToPost
      ensures Ok()
      ensures !initialized ==> ret == FPGA_ERR_SOFTWARE_PROBLEM && card.s == old(card.s)
      ensures initialized && size == 0 ==> ret == 0 && card.s == old(card.s) && unchanged(this) && unchanged(c2hBuf)
      ensures ret == 0 && size > 0 ==>
                var n := CeilDiv(size, c2hBuf.pktSize);
                && n <= SDE_NUM_DESC && c2hTotal == old(c2hTotal) + n
                && c2hBuf.currDescIndexToPost == RingAdd(old(c2hBuf.currDescIndexToPost), n, SDE_NUM_DESC)
                && PostedWithCredit(old(card.s), card.s, C2H, RingDwords(C2H, c2hBuf.descs, old(c2hBuf.currDescIndexToPost), n), c2hTotal)
    {
      if !initialized { return FPGA_ERR_SOFTWARE_PROBLEM; }
      if size == 0 { return 0; }
      hide Posted, PostedPart, RingDwords, Reaches, CeilDiv, Valid, RingAdd;
      ValidParts();
      var numDesc := CeilDiv(size, c2hBuf.pktSize);
      ghost var done;
      ret := WaitDescCredit(C2H, numDesc);
      if ret != 0 { return; }
      ghost var a := card.s;
      ret, done := PostC2h(numDesc);
    }

    /** sde_mgmt_write: the same on the H2C side; a size of 0 is refused. */
    method Write(size: nat) returns (ret: int)
      requires Ok()
      modifies this`h2cDescConsumed, this`h2cTotal, card, h2cBuf`currDescIndexToPost
      ensures Ok()
      ensures !initialized || size == 0 ==> ret == FPGA_ERR_SOFTWARE_PROBLEM && card.s == old(card.s)
      ensures ret == 0 ==>
                var n := CeilDiv(size, h2cBuf.pktSize);
                && n <= SDE_NUM_DESC && h2cTotal == old(h2cTotal) + n
                && h2cBuf.currDescIndexToPost == RingAdd(old(h2cBuf.currDescIndexToPost), n, SDE_NUM_DESC)
                && PostedWithCredit(old(card.s), card.s, H2C, RingDwords(H2C, h2cBuf.descs, old(h2cBuf.currDescIndexToPost), n), h2cTotal)
    {
      if !initialized { return FPGA_ERR_SOFTWARE_PROBLEM; }
      if size == 0 { return FPGA_ERR_SOFTWARE_PROBLEM; }
      hide Posted, PostedPart, RingDwords, Reaches, CeilDiv, Valid, RingAdd;
      ValidParts();
      var numDesc := CeilDiv(size, h2cBuf.pktSize);
      ghost var done;
      ret := WaitDescCredit(H2C, numDesc);
      if ret != 0 { return; }
      ghost var a := card.s;
      ret, done := PostH2c(numDesc);
    }

    /** sde_mgmt_read_md: poll for the entry at the read index, take it, and give the
        slot back by clearing its status. */
    method ReadMd() returns (ret: int, md: Md)
      requires Ok()
      modifies card, this`mdReadIndex
      ensures Ok()
      ensures !initialized ==> ret == FPGA_ERR_SOFTWARE_PROBLEM && card.s == old(card.s) && unchanged(this)
      ensures initialized && ret != 0 ==>
                && ret == SDE_METADATA_VALID_TIMEOUT && Reaches(old(card.s), card.s) && mdReadIndex == old(mdReadIndex)
                && mdReadIndex < |card.s.md| && !IsValid(card.s.md[mdReadIndex])
      ensures ret == 0 ==> TookMd(old(card.s), card.s, Slot(old(card.s.mdRead)), md)
      ensures ret == 0 && !card.s.mdOverrun ==>
                old(card.s.mdRead) < |card.s.mdLog| && md == card.s.mdLog[old(card.s.mdRead)]
    {
      md := Md(0, 0, 0);
      if !initialized { return FPGA_ERR_SOFTWARE_PROBLEM, md; }
      hide Valid, TookMd, Reaches, IsValid, Slot;
      ghost var v, a, hb, cb := Vw(), card.s, h2cTotal, c2hTotal;
      Unfold();
      ret, md := TakeMd();
      if ret == 0 { MdFifo(v, a, card.s, md, hb, cb); }
    }

    /** The wait loop: poll the valid bit at the read index. */
    method PollMd() returns (done: bool)
      requires Valid()
      modifies card
      ensures Valid() && Reaches(old(card.s), card.s) && card.s.mdRead == old(card.s.mdRead)
      ensures mdReadIndex < |card.s.md| && (done <==> IsValid(card.s.md[mdReadIndex]))
    {
      hide Valid, Uniform, DmaBuffer.Valid, Inv, Reaches, IsValid, Slot;
      Unfold();
      ghost var v, a, hb, cb := Vw(), card.s, h2cTotal, c2hTotal;
      done := false;
      var iters := 0;
      ReachesSelf(a);
      PendingNonNeg(v, a, hb, cb);
      SlotBound(a.mdRead);
      while iters == 0 || (!done && iters < DESC_WAIT_MAX_ITERS)
        invariant 0 <= iters <= DESC_WAIT_MAX_ITERS && mdReadIndex < |card.s.md| && Reaches(a, card.s)
        invariant iters > 0 ==> (done <==> IsValid(card.s.md[mdReadIndex]))
        decreases DESC_WAIT_MAX_ITERS - iters
      {
        ghost var b := card.s;
        card.Run();
        ReachesTwice(a, b, card.s);
        PendingReaches(b, card.s);
        done := IsValid(card.s.md[mdReadIndex]);
        iters := iters + 1;
      }
      KeepInv(v, a, card.s, hb, cb, false);
      GrowsCounters(a, card.s);
      Fold();
    }

    /** The accesses to a valid entry: status, length, user, and clearing it. */
    method ReadEntry(ghost before: Shared, i: nat) returns (md: Md)
      requires Reaches(before, card.s) && i < |card.s.md| && IsValid(card.s.md[i])
      modifies card
      ensures TookMd(before, card.s, i, md)
    {
      hide Reaches, TookMd, IsValid;
      ghost var s0 := card.s;
      card.Run();
      ghost var s1 := card.s;
      PendingReaches(s0, s1);
      var status := card.s.md[i].status;
      card.Run();
      ghost var s2 := card.s;
      PendingReaches(s1, s2);
      var length := card.s.md[i].length;
      card.Run();
      ghost var s3 := card.s;
      PendingReaches(s2, s3);
      card.s := ClearSlot(card.s, i);
      card.Run();
      ghost var s4 := card.s;
      PendingReaches(ClearSlot(s3, i), s4);
      md := Md(length, status, card.s.md[i].user);
      card.s := card.s.(mdRead := card.s.mdRead + 1);
      TookIs(before, s0, s1, s2, s3, s4, card.s, i, md);
    }

    method TakeMd() returns (ret: int, md: Md)
      requires Valid()
      modifies card, this`mdReadIndex
      ensures Valid()
      ensures ret != 0 ==>
                && ret == SDE_METADATA_VALID_TIMEOUT && Reaches(old(card.s), card.s) && mdReadIndex == old(mdReadIndex)
                && mdReadIndex < |card.s.md| && !IsValid(card.s.md[mdReadIndex])
      ensures ret == 0 ==> TookMd(old(card.s), card.s, Slot(old(card.s.mdRead)), md)
    {
      hide Valid, Uniform, DmaBuffer.Valid, Inv, Reaches, TookMd, IsValid, RingAdd, Slot;
      Unfold();
      ghost var v, a, hb, cb := Vw(), card.s, h2cTotal, c2hTotal;
      md := Md(0, 0, 0);
      var i := mdReadIndex;
      var done := PollMd();
      if !done { return SDE_METADATA_VALID_TIMEOUT, md; }
      Unfold();
      md := ReadEntry(a, i);
      mdReadIndex := RingAdd(mdReadIndex, 1, SDE_NUM_DESC);
      ret := 0;
      MdFifo(v, a, card.s, md, hb, cb);
      SlotNext(a.mdRead, 1);
      Fold();
    }

    /** The C2H stream holds ring descriptors only, and data and metadata are in step. */
    ghost predicate Aligned()
      requires Valid()
      reads this, card, h2cBuf, c2hBuf
    {
      Ring(C2H, c2hBuf.descs) && Cyclic(C2H, c2hBuf.descs, card.s.c2h.stream) && card.s.mdRead == card.s.bufRead
    }

    /** A loopback transfer of pkts, the packets from number base on, is under way. */
    ghost predicate Moving()
      reads this, card, h2cBuf, c2hBuf
    {
      Valid() && Transfer(Vw(), card.s, base, pkts)
    }

    /** sde_mgmt_read_data: the payloads that landed from the read index on, one after
        the other, cut at size. */
    method ReadData(size: nat) returns (ret: int, data: Bytes)
      requires Ok()
      modifies card, this`mdReadIndex, c2hBuf`currentBufferIndex
      ensures Ok()
      ensures !initialized || size == 0 ==> ret == FPGA_ERR_SOFTWARE_PROBLEM && card.s == old(card.s) && unchanged(this)
      ensures ret == 0 ==> |data| == size
      ensures ret == 0 && old(Valid() && Aligned()) && NoOverrun(card.s) ==>
                ReadSoFar(card.s, old(card.s.mdRead), data, size)
      ensures ret == 0 && old(Moving() && card.s.mdRead == card.s.bufRead) ==> Moving()
      ensures card.s.h2c.stream == old(card.s.h2c.stream) && card.s.c2h.stream == old(card.s.c2h.stream)
    {
      data := [];
      if !initialized { return FPGA_ERR_SOFTWARE_PROBLEM, data; }
      if size == 0 { return FPGA_ERR_SOFTWARE_PROBLEM, data; }
      hide Valid, Moving, Aligned, ReadSoFar;
      ret, data := Gather(size);
    }

    method Gather(size: nat) returns (ret: int, data: Bytes)
      requires Valid() && size > 0
      modifies card, this`mdReadIndex, c2hBuf`currentBufferIndex
      ensures Valid()
      ensures ret == 0 ==> |data| == size
      ensures ret != 0 ==> ret == SDE_METADATA_VALID_TIMEOUT
      ensures ret == 0 && old(Aligned()) && NoOverrun(card.s) ==> ReadSoFar(card.s, old(card.s.mdRead), data, size)
      ensures ret == 0 && old(Moving() && card.s.mdRead == card.s.bufRead) ==> Moving()
      ensures card.s.h2c.stream == old(card.s.h2c.stream) && card.s.c2h.stream == old(card.s.c2h.stream)
    {
      hide Valid, Uniform, Inv, Cyclic, ReadSoFar, Turn, Transfer, Slot, RingAdd, TookMd, Reaches, Flatten, NextIndex,
           BuffersUsed, GetData, Table, BufsIn, Pending;
      Unfold();
      ghost var v, hb, cb, L, start := Vw(), h2cTotal, c2hTotal, c2hBuf.pktSize, card.s.mdRead;
      ghost var aligned, moving := Aligned(), Moving() && card.s.mdRead == card.s.bufRead;
      if moving { InvParts(v, card.s, hb, cb, false); CyclicOf(v, card.s, C2H, base, pkts); }
      data := [];
      if aligned { ReadBegins(v, card.s, hb, cb, size); }
      PendingNonNeg(v, card.s, hb, cb);
      while |data| < size
        invariant Valid() && |data| <= size && Vw() == v
        invariant card.s.h2c.stream == old(card.s.h2c.stream) && card.s.c2h.stream == old(card.s.c2h.stream)
        invariant aligned ==> Reading(v, card.s, start, data, size)
        invariant moving ==> Moving()
        decreases Pending(card.s)
      {
        data, ret := OneTurn(data, size, start, aligned, moving);
        Unfold();
        PendingNonNeg(v, card.s, hb, cb);
        if ret != 0 { return; }
      }
      ret := 0;
    }

    /** One turn of that loop. */
    method OneTurn(sofar: Bytes, size: nat, ghost start: nat, ghost aligned: bool, ghost moving: bool)
      returns (data: Bytes, ret: int)
      requires Valid() && |sofar| < size
      requires aligned ==> Cyclic(C2H, c2hBuf.descs, card.s.c2h.stream) && Reading(Vw(), card.s, start, sofar, size)
      requires moving ==> aligned && Moving()
      modifies card, this`mdReadIndex, c2hBuf`currentBufferIndex
      ensures Valid() && |data| <= size
      ensures card.s.h2c.stream == old(card.s.h2c.stream) && card.s.c2h.stream == old(card.s.c2h.stream)
      ensures ret == 0 || ret == SDE_METADATA_VALID_TIMEOUT
      ensures ret == 0 && aligned ==> Reading(Vw(), card.s, start, data, size)
      ensures ret == 0 && moving ==> Moving()
      ensures ret == 0 ==> Pending(card.s) < Pending(old(card.s))
    {
      hide Valid, Layout, DmaBuffer.Valid, Inv, Cyclic, ReadSoFar, Transfer, Slot, TookMd, Reaches, BuffersUsed, GetData, Table, BufsIn,
           Pending, Multi, MemOk, Uniform;
      Unfold();
      BuffersUniform();
      ghost var v, a, hb, cb := Vw(), card.s, h2cTotal, c2hTotal;
      InvParts(v, a, hb, cb, false);
      data := sofar;
      var md;
      ret, md := TakeMd();
      if ret != 0 {
        KeepInv(v, a, card.s, hb, cb, false);
        return;
      }
      ghost var b := card.s;
      var n := if md.length < size - |data| then md.length else size - |data|;
      var piece;
      ghost var c;
      piece, c := CopyOut(n);
      WholeTurn(v, a, b, c, card.s, md, c2hBuf.pktSize, n, hb, cb, start, data, size, aligned, moving, base, pkts);
      data := data + piece;
    }

    /** The copy of n bytes out of the buffers, at some instant after the metadata was read. */
    method CopyOut(n: nat) returns (piece: Bytes, ghost c: Shared)
      requires Valid()
      modifies card, c2hBuf`currentBufferIndex
      ensures Valid() && Reaches(old(card.s), c)
      ensures c2hBuf.pktSize > 0 && card.s == c.(bufRead := c.bufRead + BuffersUsed(c2hBuf.pktSize, n))
      ensures Table(c2hBuf.buffers) && BufsIn(c2hBuf.buffers, c.mem) && Slot(c.bufRead) < |c2hBuf.buffers|
      ensures piece == GetData(c.mem, c2hBuf.buffers, Slot(c.bufRead), n)
    {
      hide Valid, Uniform, DmaBuffer.Valid, Inv, Slot, RingAdd, Reaches, NextIndex, BuffersUsed, GetData, Table, BufsIn;
      Unfold();
      ghost var v, a, hb, cb := Vw(), card.s, h2cTotal, c2hTotal;
      var L := c2hBuf.pktSize;
      card.Run();
      c := card.s;
      KeepInv(v, a, c, hb, cb, false);
      GrowsCounters(a, c);
      UniformPos(v.c2hBufs, L);
      TableOf(v, c, hb, cb, L);
      NextIs(v, L, c.bufRead, n);
      var used := BuffersUsed(L, n);
      ReleaseInv(v, c, hb, cb, used);
      piece := c2hBuf.ReadData(n);
      card.s := card.s.(bufRead := card.s.bufRead + used);
      Fold();
    }

    /** sde_mgmt_prepare_write: spread the data over the H2C buffers, a packet a turn. */
    method PrepareWrite(data: Bytes) returns (ret: int)
      requires Ok()
      modifies card, h2cBuf`currentBufferIndex
      ensures Ok()
      ensures !initialized || |data| == 0 ==> ret == FPGA_ERR_SOFTWARE_PROBLEM && card.s == old(card.s) && unchanged(h2cBuf)
      ensures initialized && |data| > 0 ==> ret == 0
      ensures initialized ==> Valid()
      ensures card.s.h2c.stream == old(card.s.h2c.stream) && card.s.c2h.stream == old(card.s.c2h.stream)
      ensures card.s.mdRead == old(card.s.mdRead) && card.s.bufRead == old(card.s.bufRead)
      ensures ret == 0 && old(Moving() && pkts == []) ==> Moving()
      ensures ret == 0 ==>
                var n := CeilDiv(|data|, h2cBuf.pktSize);
                h2cBuf.currentBufferIndex == RingAdd(old(h2cBuf.currentBufferIndex), n, SDE_NUM_DESC)
      ensures ret == 0 && old(Aligned()) ==>
                && Table(h2cBuf.buffers) && BufsIn(h2cBuf.buffers, old(card.s.mem))
                && Agree(h2cBuf.buffers, PutData(old(card.s.mem), h2cBuf.buffers, old(h2cBuf.currentBufferIndex), data), card.s.mem)
    {
      if !initialized { return FPGA_ERR_SOFTWARE_PROBLEM; }
      if |data| == 0 { return FPGA_ERR_SOFTWARE_PROBLEM; }
      hide Valid, Moving, Table, BufsIn, Agree, PutData, RingAdd, CeilDiv, Inv;
      Spread(data);
      ret := 0;
    }

    method Spread(data: Bytes)
      requires Valid() && |data| > 0
      modifies card, h2cBuf`currentBufferIndex
      ensures Valid()
      ensures card.s.h2c.stream == old(card.s.h2c.stream) && card.s.c2h.stream == old(card.s.c2h.stream)
      ensures card.s.mdRead == old(card.s.mdRead) && card.s.bufRead == old(card.s.bufRead)
      ensures h2cBuf.pktSize > 0 && h2cBuf.currentBufferIndex ==
                RingAdd(old(h2cBuf.currentBufferIndex), CeilDiv(|data|, h2cBuf.pktSize), SDE_NUM_DESC)
      ensures Table(h2cBuf.buffers) && BufsIn(h2cBuf.buffers, old(card.s.mem)) && old(h2cBuf.currentBufferIndex) < |h2cBuf.buffers|
      ensures Ring(C2H, c2hBuf.descs) && Cyclic(C2H, c2hBuf.descs, old(card.s.c2h.stream)) ==>
                Agree(h2cBuf.buffers, PutData(old(card.s.mem), h2cBuf.buffers, old(h2cBuf.currentBufferIndex), data), card.s.mem)
      ensures old(Moving() && pkts == []) ==> Moving()
    {
      hide Valid, Uniform, DmaBuffer.Valid, Inv, Cyclic, Ring, Transfer, Slot, RingAdd, Reaches, BuffersUsed, PutData, PutOne, Table,
           BufsIn, Agree, Filling, Left, Multi, MemOk, CeilDiv, Grows;
      Unfold();
      ghost var v, hb, cb, i0 := Vw(), h2cTotal, c2hTotal, h2cBuf.currentBufferIndex;
      var L := h2cBuf.pktSize;
      ghost var cyclic, moving := Ring(C2H, c2hBuf.descs) && Cyclic(C2H, c2hBuf.descs, card.s.c2h.stream), Moving() && pkts == [];
      UniformPos(v.h2cBufs, L);
      IndexBound();
      FillBegins(v, card.s, i0, data, L, hb, cb);
      ghost var goal := PutData(card.s.mem, v.h2cBufs, i0, data);
      var rest := data;
      ghost var k := 0;
      RingAddNone(i0);
      while |rest| > 0
        invariant Valid() && Vw() == v && h2cBuf.currentBufferIndex == RingAdd(i0, k, 64)
        invariant k + (if |rest| == 0 then 0 else BuffersUsed(L, |rest|)) == BuffersUsed(L, |data|)
        invariant card.s.h2c.stream == old(card.s.h2c.stream) && card.s.c2h.stream == old(card.s.c2h.stream)
        invariant card.s.mdRead == old(card.s.mdRead) && card.s.bufRead == old(card.s.bufRead)
        invariant cyclic ==> Filling(v, card.s, h2cBuf.currentBufferIndex, rest, goal)
        invariant moving ==> Moving()
      {
        Unfold();
        ghost var a, i := card.s, h2cBuf.currentBufferIndex;
        var n := if L < |rest| then L else |rest|;
        IndexBound();
        card.Run();
        ghost var b := card.s;
        FillKeeps(v, a, b, i, rest[..n], L, hb, cb);
        GrowsCounters(a, b);
        GrowsStreams(a, b);
        if cyclic { FillStep(v, a, b, i, rest, n, L, goal, hb, cb); }
        if moving { UniformAt(v.h2cBufs, L, i); FillTransfer(v, a, b, i, rest[..n], hb, cb, base); }
        h2cBuf.WriteData(rest[..n]);
        UsedTurn(L, |rest|, n);
        RingAddOne(i0, k);
        rest := rest[n..];
        k := k + 1;
        Fold();
      }
      if cyclic { assert rest == []; FillEnds(v, card.s, h2cBuf.currentBufferIndex, goal); }
      CeilIsUsed(L, |data|);
    }
  }
}
