/** The transfer loop of sde_loopback_simple: one buffer written to the card and read
    back, over and over, on a slot that was initialised, reset and configured. */
module SdeSession {
  import opened Bits
  import opened SdeDesc
  import opened SdeCard
  import opened SdeDmaBuffer
  import opened SdeRun
  import opened SdeLoopback
  import opened SdeRead
  import opened SdeWrite
  import opened SdeLive
  import opened SdeStart
  import opened SdeMgmt
  import opened Modular

  const DESC_COALESCE_CNT: nat := 32

  /** Between two transfers: base packets went each way, nothing is on the way, and all
      four cyclic indices, the one for metadata included, stand at the same slot. */
  ghost predicate Quiet(m: SdeMgmt)
    reads m, m.card, m.h2cBuf, m.c2hBuf
  {
    && m.initialized && m.Moving() && m.pkts == []
    && |m.card.s.h2c.stream| == At(H2C, m.base) && |m.card.s.c2h.stream| == At(C2H, m.base)
    && m.card.s.mdRead == m.card.s.bufRead == m.base == m.h2cTotal == m.c2hTotal
    && m.h2cBuf.currentBufferIndex == m.h2cBuf.currDescIndexToPost == m.c2hBuf.currDescIndexToPost == Slot(m.base)
  }

  /** The four indices that the driver advances independently of one another. */
  lemma IndexLockstep(m: SdeMgmt)
    requires Quiet(m)
    ensures m.h2cBuf.currentBufferIndex == m.h2cBuf.currDescIndexToPost
    ensures m.c2hBuf.currentBufferIndex == m.c2hBuf.currDescIndexToPost == m.mdReadIndex == m.h2cBuf.currentBufferIndex
  {
  }

  /** A post with credit, in the course of a transfer whose other side stands at cb or hb. */
  lemma StagePost(v: View, a: Shared, b: Shared, sub: Subsystem, n: nat, hb: nat, cb: nat, base: nat, pkts: seq<Bytes>)
    requires Inv(v, a, hb, cb, false) && Transfer(v, a, base, pkts) && BoundOf(sub, hb, cb) == base
    requires var ring := if sub.C2H? then v.c2hRing else v.h2cRing;
             Ring(sub, ring) && PostedWithCredit(a, b, sub, RingDwords(sub, ring, Slot(base), n), base + n)
    requires |ChanOf(a, sub).stream| == At(sub, base)
    requires if sub.C2H? then a.bufRead == base && n <= SDE_NUM_DESC else n <= |pkts|
    ensures Inv(v, b, if sub.H2C? then hb + n else hb, if sub.C2H? then cb + n else cb, false)
    ensures Multi(v) && MemOk(v, b.mem) && Transfer(v, b, base, pkts)
    ensures |ChanOf(b, sub).stream| == At(sub, base + n)
    ensures sub.H2C? ==> b.c2h.stream == a.c2h.stream
    ensures sub.C2H? ==> b.h2c.stream == a.h2c.stream
    ensures b.bufRead == a.bufRead && b.mdRead == a.mdRead
  {
    hide Inv, Posted, Reaches, Transfer, RingDwords, Ring, At;
    var ring := if sub.C2H? then v.c2hRing else v.h2cRing;
    var dws := RingDwords(sub, ring, Slot(base), n);
    var m :| Reaches(a, m) && Posted(m, b, sub, dws) && base + n <= ChanOf(m, sub).limit;
    InvParts(v, a, hb, cb, false);
    RingOf(v, sub);
    PostStage(v, a, m, b, sub, dws, base, n, hb, cb, base, pkts);
    InvParts(v, b, if sub.H2C? then hb + n else hb, if sub.C2H? then cb + n else cb, false);
  }

  /** The card may act while the host only looks at the status word. */
  lemma StageLook(v: View, a: Shared, b: Shared, hb: nat, cb: nat, base: nat, pkts: seq<Bytes>)
    requires Inv(v, a, hb, cb, false) && Transfer(v, a, base, pkts) && Reaches(a, b)
    ensures Inv(v, b, hb, cb, false) && Multi(v) && MemOk(v, b.mem) && Transfer(v, b, base, pkts) && Grows(a, b)
  {
    hide Inv, Transfer, Reaches, Grows;
    InvParts(v, a, hb, cb, false);
    KeepTransfer(v, a, b, hb, cb, false, base, pkts);
    InvParts(v, b, hb, cb, false);
  }

  /** Once everything was taken, the next transfer starts where this one ended. */
  lemma TransferEnds(v: View, s: Shared, base: nat, n: nat, pkts: seq<Bytes>)
    requires |v.h2cBufs| == SDE_NUM_DESC && MemOk(v, s.mem) && Transfer(v, s, base, pkts)
    requires |s.fetched| == Whole(H2C, s.h2c.stream) == base + n
    ensures Transfer(v, s, base + n, [])
  {
  }

  lemma PacketLengths(mem: map<u64, Bytes>, bufs: seq<Buffer>, L: nat, base: nat, n: nat)
    requires |bufs| == SDE_NUM_DESC && Uniform(bufs, L) && BufsIn(bufs, mem)
    ensures forall i :: 0 <= i < n ==> |Packets(mem, bufs, base, n)[i]| == L
  {
    forall i | 0 <= i < n ensures |Packets(mem, bufs, base, n)[i]| == L {
      assert bufs[Slot(base + i)].length == L;
    }
  }

  lemma BuffersEnough(L: nat, size: nat)
    requires L > 0 && 0 < size <= SDE_NUM_DESC * L
    ensures 0 < BuffersUsed(L, size) <= SDE_NUM_DESC && CeilDiv(size, L) == BuffersUsed(L, size)
  {
    BuffersUsedIs(L, size);
    QuotientBound(size + L - 1, L, SDE_NUM_DESC + 1);
  }

  // ---- The steps of one transfer -----------------------------------------------

  /** The packets carry the data, in whole buffers of L bytes. */
  ghost predicate Carries(pkts: seq<Bytes>, L: nat, data: Bytes) {
    && L > 0 && |pkts| == BuffersUsed(L, |data|)
    && (forall i :: 0 <= i < |pkts| ==> |pkts[i]| == L)
    && |data| <= |Flatten(pkts)| && Flatten(pkts)[..|data|] == data
  }

  /** Within a transfer of data: r descriptors posted for reading, w for writing. */
  ghost predicate Stage(m: SdeMgmt, data: Bytes, r: nat, w: nat)
    reads m, m.card, m.h2cBuf, m.c2hBuf
  {
    && m.initialized && m.Moving() && Carries(m.pkts, m.h2cBuf.pktSize, data)
    && |m.card.s.h2c.stream| == At(H2C, m.base + w) && |m.card.s.c2h.stream| == At(C2H, m.base + r)
    && m.h2cTotal == m.base + w && m.c2hTotal == m.base + r
    && m.card.s.mdRead == m.card.s.bufRead == m.base
    && m.h2cBuf.currDescIndexToPost == Slot(m.base + w) && m.c2hBuf.currDescIndexToPost == Slot(m.base + r)
    && m.h2cBuf.currentBufferIndex == Slot(m.base + |m.pkts|)
  }

  /** prepare_write: the data now stands in the H2C buffers as packets. */
  method Load(m: SdeMgmt, data: Bytes) returns (ret: int)
    requires Quiet(m) && 0 < |data| <= SDE_NUM_DESC * m.h2cBuf.pktSize
    modifies m.card, m.h2cBuf`currentBufferIndex, m`pkts
    ensures ret == 0 && m.Ok() && Stage(m, data, 0, 0) && |m.pkts| == CeilDiv(|data|, m.h2cBuf.pktSize)
  {
    hide SdeMgmt.Valid, Inv, Transfer, Slot, RingAdd, PutData, Agree, Table, BufsIn, Uniform, Packets, BuffersUsed, CeilDiv, Flatten, At, Cyclic, Ring;
    ghost var v, base, L := m.Vw(), m.base, m.h2cBuf.pktSize;
    ghost var start, i0 := m.card.s.mem, m.h2cBuf.currentBufferIndex;
    m.Unfold();
    m.ValidParts();
    BuffersEnough(L, |data|);
    ghost var n := BuffersUsed(L, |data|);
    InvParts(v, m.card.s, base, base, false);
    CyclicOf(v, m.card.s, C2H, base, []);
    ret := m.PrepareWrite(data);
    m.Unfold();
    ghost var s := m.card.s;
    TableOf(v, s, base, base, L);
    SlotNext(base, n);
    TransferBegins(v, s, base, n, base, base);
    InvParts(v, s, base, base, false);
    MultiParts(v);
    DistinctH2c(v);
    PacketsCarry(s.mem, PutData(start, v.h2cBufs, i0, data), start, v.h2cBufs, L, base, n, data);
    PacketLengths(s.mem, v.h2cBufs, L, base, n);
    m.pkts := Packets(s.mem, v.h2cBufs, base, n);
    m.Fold();
  }

  lemma DistinctH2c(v: View)
    requires Distinct(v)
    ensures forall j, k :: 0 <= j < k < |v.h2cBufs| ==> v.h2cBufs[j].addr != v.h2cBufs[k].addr
  {
  }

  /** start_read: a C2H descriptor for every packet, before any data moves. */
  method Arm(m: SdeMgmt, data: Bytes) returns (ret: int)
    requires Stage(m, data, 0, 0) && 0 < |data| <= SDE_NUM_DESC * m.h2cBuf.pktSize
    modifies m.card, m.c2hBuf`currDescIndexToPost, m`c2hDescConsumed, m`c2hTotal
    ensures m.Ok()
    ensures ret == 0 ==> Stage(m, data, |m.pkts|, 0)
  {
    hide SdeMgmt.Valid, Inv, Transfer, Slot, RingAdd, Uniform, BuffersUsed, CeilDiv, Flatten, At, PostedWithCredit, Ring, RingDwords;
    ghost var v, a, base, pkts, n := m.Vw(), m.card.s, m.base, m.pkts, |m.pkts|;
    m.Unfold();
    m.ValidParts();
    BuffersEnough(m.h2cBuf.pktSize, |data|);
    ret := m.StartRead(|data|);
    if ret != 0 { return; }
    StagePost(v, a, m.card.s, C2H, n, base, base, base, pkts);
    SlotNext(base, n);
  }

  /** write: an H2C descriptor for every packet. */
  method Send(m: SdeMgmt, data: Bytes) returns (ret: int)
    requires Stage(m, data, |m.pkts|, 0) && 0 < |data| <= SDE_NUM_DESC * m.h2cBuf.pktSize
    modifies m.card, m.h2cBuf`currDescIndexToPost, m`h2cDescConsumed, m`h2cTotal
    ensures m.Ok()
    ensures ret == 0 ==> Stage(m, data, |m.pkts|, |m.pkts|)
  {
    hide SdeMgmt.Valid, Inv, Transfer, Slot, RingAdd, Uniform, BuffersUsed, CeilDiv, Flatten, At, PostedWithCredit, Ring, RingDwords;
    ghost var v, a, base, pkts, n := m.Vw(), m.card.s, m.base, m.pkts, |m.pkts|;
    m.Unfold();
    m.ValidParts();
    BuffersEnough(m.h2cBuf.pktSize, |data|);
    ret := m.Write(|data|);
    if ret != 0 { return; }
    StagePost(v, a, m.card.s, H2C, n, base, base + n, base, pkts);
    SlotNext(base, n);
  }

  method Look(m: SdeMgmt, data: Bytes, ghost r: nat, ghost w: nat) returns (ret: int)
    requires Stage(m, data, r, w)
    modifies m.card
    ensures m.Ok() && Stage(m, data, r, w)
  {
    hide SdeMgmt.Valid, Inv, Transfer, Slot, Uniform, BuffersUsed, Flatten, At, Ring, Reaches;
    ghost var v, a := m.Vw(), m.card.s;
    m.Unfold();
    var status;
    ret, status := m.CheckStatus();
    StageLook(v, a, m.card.s, m.h2cTotal, m.c2hTotal, m.base, m.pkts);
    GrowsCounters(a, m.card.s);
    GrowsStreams(a, m.card.s);
  }

  /** Once both sides are posted, the card is able to deliver every packet of the transfer. */
  lemma CardCompletes(m: SdeMgmt, data: Bytes)
    requires Stage(m, data, |m.pkts|, |m.pkts|)
    ensures exists t :: Reaches(m.card.s, t) && |t.mdLog| == m.base + |m.pkts|
  {
    hide Reaches, Inv, Transfer, Flatten, BuffersUsed, Uniform;
    var n := |m.pkts|;
    m.Unfold();
    m.BuffersUniform();
    CardCanDeliver(m.Vw(), m.card.s, m.base + n, m.base + n, m.base, m.pkts, m.h2cBuf.pktSize);
  }

  /** read_data: what comes back is what went out. */
  method Collect(m: SdeMgmt, data: Bytes) returns (ret: int, rd: Bytes)
    requires Stage(m, data, |m.pkts|, |m.pkts|) && |data| > 0
    modifies m.card, m.c2hBuf`currentBufferIndex, m`mdReadIndex, m`base, m`pkts
    ensures m.Ok()
    ensures ret == 0 ==> rd == data && Quiet(m) && m.base == old(m.base) + old(|m.pkts|)
  {
    hide SdeMgmt.Valid, Inv, Transfer, Slot, Uniform, BuffersUsed, Flatten, At, Ring, ReadSoFar, Cyclic;
    ghost var v, base, pkts, n, L := m.Vw(), m.base, m.pkts, |m.pkts|, m.h2cBuf.pktSize;
    m.Unfold();
    InvParts(v, m.card.s, base + n, base + n, false);
    CyclicOf(v, m.card.s, C2H, base, pkts);
    ret, rd := m.ReadData(|data|);
    if ret != 0 { return; }
    m.Unfold();
    InvParts(v, m.card.s, base + n, base + n, false);
    TransferNear(v, m.card.s, base, pkts);
    ReadBack(v, m.card.s, base, n, pkts, L, rd, |data|, base + n, base + n);
    TransferEnds(v, m.card.s, base, n, pkts);
    m.base, m.pkts := base + n, [];
    m.Fold();
  }

  /** One turn of the main loop of the program. When every call returns 0 the bytes read
      are the bytes written, whatever the card did in between, for any size up to 64
      packets; the slot is then ready for the next transfer. */
  method LoopbackOnce(m: SdeMgmt, data: Bytes) returns (ret: int, rd: Bytes)
    requires Quiet(m) && 0 < |data| <= SDE_NUM_DESC * m.h2cBuf.pktSize
    modifies m.card, m.h2cBuf`currentBufferIndex, m.h2cBuf`currDescIndexToPost, m.c2hBuf`currentBufferIndex,
             m.c2hBuf`currDescIndexToPost, m
    ensures m.Ok()
    ensures ret == 0 ==> rd == data && Quiet(m) && m.base == old(m.base) + CeilDiv(|data|, m.h2cBuf.pktSize)
  {
    hide SdeMgmt.Valid, Quiet, Stage, CeilDiv;
    rd := [];
    ret := Load(m, data);
    if ret != 0 { return; }
    ret := Arm(m, data);
    if ret != 0 { return; }
    ret := Look(m, data, |m.pkts|, 0);
    if ret != 0 { return; }
    ret := Send(m, data);
    if ret != 0 { return; }
    ret := Look(m, data, |m.pkts|, |m.pkts|);
    if ret != 0 { return; }
    ret, rd := Collect(m, data);
  }

  /** sde_loopback_simple from set-up on, for any pattern in the write buffer. Whenever
      the program gets as far as comparing the two buffers, they are equal: a non-zero
      result always is the result of one of the calls. */
  method LoopbackSimple(m: SdeMgmt, pktCnt: nat, pktSize: nat, h2cAddrs: seq<u64>, c2hAddrs: seq<u64>, wr: Bytes)
    returns (ret: int, compared: bool)
    requires m.Wired() && DistinctAddrs(h2cAddrs, c2hAddrs)
    requires |wr| == (if pktCnt < DESC_COALESCE_CNT then pktCnt else DESC_COALESCE_CNT) * pktSize
    modifies m, m.card, m.h2cBuf, m.c2hBuf
    ensures compared ==> ret == 0 && Quiet(m) && m.base >= pktCnt
    ensures !compared ==> ret != 0
  {
    hide SdeMgmt.Moving, Inv, Transfer;
    compared := false;
    ret := m.InitAndCfg(pktSize, h2cAddrs, c2hAddrs);
    if ret != 0 { return; }
    var numDescriptors := if pktCnt < DESC_COALESCE_CNT then pktCnt else DESC_COALESCE_CNT;
    var rd := Zeros(|wr|);
    var numPackets := 0;
    while numPackets < pktCnt
      invariant Quiet(m) && m.h2cBuf.pktSize == pktSize && numPackets == m.base
      invariant if numPackets > 0 then rd == wr else |rd| == |wr|
    {
      WholePackets(numDescriptors, pktSize);
      ret, rd := LoopbackOnce(m, wr);
      if ret != 0 { return; }
      numPackets := numPackets + numDescriptors;
    }
    if pktCnt == 0 { assert |wr| == 0; }
    compared := true;
    ret := if wr == rd then 0 else FPGA_ERR_SOFTWARE_PROBLEM;
  }

  lemma WholePackets(n: nat, pktSize: nat)
    requires 0 < n <= SDE_NUM_DESC && pktSize > 0
    ensures 0 < n * pktSize <= SDE_NUM_DESC * pktSize
    ensures CeilDiv(n * pktSize, pktSize) == n
  {
    DivModUnique(n * pktSize + pktSize - 1, pktSize, n, pktSize - 1);
    MulBound(pktSize, n);
    MulBound(pktSize, SDE_NUM_DESC - n);
  }
}
