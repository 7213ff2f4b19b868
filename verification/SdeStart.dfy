/** How a run begins: the state that sde_mgmt_init, sde_mgmt_reset and sde_mgmt_cfg leave. */
module SdeStart {
  import opened Bits
  import opened SdeDesc
  import opened SdeCard
  import opened SdeDmaBuffer
  import opened SdeLoopback

  /** The DMA allocator never hands out the same address twice. */
  predicate DistinctAddrs(h: seq<u64>, c: seq<u64>) {
    && |h| == |c| == SDE_NUM_DESC
    && forall i, j :: 0 <= i < j < |h + c| ==> (h + c)[i] != (h + c)[j]
  }

  ghost predicate BuffersAt(b: DmaBuffer, addrs: seq<u64>, pktSize: nat)
    reads b
  {
    && |b.buffers| == |addrs| == b.numBuffers && pktSize < 0x1_0000_0000
    && forall i :: 0 <= i < |addrs| ==> b.buffers[i] == Buffer(addrs[i], pktSize)
  }

  ghost predicate RingSet(b: DmaBuffer)
    reads b
  {
    && |b.buffers| > 0 && |b.descs| == b.numDesc
    && b.currDescIndexToPost == 0 && b.currentBufferIndex == 0
    && forall i :: 0 <= i < b.numDesc ==> b.descs[i] == RingDesc(b.sub, b.buffers, i)
  }

  function Zeros(n: nat): (z: Bytes)
    ensures |z| == n
  {
    seq(n, i => 0)
  }

  /** Freshly mapped memory. */
  function ZeroBuffers(addrs: seq<u64>, size: nat): map<u64, Bytes> {
    map a | a in addrs :: Zeros(size)
  }

  function FreshChan(): Chan { Chan([], 0, RAM_DEPTH, false) }

  function AfterReset(s: Shared): Shared {
    s.(h2c := FreshChan(), c2h := FreshChan(), fetched := [], landed := [], mdLog := [],
       mdRead := 0, bufRead := 0, mdOverrun := false, bufOverrun := false)
  }

  ghost predicate FreshState(s: Shared) {
    && s == AfterReset(s) && |s.md| == NUM_MD
    && forall i :: 0 <= i < NUM_MD ==> !IsValid(s.md[i])
  }

  lemma MultiBegins(hb: DmaBuffer, cb: DmaBuffer, h: seq<u64>, c: seq<u64>, pktSize: nat)
    requires hb.sub == H2C && cb.sub == C2H && hb.numDesc == cb.numDesc == SDE_NUM_DESC
    requires BuffersAt(hb, h, pktSize) && BuffersAt(cb, c, pktSize) && DistinctAddrs(h, c)
    requires RingSet(hb) && RingSet(cb)
    ensures Multi(View(hb.descs, cb.descs, hb.buffers, cb.buffers))
    ensures pktSize > 0 ==> hb.Valid() && cb.Valid() && Uniform(hb.buffers, pktSize) && Uniform(cb.buffers, pktSize)
  {
    var v := View(hb.descs, cb.descs, hb.buffers, cb.buffers);
    forall i, j | 0 <= i < 64 && 0 <= j < 64 && i != j
      ensures v.h2cBufs[i].addr != v.h2cBufs[j].addr && v.c2hBufs[i].addr != v.c2hBufs[j].addr
    {
      assert h[i] == (h + c)[i] && h[j] == (h + c)[j] && c[i] == (h + c)[64 + i] && c[j] == (h + c)[64 + j];
    }
    forall i, j | 0 <= i < 64 && 0 <= j < 64 ensures v.h2cBufs[i].addr != v.c2hBufs[j].addr {
      assert h[i] == (h + c)[i] && c[j] == (h + c)[64 + j];
    }
    KindOf(hb);
    KindOf(cb);
  }

  lemma KindOf(b: DmaBuffer)
    requires RingSet(b) && b.numDesc > 0
    ensures Ring(b.sub, b.descs)
  {
  }

  lemma ZerosIn(b: DmaBuffer, mine: seq<u64>, all: seq<u64>, pktSize: nat)
    requires BuffersAt(b, mine, pktSize) && forall i :: 0 <= i < |mine| ==> mine[i] in all
    ensures BufsIn(b.buffers, ZeroBuffers(all, pktSize))
  {
  }

  /** Nothing posted, nothing delivered: every invariant holds, on a run of any length. */
  lemma RunBegins(v: View, s: Shared)
    requires Multi(v) && MemOk(v, s.mem) && FreshState(s)
    ensures Inv(v, s, 0, 0, false)
    ensures s.loopback ==> Transfer(v, s, 0, [])
  {
  }
}
