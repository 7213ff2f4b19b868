/** The DMA buffer object of one channel: its descriptor ring, its table of data
    buffers, and the two cyclic indices into them. */
module SdeDmaBuffer {
  import opened Bits
  import opened SdeDesc
  import opened SdeCard
  import opened Modular

  /** The card, and the host's register and memory accesses to it. */
  class Card {
    var s: Shared

    constructor (s: Shared)
      ensures this.s == s
    {
      this.s := s;
    }

    /** The card acts on its own for as long as it likes. */
    method Run()
      modifies this
      ensures Reaches(old(s), s)
    {
      var n: int := *;
      ghost var acts := [];
      while n > 0
        invariant s == RunAll(old(s), acts)
      {
        n := n - 1;
        var a: Action := *;
        RunAllAppend(old(s), acts, a);
        s := Apply(s, a);
        acts := acts + [a];
      }
    }

    /** fpga_pci_poke on a descriptor RAM window: it may fail, without effect. */
    method Poke(sub: Subsystem, dw: u32) returns (ret: int)
      modifies this
      ensures ret == 0 ==> exists m :: Reaches(old(s), m) && s == Push(m, sub, dw)
      ensures ret != 0 ==> Reaches(old(s), s)
    {
      Run();
      ret := *;
      if ret == 0 { s := Push(s, sub, dw); }
    }
  }

  // ---- Spreading data over the buffers -----------------------------------------

  predicate Table(bufs: seq<Buffer>) {
    |bufs| > 0 && forall i :: 0 <= i < |bufs| ==> bufs[i].length > 0
  }

  /** Memory after data was copied into the buffers from index i on. */
  function PutData(mem: map<u64, Bytes>, bufs: seq<Buffer>, i: nat, data: Bytes): map<u64, Bytes>
    requires Table(bufs) && i < |bufs| && BufsIn(bufs, mem)
    decreases |data|
  {
    var b := bufs[i];
    if |data| <= b.length then mem[b.addr := Overlay(mem[b.addr], data)]
    else
      var mem' := mem[b.addr := Overlay(mem[b.addr], data[..b.length])];
      PutData(mem', bufs, RingAdd(i, 1, |bufs|), data[b.length..])
  }

  /** Data copied out of the buffers from index i on. */
  function GetData(mem: map<u64, Bytes>, bufs: seq<Buffer>, i: nat, size: nat): Bytes
    requires Table(bufs) && i < |bufs| && BufsIn(bufs, mem)
    decreases size
  {
    var b := bufs[i];
    if size <= b.length then mem[b.addr][..size]
    else mem[b.addr][..b.length] + GetData(mem, bufs, RingAdd(i, 1, |bufs|), size - b.length)
  }

  /** Index after a transfer of size bytes; one buffer is used even for none. */
  function NextIndex(bufs: seq<Buffer>, i: nat, size: nat): nat
    requires Table(bufs) && i < |bufs|
    decreases size
  {
    if size <= bufs[i].length then RingAdd(i, 1, |bufs|)
    else NextIndex(bufs, RingAdd(i, 1, |bufs|), size - bufs[i].length)
  }

  /** One turn of the copy loop: the first n bytes go into buffer i. */
  lemma PutStep(mem: map<u64, Bytes>, bufs: seq<Buffer>, i: nat, data: Bytes, n: nat)
    requires Table(bufs) && i < |bufs| && BufsIn(bufs, mem)
    requires n == if bufs[i].length > |data| then |data| else bufs[i].length
    ensures bufs[i].addr in mem && |mem[bufs[i].addr]| == bufs[i].length
    ensures var mem' := mem[bufs[i].addr := Overlay(mem[bufs[i].addr], data[..n])];
            && BufsIn(bufs, mem')
            && PutData(mem, bufs, i, data) ==
                 (if n == |data| then mem' else PutData(mem', bufs, RingAdd(i, 1, |bufs|), data[n..]))
            && NextIndex(bufs, i, |data|) ==
                 (if n == |data| then RingAdd(i, 1, |bufs|) else NextIndex(bufs, RingAdd(i, 1, |bufs|), |data| - n))
  {
    if n == |data| { assert data[..n] == data; }
  }

  /** One turn of the copy-out loop. */
  lemma GetStep(mem: map<u64, Bytes>, bufs: seq<Buffer>, i: nat, size: nat, n: nat)
    requires Table(bufs) && i < |bufs| && BufsIn(bufs, mem)
    requires n == if bufs[i].length > size then size else bufs[i].length
    ensures bufs[i].addr in mem && n <= |mem[bufs[i].addr]|
    ensures GetData(mem, bufs, i, size) == mem[bufs[i].addr][..n] +
              (if n == size then [] else GetData(mem, bufs, RingAdd(i, 1, |bufs|), size - n))
    ensures NextIndex(bufs, i, size) ==
              (if n == size then RingAdd(i, 1, |bufs|) else NextIndex(bufs, RingAdd(i, 1, |bufs|), size - n))
  {
  }

  /** How far buffer j lies ahead of buffer i, going round the table of n. */
  function Ahead(i: nat, j: nat, n: nat): nat
    requires i < n && j < n
  {
    if j >= i then j - i else j - i + n
  }

  /** The same, after some bytes were copied out before. */
  lemma GetTurn(mem: map<u64, Bytes>, bufs: seq<Buffer>, i0: nat, size: nat, data: Bytes, i: nat, rest: nat, n: nat)
    requires Table(bufs) && i0 < |bufs| && i < |bufs| && BufsIn(bufs, mem)
    requires n == if bufs[i].length > rest then rest else bufs[i].length
    requires GetData(mem, bufs, i0, size) == data + GetData(mem, bufs, i, rest)
    requires NextIndex(bufs, i0, size) == NextIndex(bufs, i, rest)
    ensures bufs[i].addr in mem && n <= |mem[bufs[i].addr]|
    ensures var next, more := RingAdd(i, 1, |bufs|), data + mem[bufs[i].addr][..n];
            && GetData(mem, bufs, i0, size) == more + (if rest > n then GetData(mem, bufs, next, rest - n) else [])
            && NextIndex(bufs, i0, size) == if rest > n then NextIndex(bufs, next, rest - n) else next
  {
    hide GetData, NextIndex, RingAdd;
    GetStep(mem, bufs, i, rest, n);
    var piece := mem[bufs[i].addr][..n];
    var tail := if rest > n then GetData(mem, bufs, RingAdd(i, 1, |bufs|), rest - n) else [];
    assert data + (piece + tail) == (data + piece) + tail;
  }

  /** So many bytes fit so many buffers of length L. */
  predicate FitsIn(size: nat, L: nat, room: nat) { size <= room * L }

  lemma FitsStep(size: nat, L: nat, room: nat)
    requires FitsIn(size, L, room)
    ensures room == 0 ==> size == 0
    ensures size > L ==> room >= 2 && FitsIn(size - L, L, room - 1)
  {
    if size > L { MulStep(room, L); }
  }

  /** Buffer i after the first n bytes of the data went into it. */
  lemma OverlayFront(old_: Bytes, data: Bytes, n: nat)
    requires n <= |data| && n <= |old_|
    ensures Overlay(old_, data[..n])[..n] == data[..n] && |Overlay(old_, data[..n])| == |old_|
    ensures n == 0 ==> Overlay(old_, data[..n]) == old_
    ensures data == data[..n] + data[n..]
  {
  }

  /** What is put into the buffers comes out of them again, as long as no buffer is
      used twice, and the two indices end at the same place. */
  lemma {:induction false} GetPut(mem: map<u64, Bytes>, bufs: seq<Buffer>, i: nat, data: Bytes, L: nat, room: nat)
    requires Table(bufs) && i < |bufs| && BufsIn(bufs, mem)
    requires forall j :: 0 <= j < |bufs| ==> bufs[j].length == L
    requires forall j, k :: 0 <= j < k < |bufs| ==> bufs[j].addr != bufs[k].addr
    requires room <= |bufs| && FitsIn(|data|, L, room)
    ensures BufsIn(bufs, PutData(mem, bufs, i, data))
    ensures GetData(PutData(mem, bufs, i, data), bufs, i, |data|) == data
    ensures forall j :: 0 <= j < |bufs| && room <= Ahead(i, j, |bufs|) ==>
              PutData(mem, bufs, i, data)[bufs[j].addr] == mem[bufs[j].addr]
    decreases room
  {
    hide PutData, GetData, RingAdd, Overlay, FitsIn;
    var n := if |data| > L then L else |data|;
    PutStep(mem, bufs, i, data, n);
    FitsStep(|data|, L, room);
    var b := bufs[i];
    OverlayFront(mem[b.addr], data, n);
    var mem' := mem[b.addr := Overlay(mem[b.addr], data[..n])];
    if |data| > L {
      var next := RingAdd(i, 1, |bufs|);
      RingNext(i, |bufs|);
      GetPut(mem', bufs, next, data[L..], L, room - 1);
      var out := PutData(mem', bufs, next, data[L..]);
      assert out[b.addr] == mem'[b.addr];
      GetStep(out, bufs, i, |data|, L);
      forall j | 0 <= j < |bufs| && room <= Ahead(i, j, |bufs|) ensures out[bufs[j].addr] == mem[bufs[j].addr] {
        assert room - 1 <= Ahead(next, j, |bufs|);
        assert j != i;
      }
    } else {
      GetStep(mem', bufs, i, |data|, n);
    }
  }

  lemma RingNext(i: nat, n: nat)
    requires i < n
    ensures RingAdd(i, 1, n) == if i + 1 == n then 0 else i + 1
  {
  }

  lemma MulStep(room: nat, L: nat)
    requires room * L > L
    ensures room >= 2 && (room - 1) * L == room * L - L
  {
  }

  /** Dwords of n ring descriptors from ring position idx on, going round the ring. */
  function RingDwords(sub: Subsystem, ring: seq<Desc>, idx: nat, n: nat): (r: seq<u32>)
    requires Ring(sub, ring)
    ensures |r| == At(sub, n)
  {
    if n == 0 then []
    else
      DecodeEncode(sub, ring[(idx + n - 1) % |ring|]);
      RingDwords(sub, ring, idx, n - 1) + Encode(ring[(idx + n - 1) % |ring|])
  }

  lemma OneMore(sub: Subsystem, ring: seq<Desc>, front: seq<u32>, k: nat)
    requires Cyclic(sub, ring, front) && |front| == At(sub, k)
    ensures |Encode(ring[k % |ring|])| == Dw(sub)
    ensures Cyclic(sub, ring, front + Encode(ring[k % |ring|]))
  {
    var d := ring[k % |ring|];
    DecodeEncode(sub, d);
    var all := front + Encode(d);
    forall j | 0 <= j < |all| ensures all[j] == CyclicDword(sub, ring, j) {
      if j >= |front| {
        DwordOf(sub, ring, k, j - |front|);
      } else {
        assert front[j] == CyclicDword(sub, ring, j);
      }
    }
  }

  lemma RingDwordsStep(sub: Subsystem, ring: seq<Desc>, idx: nat, n: nat)
    requires Ring(sub, ring)
    ensures RingDwords(sub, ring, idx, 0) == []
    ensures n > 0 ==> RingDwords(sub, ring, idx, n) == RingDwords(sub, ring, idx, n - 1) + Encode(ring[(idx + n - 1) % |ring|])
  {
  }

  /** Posting from where the ring stands continues the infinite cyclic stream. */
  lemma {:induction false} PostContinues(sub: Subsystem, ring: seq<Desc>, stream: seq<u32>, w: nat, n: nat)
    requires Ring(sub, ring) && Cyclic(sub, ring, stream) && |stream| == At(sub, w)
    ensures Cyclic(sub, ring, stream + RingDwords(sub, ring, w % |ring|, n))
  {
    hide Cyclic, RingDwords, Encode;
    var idx := w % |ring|;
    RingDwordsStep(sub, ring, idx, n);
    if n == 0 {
      assert stream + [] == stream;
    } else {
      PostContinues(sub, ring, stream, w, n - 1);
      var dws := RingDwords(sub, ring, idx, n - 1);
      ModAdd(w, n - 1, |ring|);
      var last := Encode(ring[(w + n - 1) % |ring|]);
      OneMore(sub, ring, stream + dws, w + n - 1);
      assert (stream + dws) + last == stream + (dws + last);
    }
  }

  lemma {:induction false} RingSplit(sub: Subsystem, ring: seq<Desc>, idx: nat, p: nat, q: nat)
    requires Ring(sub, ring)
    ensures RingDwords(sub, ring, idx, p + q) ==
            RingDwords(sub, ring, idx, p) + RingDwords(sub, ring, (idx + p) % |ring|, q)
    decreases q
  {
    hide RingDwords, Encode;
    var idx' := (idx + p) % |ring|;
    RingDwordsStep(sub, ring, idx, p + q);
    RingDwordsStep(sub, ring, idx', q);
    var x := RingDwords(sub, ring, idx, p);
    if q == 0 {
      assert x + [] == x;
    } else {
      RingSplit(sub, ring, idx, p, q - 1);
      ModAdd(idx + p, q - 1, |ring|);
      var y, z := RingDwords(sub, ring, idx', q - 1), Encode(ring[(idx + p + q - 1) % |ring|]);
      assert (x + y) + z == x + (y + z);
    }
  }

  /** The first m whole descriptors and e dwords of the next. */
  lemma RingPart(sub: Subsystem, ring: seq<Desc>, idx: nat, m: nat, n: nat, e: nat)
    requires Ring(sub, ring) && idx < |ring| && m < n && e <= Dw(sub)
    ensures |Encode(ring[(idx + m) % |ring|])| == Dw(sub)
    ensures At(sub, m) + e <= At(sub, n)
    ensures RingDwords(sub, ring, idx, n)[..At(sub, m) + e] ==
            RingDwords(sub, ring, idx, m) + Encode(ring[(idx + m) % |ring|])[..e]
  {
    hide RingDwords, Encode, At;
    var d := ring[(idx + m) % |ring|];
    DecodeEncode(sub, d);
    var rest := n - (m + 1);
    RingSplit(sub, ring, idx, m + 1, rest);
    RingDwordsStep(sub, ring, idx, m + 1);
    TakePart(RingDwords(sub, ring, idx, m), Encode(d), RingDwords(sub, ring, (idx + (m + 1)) % |ring|, rest), e);
    AtLess(sub, m, n);
  }

  lemma AtLess(sub: Subsystem, m: nat, n: nat)
    requires m < n
    ensures At(sub, m) + Dw(sub) <= At(sub, n)
  {
  }

  lemma TakePart(x: seq<u32>, d: seq<u32>, tail: seq<u32>, e: nat)
    requires e <= |d|
    ensures ((x + d) + tail)[..|x| + e] == x + d[..e]
  {
  }

  lemma PartIs(a: Shared, m: Shared, b: Shared, sub: Subsystem, dws: seq<u32>, k: nat)
    requires k < |dws| && Posted(a, m, sub, dws[..k]) && Reaches(m, b)
    ensures PostedPart(a, b, sub, dws, k)
  {
    hide Posted, Reaches;
  }

  lemma PostedNone(a: Shared, sub: Subsystem)
    ensures Posted(a, a, sub, [])
  {
  }

  lemma PartBound(a: Shared, b: Shared, sub: Subsystem, dws: seq<u32>, k: nat)
    requires PostedPart(a, b, sub, dws, k)
    ensures k < |dws|
  {
  }

  /** Effect of a post on the card: all dwords out, or cut short after `done` of them. */
  ghost predicate PostOutcome(a: Shared, b: Shared, sub: Subsystem, ring: seq<Desc>, idx: nat, n: nat, ret: int, done: nat)
    requires Ring(sub, ring)
  {
    var dws := RingDwords(sub, ring, idx, n);
    if ret == 0 then Posted(a, b, sub, dws) else PostedPart(a, b, sub, dws, done)
  }

  /** A run of descriptors posted after others, as part of a post of num. */
  lemma PostBatch(a: Shared, m: Shared, b: Shared, sub: Subsystem, ring: seq<Desc>, idx: nat, posted: nat, batch: nat,
                  num: nat, ret: int, done: nat)
    requires Ring(sub, ring) && idx < |ring| && posted + batch <= num
    requires Posted(a, m, sub, RingDwords(sub, ring, idx, posted))
    requires PostOutcome(m, b, sub, ring, RingAdd(idx, posted, |ring|), batch, ret, done)
    ensures ret == 0 ==> Posted(a, b, sub, RingDwords(sub, ring, idx, posted + batch))
    ensures ret == 0 ==> RingAdd(RingAdd(idx, posted, |ring|), batch, |ring|) == RingAdd(idx, posted + batch, |ring|)
    ensures ret != 0 ==> PostedPart(a, b, sub, RingDwords(sub, ring, idx, num), At(sub, posted) + done)
  {
    hide Posted, PostedPart, RingDwords, Encode, At, RingAdd;
    var front, next := RingDwords(sub, ring, idx, posted), RingDwords(sub, ring, RingAdd(idx, posted, |ring|), batch);
    RingFrom(sub, ring, idx, posted, batch);
    if ret != 0 {
      PartBound(m, b, sub, next, done);
      var rest := num - posted - batch;
      RingFrom(sub, ring, idx, posted + batch, rest);
      TakePart(front, next, RingDwords(sub, ring, RingAdd(idx, posted + batch, |ring|), rest), done);
      PartAfter(a, m, b, sub, front, next, done, RingDwords(sub, ring, idx, num));
    } else {
      PostedTwice(a, m, b, sub, front, next);
    }
  }

  lemma RingFrom(sub: Subsystem, ring: seq<Desc>, idx: nat, p: nat, q: nat)
    requires Ring(sub, ring)
    ensures RingDwords(sub, ring, idx, p + q) ==
            RingDwords(sub, ring, idx, p) + RingDwords(sub, ring, RingAdd(idx, p, |ring|), q)
    ensures RingAdd(RingAdd(idx, p, |ring|), q, |ring|) == RingAdd(idx, p + q, |ring|)
  {
    hide RingDwords;
    RingSplit(sub, ring, idx, p, q);
    ModAdd(idx + p, q, |ring|);
    assert (idx + p) + q == idx + (p + q);
  }

  lemma RingNone(idx: nat, n: nat)
    requires idx < n
    ensures RingAdd(idx, 0, n) == idx
  {
    ModSmall(idx, n);
  }

  /** What was poked is what the stream grew by, whatever the card did in between. */
  lemma {:induction false} PostedStream(a: Shared, b: Shared, sub: Subsystem, dws: seq<u32>)
    requires Posted(a, b, sub, dws)
    ensures ChanOf(b, sub).stream == ChanOf(a, sub).stream + dws
    decreases |dws|
  {
    hide Posted, Reaches;
    PostedStep(a, b, sub, dws);
    var st := ChanOf(a, sub).stream;
    if dws == [] {
      assert st + [] == st;
    } else {
      var front, last := dws[..|dws| - 1], dws[|dws| - 1];
      var m, m' :| Posted(a, m, sub, front) && Reaches(m, m') && b == Push(m', sub, last);
      PostedStream(a, m, sub, front);
      CardGrows(m, m');
      assert (st + front) + [last] == st + dws;
    }
  }

  lemma {:induction false} GrowsAll(s: Shared, acts: seq<Action>)
    ensures Grows(s, RunAll(s, acts))
    decreases |acts|
  {
    hide Apply;
    if acts != [] {
      GrowsApply(s, acts[0]);
      GrowsAll(Apply(s, acts[0]), acts[1..]);
    }
  }

  lemma CardGrows(a: Shared, b: Shared)
    requires Reaches(a, b)
    ensures Grows(a, b)
  {
    hide Grows, RunAll;
    var acts :| b == RunAll(a, acts);
    GrowsAll(a, acts);
  }

  /** Posting refines an infinite cyclic list. If w descriptors were posted so far and the
      ring stands at w modulo its size, then after posting any number n more, even more
      than the ring holds, the card frames ring[0], ring[1], ... going round the ring, and
      the ring stands at w + n modulo its size. */
  lemma PostCycles(a: Shared, b: Shared, sub: Subsystem, ring: seq<Desc>, w: nat, n: nat)
    requires Ring(sub, ring) && Cyclic(sub, ring, ChanOf(a, sub).stream) && |ChanOf(a, sub).stream| == At(sub, w)
    requires Posted(a, b, sub, RingDwords(sub, ring, w % |ring|, n))
    ensures Cyclic(sub, ring, ChanOf(b, sub).stream) && |ChanOf(b, sub).stream| == At(sub, w + n)
    ensures RingAdd(w % |ring|, n, |ring|) == (w + n) % |ring|
    ensures forall k :: 0 <= k < Whole(sub, ChanOf(b, sub).stream) ==> DescAt(sub, ChanOf(b, sub).stream, k) == ring[k % |ring|]
  {
    hide Posted, RingDwords, Cyclic;
    PostedStream(a, b, sub, RingDwords(sub, ring, w % |ring|, n));
    PostContinues(sub, ring, ChanOf(a, sub).stream, w, n);
    ModAdd(w, n, |ring|);
    var stream := ChanOf(b, sub).stream;
    forall k | 0 <= k < Whole(sub, stream) ensures DescAt(sub, stream, k) == ring[k % |ring|] {
      CyclicDecodes(sub, ring, stream, k);
    }
  }

  /** Posts of ns[0], ns[1], ... descriptors one after the other from ring position `at` on,
      with any card activity before, between and after them. */
  ghost predicate PostRun(a: Shared, b: Shared, sub: Subsystem, ring: seq<Desc>, at: nat, ns: seq<nat>)
    requires Ring(sub, ring) && at < |ring|
    decreases |ns|
  {
    if ns == [] then Reaches(a, b)
    else
      exists m, m' ::
        Reaches(a, m) && Posted(m, m', sub, RingDwords(sub, ring, at, ns[0]))
        && PostRun(m', b, sub, ring, RingAdd(at, ns[0], |ring|), ns[1..])
  }

  function Sum(ns: seq<nat>): nat { if ns == [] then 0 else ns[0] + Sum(ns[1..]) }

  /** The same over any sequence of posts. */
  lemma {:induction false} PostRunCycles(a: Shared, b: Shared, sub: Subsystem, ring: seq<Desc>, w: nat, ns: seq<nat>)
    requires Ring(sub, ring) && Cyclic(sub, ring, ChanOf(a, sub).stream) && |ChanOf(a, sub).stream| == At(sub, w)
    requires PostRun(a, b, sub, ring, w % |ring|, ns)
    ensures Cyclic(sub, ring, ChanOf(b, sub).stream) && |ChanOf(b, sub).stream| == At(sub, w + Sum(ns))
    ensures forall k :: 0 <= k < Whole(sub, ChanOf(b, sub).stream) ==> DescAt(sub, ChanOf(b, sub).stream, k) == ring[k % |ring|]
    decreases |ns|
  {
    hide Posted, RingDwords, Cyclic, Reaches;
    if ns == [] {
      CardGrows(a, b);
      forall k | 0 <= k < Whole(sub, ChanOf(b, sub).stream) ensures DescAt(sub, ChanOf(b, sub).stream, k) == ring[k % |ring|] {
        CyclicDecodes(sub, ring, ChanOf(b, sub).stream, k);
      }
    } else {
      var m, m' :| Reaches(a, m) && Posted(m, m', sub, RingDwords(sub, ring, w % |ring|, ns[0]))
                   && PostRun(m', b, sub, ring, RingAdd(w % |ring|, ns[0], |ring|), ns[1..]);
      CardGrows(a, m);
      PostCycles(m, m', sub, ring, w, ns[0]);
      PostRunCycles(m', b, sub, ring, w + ns[0], ns[1..]);
    }
  }

  const FPGA_ERR_SOFTWARE_PROBLEM := 24

  class DmaBuffer {
    const sub: Subsystem
    const card: Card
    var descs: seq<Desc>
    var numDesc: nat
    var buffers: seq<Buffer>
    var numBuffers: nat
    var pktSize: nat
    var currentBufferIndex: nat
    var currDescIndexToPost: nat

    constructor (sub: Subsystem, card: Card)
      ensures this.sub == sub && this.card == card
    {
      this.sub, this.card := sub, card;
      descs, numDesc, buffers, numBuffers := [], 0, [], 0;
      pktSize, currentBufferIndex, currDescIndexToPost := 0, 0, 0;
    }

    ghost predicate Valid()
      reads this
    {
      && numDesc == |descs| && Ring(sub, descs) && currDescIndexToPost < numDesc
      && numBuffers == |buffers| && Table(buffers) && currentBufferIndex < numBuffers
    }

    /** sde_dma_buffer_init for the MULTI layout, over the buffers of sde_mem: one for
        every descriptor, each one packet long. */
    method Init(pktSize: u32, addrs: seq<u64>)
      modifies this
      ensures |buffers| == |addrs| && numBuffers == |addrs| && numDesc == SDE_NUM_DESC && this.pktSize == pktSize
      ensures forall i :: 0 <= i < |addrs| ==> buffers[i] == Buffer(addrs[i], pktSize)
    {
      descs, numDesc := [], SDE_NUM_DESC;
      this.pktSize := pktSize;
      currentBufferIndex, currDescIndexToPost := 0, 0;
      buffers := [];
      var i := 0;
      while i < |addrs|
        invariant 0 <= i <= |addrs| && |buffers| == i && numDesc == SDE_NUM_DESC && this.pktSize == pktSize
        invariant forall k :: 0 <= k < i ==> buffers[k] == Buffer(addrs[k], pktSize)
      {
        buffers := buffers + [Buffer(addrs[i], pktSize)];
        i := i + 1;
      }
      numBuffers := |buffers|;
    }

    /** sde_dma_init_desc_buffer: fill the ring and rewind both indices. */
    method InitDescBuffer() returns (ret: int)
      requires numBuffers == |buffers|
      modifies this
      ensures ret == 0 <==> numBuffers != 0
      ensures buffers == old(buffers) && numBuffers == old(numBuffers) && numDesc == old(numDesc) && pktSize == old(pktSize)
      ensures ret == 0 ==> currDescIndexToPost == 0 && currentBufferIndex == 0 && |descs| == numDesc
      ensures ret == 0 ==> forall i :: 0 <= i < numDesc ==> descs[i] == RingDesc(sub, buffers, i)
      ensures ret != 0 ==> unchanged(this)
    {
      if numBuffers == 0 { return FPGA_ERR_SOFTWARE_PROBLEM; }
      if sub.C2H? { InitC2h(); } else { InitH2c(); }
      currDescIndexToPost := 0;
      currentBufferIndex := 0;
      return 0;
    }

    method InitC2h()
      requires sub.C2H? && numBuffers == |buffers| > 0
      modifies this`descs
      ensures |descs| == numDesc
      ensures forall i :: 0 <= i < numDesc ==> descs[i] == RingDesc(sub, buffers, i)
    {
      descs := [];
      var i := 0;
      while i < numDesc
        invariant 0 <= i <= numDesc && |descs| == i
        invariant forall k :: 0 <= k < i ==> descs[k] == RingDesc(sub, buffers, k)
      {
        var b := buffers[i % numBuffers];
        descs := descs + [C2hDesc(b.length, b.addr, 0)];
        i := i + 1;
      }
    }

    /** Every descriptor ends a packet (EOP set, SPB clear); its user word carries
        the running start nibble and the next one. */
    method InitH2c()
      requires sub.H2C? && numBuffers == |buffers| > 0
      modifies this`descs
      ensures |descs| == numDesc
      ensures forall i :: 0 <= i < numDesc ==> descs[i] == RingDesc(sub, buffers, i)
    {
      descs := [];
      var currentDw: u32 := START_DOUBLE_WORD;
      var nextDw := NextStartDw(currentDw);
      NextNibble(1);
      var i := 0;
      while i < numDesc
        invariant 0 <= i <= numDesc && |descs| == i
        invariant currentDw == NibbleDw(if i == 0 then 1 else i)
        invariant nextDw == NextStartDw(currentDw)
        invariant forall k :: 0 <= k < i ==> descs[k] == RingDesc(sub, buffers, k)
      {
        var b := buffers[i % numBuffers];
        if i != 0 {
          NextNibble(i);
          currentDw := nextDw;
          nextDw := NextStartDw(currentDw);
        }
        NextNibble(i + 1);
        descs := descs + [H2cDesc(b.length, b.addr, 1, 0, Join(currentDw, nextDw))];
        i := i + 1;
      }
    }

    /** Inner loop of sde_hw_post_descriptor: the dwords of one descriptor. */
    method PokeDesc(d: Desc) returns (ret: int, ghost done: nat)
      requires Kind(sub, d)
      modifies card
      ensures ret == 0 ==> Posted(old(card.s), card.s, sub, Encode(d))
      ensures ret != 0 ==> PostedPart(old(card.s), card.s, sub, Encode(d), done)
    {
      hide Encode, Posted, PostedPart, Push, Reaches;
      DecodeEncode(sub, d);
      PostedNone(card.s, sub);
      var dwords := Encode(d);
      assert dwords[..0] == [];
      var w := 0;
      done := 0;
      while w < Dw(sub)
        invariant 0 <= w <= Dw(sub) == |dwords|
        invariant Posted(old(card.s), card.s, sub, dwords[..w])
      {
        ghost var m := card.s;
        ret := card.Poke(sub, dwords[w]);
        if ret != 0 {
          PartIs(old(card.s), m, card.s, sub, dwords, w);
          done := w;
          return;
        }
        ghost var m' :| Reaches(m, m') && card.s == Push(m', sub, dwords[w]);
        PostedMore(old(card.s), m, m', sub, dwords[..w], dwords[w]);
        assert dwords[..w] + [dwords[w]] == dwords[..w + 1];
        w := w + 1;
      }
      assert dwords[..w] == dwords;
      ret := 0;
    }

    /** sde_hw_post_descriptor: poke the dwords of count descriptors of the ring, one
        after the other, until one poke fails. */
    method HwPost(from: nat, count: nat) returns (ret: int, ghost done: nat)
      requires Valid() && from + count <= numDesc && from < numDesc
      modifies card
      ensures ret == 0 ==> Posted(old(card.s), card.s, sub, RingDwords(sub, descs, from, count))
      ensures ret != 0 ==> PostedPart(old(card.s), card.s, sub, RingDwords(sub, descs, from, count), done)
    {
      hide Posted, PostedPart, RingDwords, Encode;
      ghost var a := card.s;
      PostedNone(a, sub);
      RingDwordsStep(sub, descs, from, 0);
      var d := 0;
      while d < count
        invariant 0 <= d <= count
        invariant Posted(a, card.s, sub, RingDwords(sub, descs, from, d))
      {
        ghost var m := card.s;
        ghost var front := RingDwords(sub, descs, from, d);
        DecodeEncode(sub, descs[from + d]);
        ModSmall(from + d, |descs|);
        ret, done := PokeDesc(descs[from + d]);
        if ret != 0 {
          PartBound(m, card.s, sub, Encode(descs[from + d]), done);
          RingPart(sub, descs, from, d, count, done);
          PartAfter(a, m, card.s, sub, front, Encode(descs[from + d]), done, RingDwords(sub, descs, from, count));
          done := At(sub, d) + done;
          return;
        }
        PostedTwice(a, m, card.s, sub, front, Encode(descs[from + d]));
        RingDwordsStep(sub, descs, from, d + 1);
        d := d + 1;
      }
      ret, done := 0, 0;
    }

    /** sde_dma_post_desc: post num descriptors from the ring position on, in runs
        that stop at the end of the ring. */
    method PostDesc(num: nat) returns (ret: int, ghost done: nat)
      requires Valid()
      modifies card, this`currDescIndexToPost
      ensures Valid()
      ensures PostOutcome(old(card.s), card.s, sub, descs, old(currDescIndexToPost), num, ret, done)
      ensures ret == 0 ==> currDescIndexToPost == RingAdd(old(currDescIndexToPost), num, numDesc)
    {
      hide Posted, PostedPart, RingDwords, RingAdd, At;
      ghost var a := card.s;
      ghost var idx := currDescIndexToPost;
      PostedNone(a, sub);
      RingDwordsStep(sub, descs, idx, 0);
      RingNone(idx, |descs|);
      var posted := 0;
      done := 0;
      while posted < num
        invariant 0 <= posted <= num && Valid() && idx < |descs|
        invariant Posted(a, card.s, sub, RingDwords(sub, descs, idx, posted))
        invariant currDescIndexToPost == RingAdd(idx, posted, |descs|)
      {
        var available := numDesc - currDescIndexToPost;
        var remaining := num - posted;
        var batch := if remaining > available then available else remaining;
        ghost var m := card.s;
        ret, done := HwPost(currDescIndexToPost, batch);
        PostBatch(a, m, card.s, sub, descs, idx, posted, batch, num, ret, done);
        if ret != 0 {
          done := At(sub, posted) + done;
          return;
        }
        currDescIndexToPost := RingAdd(currDescIndexToPost, batch, numDesc);
        posted := posted + batch;
      }
      ret := 0;
    }

    /** sde_dma_write_data: copy into one buffer after the other. */
    method WriteData(data: Bytes)
      requires Valid() && BufsIn(buffers, card.s.mem)
      modifies card, this`currentBufferIndex
      ensures Valid()
      ensures card.s == old(card.s).(mem := PutData(old(card.s.mem), buffers, old(currentBufferIndex), data))
      ensures currentBufferIndex == NextIndex(buffers, old(currentBufferIndex), |data|)
    {
      hide PutData, NextIndex, BufsIn, RingAdd;
      ghost var s0, i0 := card.s, currentBufferIndex;
      var rest := data;
      var first := true;
      while first || |rest| > 0
        invariant Valid() && BufsIn(buffers, card.s.mem) && card.s == s0.(mem := card.s.mem)
        invariant first ==> rest == data
        invariant PutData(s0.mem, buffers, i0, data) ==
                  if first || |rest| > 0 then PutData(card.s.mem, buffers, currentBufferIndex, rest) else card.s.mem
        invariant NextIndex(buffers, i0, |data|) ==
                  if first || |rest| > 0 then NextIndex(buffers, currentBufferIndex, |rest|) else currentBufferIndex
        decreases first, |rest|
      {
        first := false;
        var b := buffers[currentBufferIndex];
        var n := if b.length > |rest| then |rest| else b.length;
        PutStep(card.s.mem, buffers, currentBufferIndex, rest, n);
        card.s := card.s.(mem := card.s.mem[b.addr := Overlay(card.s.mem[b.addr], rest[..n])]);
        rest := rest[n..];
        currentBufferIndex := RingAdd(currentBufferIndex, 1, numBuffers);
      }
    }

    /** sde_dma_read_data: copy out of one buffer after the other. */
    method ReadData(size: nat) returns (data: Bytes)
      requires Valid() && BufsIn(buffers, card.s.mem)
      modifies this`currentBufferIndex
      ensures Valid()
      ensures data == GetData(card.s.mem, buffers, old(currentBufferIndex), size)
      ensures currentBufferIndex == NextIndex(buffers, old(currentBufferIndex), size)
    {
      hide GetData, NextIndex, BufsIn, RingAdd, Overlay;
      ghost var mem, i0 := card.s.mem, currentBufferIndex;
      data := [];
      var rest := size;
      var first := true;
      while first || rest > 0
        invariant Valid() && BufsIn(buffers, mem) && 0 <= rest && (first ==> rest == size)
        invariant GetData(mem, buffers, i0, size) ==
                  data + if first || rest > 0 then GetData(mem, buffers, currentBufferIndex, rest) else []
        invariant NextIndex(buffers, i0, size) ==
                  if first || rest > 0 then NextIndex(buffers, currentBufferIndex, rest) else currentBufferIndex
        decreases first, rest
      {
        first := false;
        var b := buffers[currentBufferIndex];
        var n := if b.length > rest then rest else b.length;
        GetTurn(mem, buffers, i0, size, data, currentBufferIndex, rest, n);
        data := data + card.s.mem[b.addr][..n];
        rest := rest - n;
        currentBufferIndex := RingAdd(currentBufferIndex, 1, numBuffers);
      }
    }
  }
}
