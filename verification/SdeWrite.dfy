/** One turn of the loop of sde_mgmt_prepare_write on the shared state: the card runs,
    then the host fills the next H2C buffer. */
module SdeWrite {
  import opened Bits
  import opened SdeDesc
  import opened SdeCard
  import opened SdeDmaBuffer
  import opened SdeRun
  import opened SdeLoopback
  import opened SdeRead
  import opened Modular

  lemma UsedTurn(L: nat, size: nat, n: nat)
    requires L > 0 && size > 0 && n == if L < size then L else size
    ensures BuffersUsed(L, size) == 1 + if n == size then 0 else BuffersUsed(L, size - n)
  {
  }

  lemma RingAddNone(i: nat)
    requires i < 64
    ensures RingAdd(i, 0, 64) == i
  {
  }

  lemma RingAddOne(i: nat, k: nat)
    ensures RingAdd(RingAdd(i, k, 64), 1, 64) == RingAdd(i, k + 1, 64)
  {
  }

  lemma GrowsStreams(a: Shared, b: Shared)
    requires Grows(a, b)
    ensures b.h2c.stream == a.h2c.stream && b.c2h.stream == a.c2h.stream
  {
  }

  lemma UniformAt(bufs: seq<Buffer>, L: nat, i: nat)
    requires Uniform(bufs, L) && i < |bufs|
    ensures bufs[i].length == L
  {
  }

  /** What memory will be once the rest has been put from buffer i on. */
  function Left(mem: map<u64, Bytes>, bufs: seq<Buffer>, i: nat, rest: Bytes): map<u64, Bytes>
    requires Table(bufs) && i < |bufs| && BufsIn(bufs, mem)
  {
    if rest == [] then mem else PutData(mem, bufs, i, rest)
  }

  /** The H2C buffers are on the way to hold what `goal` says. */
  ghost predicate Filling(v: View, s: Shared, i: nat, rest: Bytes, goal: map<u64, Bytes>) {
    && Table(v.h2cBufs) && i < |v.h2cBufs| && BufsIn(v.h2cBufs, s.mem)
    && Agree(v.h2cBufs, goal, Left(s.mem, v.h2cBufs, i, rest))
  }

  lemma AgreeSelf(bufs: seq<Buffer>, m: map<u64, Bytes>)
    requires BufsIn(bufs, m)
    ensures Agree(bufs, m, m)
  {
  }

  lemma {:induction false} PutIn(bufs: seq<Buffer>, mem: map<u64, Bytes>, i: nat, data: Bytes)
    requires Table(bufs) && i < |bufs| && BufsIn(bufs, mem)
    ensures BufsIn(bufs, PutData(mem, bufs, i, data))
    decreases |data|
  {
    if |data| > bufs[i].length {
      PutStep(mem, bufs, i, data, bufs[i].length);
      PutIn(bufs, PutOne(mem, bufs, i, data[..bufs[i].length]), RingAdd(i, 1, |bufs|), data[bufs[i].length..]);
    }
  }

  lemma FillBegins(v: View, s: Shared, i: nat, data: Bytes, L: nat, hb: nat, cb: nat)
    requires Inv(v, s, hb, cb, false) && Uniform(v.h2cBufs, L) && Uniform(v.c2hBufs, L) && i < 64 && |data| > 0
    ensures Table(v.h2cBufs) && |v.h2cBufs| == 64 && BufsIn(v.h2cBufs, s.mem)
    ensures Filling(v, s, i, data, PutData(s.mem, v.h2cBufs, i, data))
  {
    hide Inv, Agree, Table, BufsIn;
    TableOf(v, s, hb, cb, L);
    PutIn(v.h2cBufs, s.mem, i, data);
    AgreeSelf(v.h2cBufs, PutData(s.mem, v.h2cBufs, i, data));
  }

  lemma FillEnds(v: View, s: Shared, i: nat, goal: map<u64, Bytes>)
    requires Filling(v, s, i, [], goal)
    ensures Agree(v.h2cBufs, goal, s.mem)
  {
  }

  /** The card leaves the H2C buffers alone while only ring descriptors were posted. */
  lemma CardAgrees(v: View, a: Shared, b: Shared, hb: nat, cb: nat)
    requires Inv(v, a, hb, cb, false) && Reaches(a, b) && Cyclic(C2H, v.c2hRing, a.c2h.stream)
    ensures Agree(v.h2cBufs, a.mem, b.mem)
  {
    hide Cyclic, Credit, MdWindow, LogOk, InitialisedRing, Distinct, RunAll;
    var acts :| b == RunAll(a, acts);
    KeepH2cMem(v, a, acts);
  }

  lemma FillStep(v: View, a: Shared, b: Shared, i: nat, rest: Bytes, n: nat, L: nat, goal: map<u64, Bytes>, hb: nat, cb: nat)
    requires Inv(v, a, hb, cb, false) && Reaches(a, b) && Cyclic(C2H, v.c2hRing, a.c2h.stream)
    requires Uniform(v.h2cBufs, L) && Uniform(v.c2hBufs, L) && i < 64 == |v.h2cBufs|
    requires |rest| > 0 && n == if L < |rest| then L else |rest|
    requires Filling(v, a, i, rest, goal) && BufsIn(v.h2cBufs, b.mem)
    ensures Filling(v, b.(mem := PutOne(b.mem, v.h2cBufs, i, rest[..n])), RingAdd(i, 1, 64), rest[n..], goal)
  {
    hide Inv, Agree, Cyclic, Reaches, PutData, PutOne;
    CardAgrees(v, a, b, hb, cb);
    PutTurn(v.h2cBufs, L, goal, a.mem, b.mem, i, rest, n);
    if n == |rest| { assert rest[n..] == []; }
  }

  /** What the turn does whatever was posted: invariants, indices, the transfer. */
  lemma FillKeeps(v: View, a: Shared, b: Shared, i: nat, chunk: Bytes, L: nat, hb: nat, cb: nat)
    requires Inv(v, a, hb, cb, false) && Reaches(a, b)
    requires Uniform(v.h2cBufs, L) && Uniform(v.c2hBufs, L) && i < 64 && 0 < |chunk| <= L
    ensures Inv(v, b, hb, cb, false) && Grows(a, b)
    ensures |v.h2cBufs| == 64 && Table(v.h2cBufs) && BufsIn(v.h2cBufs, b.mem)
    ensures PutData(b.mem, v.h2cBufs, i, chunk) == PutOne(b.mem, v.h2cBufs, i, chunk)
    ensures NextIndex(v.h2cBufs, i, |chunk|) == RingAdd(i, 1, 64)
    ensures Inv(v, b.(mem := PutOne(b.mem, v.h2cBufs, i, chunk)), hb, cb, false)
  {
    hide Inv, Reaches, Table, BufsIn, PutOne, Grows;
    KeepInv(v, a, b, hb, cb, false);
    TableOf(v, b, hb, cb, L);
    PutStep(b.mem, v.h2cBufs, i, chunk, |chunk|);
    OneBuffer(b.mem, v.h2cBufs, i, chunk);
    PutOneInv(v, b, i, chunk, hb, cb);
  }

  lemma OneBuffer(mem: map<u64, Bytes>, bufs: seq<Buffer>, i: nat, chunk: Bytes)
    requires Table(bufs) && i < |bufs| && BufsIn(bufs, mem) && |chunk| <= bufs[i].length
    ensures PutData(mem, bufs, i, chunk) == PutOne(mem, bufs, i, chunk)
  {
  }

  /** Filling buffers between two transfers does not disturb the card's side. */
  lemma FillTransfer(v: View, a: Shared, b: Shared, i: nat, chunk: Bytes, hb: nat, cb: nat, base: nat)
    requires Inv(v, a, hb, cb, false) && Reaches(a, b) && Transfer(v, a, base, [])
    requires i < |v.h2cBufs| && BufsIn(v.h2cBufs, b.mem) && |chunk| <= v.h2cBufs[i].length
    ensures var d := b.(mem := PutOne(b.mem, v.h2cBufs, i, chunk));
            Inv(v, d, hb, cb, false) && Multi(v) && MemOk(v, d.mem) && Transfer(v, d, base, [])
  {
    hide Inv, Reaches, Cyclic, Near, Multi, MemOk, BufsIn;
    InvParts(v, a, hb, cb, false);
    KeepTransfer(v, a, b, hb, cb, false, base, []);
    InvParts(v, b, hb, cb, false);
    PutOneInv(v, b, i, chunk, hb, cb);
    var d := b.(mem := PutOne(b.mem, v.h2cBufs, i, chunk));
    InvParts(v, d, hb, cb, false);
    NearMem(b, d.mem);
  }

  lemma NearMem(s: Shared, mem: map<u64, Bytes>)
    requires Near(s)
    ensures Near(s.(mem := mem))
  {
  }
}
