/** The data path of one loopback transfer: what the host spreads over the H2C
    buffers is what it gathers from the payloads that landed. */
module SdeLoopback {
  import opened Bits
  import opened SdeDesc
  import opened SdeCard
  import opened SdeDmaBuffer
  import opened SdeRun
  import opened Modular

  ghost predicate Agree(bufs: seq<Buffer>, m1: map<u64, Bytes>, m2: map<u64, Bytes>) {
    && BufsIn(bufs, m1) && BufsIn(bufs, m2)
    && forall i :: 0 <= i < |bufs| ==> m1[bufs[i].addr] == m2[bufs[i].addr]
  }

  predicate Uniform(bufs: seq<Buffer>, L: nat) {
    L > 0 && |bufs| > 0 && forall i :: 0 <= i < |bufs| ==> bufs[i].length == L
  }

  /** Memory after the first piece of data went into buffer i. */
  function PutOne(mem: map<u64, Bytes>, bufs: seq<Buffer>, i: nat, chunk: Bytes): map<u64, Bytes>
    requires i < |bufs| && BufsIn(bufs, mem)
  {
    mem[bufs[i].addr := Overlay(mem[bufs[i].addr], chunk)]
  }

  lemma PutOneIn(bufs: seq<Buffer>, mem: map<u64, Bytes>, i: nat, chunk: Bytes)
    requires i < |bufs| && BufsIn(bufs, mem) && |chunk| <= bufs[i].length
    ensures BufsIn(bufs, PutOne(mem, bufs, i, chunk))
  {
  }

  lemma {:induction false} PutAgree(bufs: seq<Buffer>, L: nat, m1: map<u64, Bytes>, m2: map<u64, Bytes>, i: nat, data: Bytes)
    requires Uniform(bufs, L) && i < |bufs| && Agree(bufs, m1, m2)
    ensures Agree(bufs, PutData(m1, bufs, i, data), PutData(m2, bufs, i, data))
    decreases |data|
  {
    if |data| > L {
      var c := data[..L];
      PutAgree(bufs, L, PutOne(m1, bufs, i, c), PutOne(m2, bufs, i, c), RingAdd(i, 1, |bufs|), data[L..]);
    }
  }

  /** One turn of the sde_mgmt_prepare_write loop, with the card having changed other
      memory in between, against the whole copy. */
  lemma PutTurn(bufs: seq<Buffer>, L: nat, goal: map<u64, Bytes>, m: map<u64, Bytes>, m': map<u64, Bytes>, i: nat, rest: Bytes, n: nat)
    requires Uniform(bufs, L) && i < |bufs|
    requires BufsIn(bufs, m) && Agree(bufs, goal, PutData(m, bufs, i, rest)) && Agree(bufs, m, m')
    requires |rest| > 0 && n == if L < |rest| then L else |rest|
    ensures PutData(m', bufs, i, rest[..n]) == PutOne(m', bufs, i, rest[..n])
    ensures BufsIn(bufs, PutOne(m', bufs, i, rest[..n]))
    ensures if n < |rest| then
              Agree(bufs, goal, PutData(PutOne(m', bufs, i, rest[..n]), bufs, RingAdd(i, 1, |bufs|), rest[n..]))
            else Agree(bufs, goal, PutOne(m', bufs, i, rest[..n]))
    ensures NextIndex(bufs, i, |rest|) == if n < |rest| then NextIndex(bufs, RingAdd(i, 1, |bufs|), |rest| - n) else RingAdd(i, 1, |bufs|)
  {
    PutOneIn(bufs, m', i, rest[..n]);
    PutAgree(bufs, L, m, m', i, rest);
    if n == |rest| { assert rest[..n] == rest; }
  }

  lemma {:induction false} GetAgree(bufs: seq<Buffer>, L: nat, m1: map<u64, Bytes>, m2: map<u64, Bytes>, i: nat, size: nat)
    requires Uniform(bufs, L) && i < |bufs| && Agree(bufs, m1, m2)
    ensures GetData(m1, bufs, i, size) == GetData(m2, bufs, i, size)
    decreases size
  {
    if size > L { GetAgree(bufs, L, m1, m2, RingAdd(i, 1, |bufs|), size - L); }
  }

  /** The host writing one H2C buffer disturbs nothing that was delivered. */
  lemma PutOneInv(v: View, s: Shared, i: nat, chunk: Bytes, hb: nat, cb: nat)
    requires Inv(v, s, hb, cb, false) && i < |v.h2cBufs| && BufsIn(v.h2cBufs, s.mem) && |chunk| <= v.h2cBufs[i].length
    ensures Inv(v, s.(mem := PutOne(s.mem, v.h2cBufs, i, chunk)), hb, cb, false)
  {
  }

  // ---- Gathering ------------------------------------------------------------------

  lemma {:induction false} FlattenCons(p: Bytes, ps: seq<Bytes>)
    ensures Flatten([p] + ps) == p + Flatten(ps)
    decreases |ps|
  {
    var all := [p] + ps;
    if ps == [] {
      assert all[..|all| - 1] == [] && all[|all| - 1] == p;
      assert Flatten(all) == [] + p;
    } else {
      FlattenCons(p, ps[..|ps| - 1]);
      assert all[..|all| - 1] == [p] + ps[..|ps| - 1];
    }
  }

  lemma {:induction false} FlattenLength(ps: seq<Bytes>, L: nat)
    requires forall i :: 0 <= i < |ps| ==> |ps[i]| == L
    ensures |Flatten(ps)| == |ps| * L
    decreases |ps|
  {
    if ps != [] {
      FlattenLength(ps[..|ps| - 1], L);
      assert |ps| * L == (|ps| - 1) * L + L;
    }
  }

  /** The packets that stand in the H2C buffers from buffer Slot(base) on. */
  function Packets(mem: map<u64, Bytes>, bufs: seq<Buffer>, base: nat, n: nat): (ps: seq<Bytes>)
    requires |bufs| == SDE_NUM_DESC && BufsIn(bufs, mem)
    ensures |ps| == n
  {
    seq(n, i requires 0 <= i => mem[bufs[Slot(base + i)].addr])
  }

  /** Reading the buffers in order is reading the packets one after the other. */
  lemma PacketsFirst(mem: map<u64, Bytes>, bufs: seq<Buffer>, base: nat, n: nat)
    requires |bufs| == SDE_NUM_DESC && BufsIn(bufs, mem) && n > 0
    ensures Packets(mem, bufs, base, n) == [mem[bufs[Slot(base)].addr]] + Packets(mem, bufs, base + 1, n - 1)
  {
  }

  lemma {:induction false} GetIsFlatten(mem: map<u64, Bytes>, bufs: seq<Buffer>, L: nat, base: nat, n: nat, size: nat)
    requires |bufs| == SDE_NUM_DESC && Uniform(bufs, L) && BufsIn(bufs, mem)
    requires 0 < size && n == BuffersUsed(L, size)
    ensures size <= |Flatten(Packets(mem, bufs, base, n))|
    ensures GetData(mem, bufs, Slot(base), size) == Flatten(Packets(mem, bufs, base, n))[..size]
    decreases size
  {
    hide Flatten, Packets, GetData, Slot, RingAdd;
    SlotBound(base);
    SlotNext(base, 1);
    var rest := Packets(mem, bufs, base + 1, n - 1);
    var p := mem[bufs[Slot(base)].addr];
    GetStep(mem, bufs, Slot(base), size, if size > L then L else size);
    PacketsFirst(mem, bufs, base, n);
    FlattenCons(p, rest);
    if size > L {
      assert p[..L] == p;
      GetIsFlatten(mem, bufs, L, base + 1, n - 1, size - L);
      FrontMore(p, Flatten(rest), size - L);
    } else {
      FrontWithin(p, Flatten(rest), size);
    }
  }

  lemma FrontWithin(x: Bytes, y: Bytes, n: nat)
    requires n <= |x|
    ensures (x + y)[..n] == x[..n]
  {
  }

  /** The whole data path on the host side: put, then read back as packets. */
  lemma PacketsCarry(mem: map<u64, Bytes>, goal: map<u64, Bytes>, start: map<u64, Bytes>, bufs: seq<Buffer>, L: nat,
                     base: nat, n: nat, data: Bytes)
    requires |bufs| == SDE_NUM_DESC && Uniform(bufs, L)
    requires forall j, k :: 0 <= j < k < |bufs| ==> bufs[j].addr != bufs[k].addr
    requires BufsIn(bufs, start) && goal == PutData(start, bufs, Slot(base), data) && Agree(bufs, goal, mem)
    requires 0 < |data| <= SDE_NUM_DESC * L && n == BuffersUsed(L, |data|)
    ensures |data| <= |Flatten(Packets(mem, bufs, base, n))|
    ensures Flatten(Packets(mem, bufs, base, n))[..|data|] == data
  {
    GetPut(start, bufs, Slot(base), data, L, SDE_NUM_DESC);
    GetAgree(bufs, L, goal, mem, Slot(base), |data|);
    GetIsFlatten(mem, bufs, L, base, n, |data|);
  }

  /** How many payloads of one size a read of 1 <= size bytes takes. */
  lemma CutCount(p: nat, L: nat, size: nat)
    requires p > 0 && L > 0 && (p - 1) * L < size <= p * L
    ensures (size + L - 1) / L == p
  {
    assert (p - 1) * L == p * L - L;
    DivModUnique(size + L - 1, L, p, size + L - 1 - p * L);
  }

  /** End of a loopback transfer: what was read is what was written, exactly the
      transfer's own packets were taken, and nothing of it is left on the way. */
  lemma ReadBack(v: View, s: Shared, base: nat, n: nat, pkts: seq<Bytes>, L: nat, rd: Bytes, size: nat, hb: nat, cb: nat)
    requires L > 0 && Inv(v, s, hb, cb, false) && Transfer(v, s, base, pkts) && |pkts| == n == BuffersUsed(L, size)
    requires forall i :: 0 <= i < n ==> |pkts[i]| == L
    requires size > 0 && |rd| == size && ReadSoFar(s, base, rd, size)
    ensures s.bufRead == s.mdRead == base + n == |s.fetched| == Whole(H2C, s.h2c.stream)
    ensures size <= |Flatten(pkts)| && rd == Flatten(pkts)[..size]
  {
    hide Multi, Cyclic, MdWindow, LogOk, BufWindow, PiecesFit, MemOk;
    var p := s.bufRead - base;
    var got := s.landed[base..s.bufRead];
    forall i | 0 <= i < p ensures got[i] == pkts[i] {
      assert s.landed[base + i] == s.fetched[base + i];
    }
    FlattenLength(got, L);
    FlattenLength(got[..p - 1], L);
    assert got[..p - 1] == s.landed[base..s.bufRead - 1];
    CutCount(p, L, size);
    BuffersUsedIs(L, size);
    assert got == pkts;
  }

  /** Before anything is posted, the packets the host has just laid out are the transfer. */
  lemma TransferBegins(v: View, s: Shared, base: nat, n: nat, hb: nat, cb: nat)
    requires Inv(v, s, hb, cb, false) && Transfer(v, s, base, []) && n <= SDE_NUM_DESC
    requires |v.h2cBufs| == SDE_NUM_DESC && BufsIn(v.h2cBufs, s.mem)
    ensures Transfer(v, s, base, Packets(s.mem, v.h2cBufs, base, n))
  {
  }

  lemma RingOf(v: View, sub: Subsystem)
    requires Multi(v)
    ensures Ring(sub, if sub.C2H? then v.c2hRing else v.h2cRing)
    ensures |if sub.C2H? then v.c2hRing else v.h2cRing| == SDE_NUM_DESC
  {
  }

  lemma CyclicOf(v: View, s: Shared, sub: Subsystem, base: nat, pkts: seq<Bytes>)
    requires |v.h2cBufs| == SDE_NUM_DESC && MemOk(v, s.mem) && Transfer(v, s, base, pkts)
    ensures Cyclic(sub, if sub.C2H? then v.c2hRing else v.h2cRing, ChanOf(s, sub).stream)
  {
  }

  /** Posting n ring descriptors in the course of a transfer: the credit was there at
      m, and neither side is led past the transfer's window. */
  lemma PostStage(v: View, a: Shared, m: Shared, b: Shared, sub: Subsystem, dws: seq<u32>, w: nat, n: nat,
                  hb: nat, cb: nat, base: nat, pkts: seq<Bytes>)
    requires Inv(v, a, hb, cb, false) && Transfer(v, a, base, pkts) && Reaches(a, m) && Posted(m, b, sub, dws)
    requires var ring := if sub.C2H? then v.c2hRing else v.h2cRing;
             Ring(sub, ring) && |ring| == SDE_NUM_DESC && dws == RingDwords(sub, ring, Slot(w), n)
    requires |ChanOf(a, sub).stream| == At(sub, w)
    requires BoundOf(sub, hb, cb) + n <= ChanOf(m, sub).limit
    requires if sub.C2H? then w + n <= a.bufRead + SDE_NUM_DESC else w + n <= base + |pkts|
    ensures Inv(v, b, if sub.H2C? then hb + n else hb, if sub.C2H? then cb + n else cb, false)
    ensures Transfer(v, b, base, pkts)
    ensures |ChanOf(b, sub).stream| == At(sub, w + n)
    ensures sub.H2C? ==> b.c2h.stream == a.c2h.stream
    ensures sub.C2H? ==> b.h2c.stream == a.h2c.stream
    ensures b.bufRead == a.bufRead && b.mdRead == a.mdRead
  {
    hide Order, Posted, Reaches, Multi, MemOk, Transfer, Cyclic, RingDwords, Credit;
    var hb', cb' := if sub.H2C? then hb + n else hb, if sub.C2H? then cb + n else cb;
    InvParts(v, a, hb, cb, false);
    KeepTransfer(v, a, m, hb, cb, false, base, pkts);
    InvParts(v, m, hb, cb, false);
    CreditsInHand(v, m, hb, cb, sub, n);
    CyclicOf(v, m, sub, base, pkts);
    PostContinues(sub, if sub.C2H? then v.c2hRing else v.h2cRing, ChanOf(m, sub).stream, w, n);
    PostedTransfer(v, m, b, sub, dws, hb', cb', base, pkts);
    PostedInv(v, m, b, sub, dws, hb', cb');
  }

  /** The descriptors of a post went out with the credit for them in hand. */
  ghost predicate PostedWithCredit(a: Shared, b: Shared, sub: Subsystem, dws: seq<u32>, needed: nat) {
    exists m :: Reaches(a, m) && Posted(m, b, sub, dws) && needed <= ChanOf(m, sub).limit
  }

  lemma CreditsInHand(v: View, m: Shared, hb: nat, cb: nat, sub: Subsystem, n: nat)
    requires Inv(v, m, hb, cb, false) && BoundOf(sub, hb, cb) + n <= ChanOf(m, sub).limit
    ensures Inv(v, m, if sub.H2C? then hb + n else hb, if sub.C2H? then cb + n else cb, false)
    ensures |ChanOf(m, sub).stream| <= At(sub, BoundOf(sub, hb, cb))
  {
  }
}
