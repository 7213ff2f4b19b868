/** One turn of the loop of sde_mgmt_read_data on the shared state: take a metadata
    entry, let the card run, copy the payload it announces. */
module SdeRead {
  import opened Bits
  import opened SdeDesc
  import opened SdeCard
  import opened SdeDmaBuffer
  import opened SdeRun
  import opened SdeLoopback
  import opened SdeProgress
  import opened Modular

  /** From a, entry md was taken (b), the card ran on (c), and the host copied n bytes,
      which frees the buffers it went through (d). */
  ghost predicate Turn(v: View, a: Shared, b: Shared, c: Shared, d: Shared, md: Md, L: nat, n: nat) {
    && L > 0 && TookMd(a, b, Slot(a.mdRead), md) && Reaches(b, c)
    && d == c.(bufRead := c.bufRead + BuffersUsed(L, n))
  }

  /** Nothing was overwritten before the host got to it. */
  predicate NoOverrun(s: Shared) { !s.mdOverrun && !s.bufOverrun }

  /** The state of a read that started at entry `start`, for a stream of ring descriptors. */
  ghost predicate Reading(v: View, s: Shared, start: nat, data: Bytes, size: nat) {
    NoOverrun(s) ==> ReadSoFar(s, start, data, size)
  }

  lemma TurnKeeps(v: View, a: Shared, b: Shared, c: Shared, d: Shared, md: Md, L: nat, n: nat, hb: nat, cb: nat)
    requires Inv(v, a, hb, cb, false) && Turn(v, a, b, c, d, md, L, n)
    ensures Inv(v, c, hb, cb, false) && Inv(v, d, hb, cb, false)
    ensures b.bufRead == c.bufRead == a.bufRead && d.bufRead == a.bufRead + BuffersUsed(L, n)
    ensures b.mdRead == c.mdRead == d.mdRead == a.mdRead + 1
    ensures d.c2h.stream == c.c2h.stream == a.c2h.stream && d.h2c.stream == a.h2c.stream
    ensures NoOverrun(d) ==> NoOverrun(a) && NoOverrun(c)
    ensures NoOverrun(d) ==> a.mdRead < |c.mdLog| && md == c.mdLog[a.mdRead]
    ensures a.landed <= c.landed && d.landed == c.landed
  {
    hide Inv, TookMd, Reaches;
    MdFifo(v, a, b, md, hb, cb);
    KeepInv(v, b, c, hb, cb, false);
    ReleaseInv(v, c, hb, cb, BuffersUsed(L, n));
  }

  /** Every turn leaves fewer entries to come, so the loop ends. */
  lemma TurnPending(v: View, a: Shared, b: Shared, c: Shared, d: Shared, md: Md, L: nat, n: nat)
    requires Turn(v, a, b, c, d, md, L, n)
    ensures Pending(d) < Pending(a)
  {
    hide TookMd, Reaches;
    PendingTook(a, b, Slot(a.mdRead), md);
    PendingReaches(b, c);
  }

  lemma UniformPos(bufs: seq<Buffer>, L: nat)
    requires Uniform(bufs, L)
    ensures L > 0
  {
  }

  lemma {:induction false} LengthOf(mem: map<u64, Bytes>, bufs: seq<Buffer>, i: nat, size: nat)
    requires Table(bufs) && i < |bufs| && BufsIn(bufs, mem)
    ensures |GetData(mem, bufs, i, size)| == size
    decreases size
  {
    if size > bufs[i].length { LengthOf(mem, bufs, RingAdd(i, 1, |bufs|), size - bufs[i].length); }
  }

  /** Where the buffer index stands after copying n bytes from the buffer of entry k. */
  lemma NextIs(v: View, L: nat, k: nat, n: nat)
    requires Table(v.c2hBufs) && Uniform(v.c2hBufs, L) && |v.c2hBufs| == 64
    ensures Slot(k) < 64
    ensures NextIndex(v.c2hBufs, Slot(k), n) == Slot(k + BuffersUsed(L, n))
  {
    SlotBound(k);
    NextIndexIs(v.c2hBufs, Slot(k), L, n);
    SlotNext(k, BuffersUsed(L, n));
  }

  lemma ReadBegins(v: View, s: Shared, hb: nat, cb: nat, size: nat)
    requires Inv(v, s, hb, cb, false) && s.bufRead == s.mdRead && size > 0
    ensures Reading(v, s, s.mdRead, [], size)
  {
  }

  lemma LogLength(v: View, s: Shared, hb: nat, cb: nat, k: nat)
    requires Inv(v, s, hb, cb, false) && k < |s.mdLog|
    ensures k < |s.landed| && s.mdLog[k].length == |s.landed[k]|
  {
  }

  lemma PieceFits(v: View, s: Shared, hb: nat, cb: nat, L: nat, k: nat)
    requires Inv(v, s, hb, cb, false) && Cyclic(C2H, v.c2hRing, s.c2h.stream) && Uniform(v.c2hBufs, L) && k < |s.landed|
    ensures |s.landed[k]| <= L
  {
  }

  lemma TableOf(v: View, s: Shared, hb: nat, cb: nat, L: nat)
    requires Inv(v, s, hb, cb, false) && Uniform(v.c2hBufs, L) && Uniform(v.h2cBufs, L)
    ensures Table(v.c2hBufs) && Table(v.h2cBufs) && BufsIn(v.c2hBufs, s.mem) && BufsIn(v.h2cBufs, s.mem)
    ensures |v.c2hBufs| == |v.h2cBufs| == 64
  {
  }

  /** The turn adds the next payload, or the part of it that was still asked for, and
      goes through exactly one buffer, in step with the metadata. */
  lemma TurnReads(v: View, a: Shared, b: Shared, c: Shared, d: Shared, md: Md, L: nat, n: nat, hb: nat, cb: nat,
                  start: nat, data: Bytes, size: nat)
    requires Inv(v, a, hb, cb, false) && Turn(v, a, b, c, d, md, L, n)
    requires Uniform(v.c2hBufs, L) && Uniform(v.h2cBufs, L) && Cyclic(C2H, v.c2hRing, a.c2h.stream)
    requires |data| < size && n == (if md.length < size - |data| then md.length else size - |data|)
    requires Reading(v, a, start, data, size)
    requires Table(v.c2hBufs) && BufsIn(v.c2hBufs, c.mem) && |v.c2hBufs| == 64
    ensures Reading(v, d, start, data + GetData(c.mem, v.c2hBufs, Slot(c.bufRead), n), size)
  {
    hide Inv, Cyclic, Uniform, Table, BufsIn, Turn, GetData, Flatten, ReadSoFar;
    TurnKeeps(v, a, b, c, d, md, L, n, hb, cb);
    if NoOverrun(d) {
      var k := a.bufRead;
      ReadingStart(a, start, data, size);
      LogLength(v, c, hb, cb, k);
      PieceFits(v, c, hb, cb, L, k);
      CopyPiece(v, c, hb, cb, n);
      ReadStep(a, c, start, data, size, n);
      UsedOne(v, a, b, c, d, md, L, n, k);
    }
  }

  lemma ReadingStart(s: Shared, start: nat, data: Bytes, size: nat)
    requires ReadSoFar(s, start, data, size)
    ensures s.bufRead == s.mdRead
  {
  }

  lemma UsedOne(v: View, a: Shared, b: Shared, c: Shared, d: Shared, md: Md, L: nat, n: nat, k: nat)
    requires Turn(v, a, b, c, d, md, L, n) && n <= L && c.bufRead == k
    ensures d == c.(bufRead := k + 1)
  {
  }

  /** A transfer under way survives the turn. */
  lemma TurnTransfer(v: View, a: Shared, b: Shared, c: Shared, d: Shared, md: Md, L: nat, n: nat, hb: nat, cb: nat,
                     base: nat, pkts: seq<Bytes>)
    requires Inv(v, a, hb, cb, false) && Turn(v, a, b, c, d, md, L, n) && Transfer(v, a, base, pkts)
    requires NoOverrun(d) ==> d.bufRead == d.mdRead
    ensures Inv(v, d, hb, cb, false) && Multi(v) && MemOk(v, d.mem) && Transfer(v, d, base, pkts)
  {
    hide Inv, Transfer, MemOk, Multi, TookMd, Reaches;
    TurnKeeps(v, a, b, c, d, md, L, n, hb, cb);
    InvParts(v, a, hb, cb, false);
    MdTransfer(v, a, b, md, hb, cb, base, pkts);
    InvParts(v, b, hb, cb, false);
    KeepTransfer(v, b, c, hb, cb, false, base, pkts);
    InvParts(v, c, hb, cb, false);
    InvParts(v, d, hb, cb, false);
    TransferNear(v, c, base, pkts);
    ReleaseTransfer(v, c, base, pkts, BuffersUsed(L, n));
  }

  lemma TransferNear(v: View, s: Shared, base: nat, pkts: seq<Bytes>)
    requires Multi(v) && MemOk(v, s.mem) && Transfer(v, s, base, pkts)
    ensures NoOverrun(s)
  {
  }

  lemma ReleaseTransfer(v: View, s: Shared, base: nat, pkts: seq<Bytes>, used: nat)
    requires Multi(v) && MemOk(v, s.mem) && Transfer(v, s, base, pkts) && s.bufRead + used <= s.mdRead
    ensures Transfer(v, s.(bufRead := s.bufRead + used), base, pkts)
  {
  }

  /** Everything a turn does, for a read of ring descriptors (aligned) and for one that is
      part of a transfer under way (moving). */
  lemma WholeTurn(v: View, a: Shared, b: Shared, c: Shared, d: Shared, md: Md, L: nat, n: nat, hb: nat, cb: nat,
                  start: nat, data: Bytes, size: nat, aligned: bool, moving: bool, base: nat, pkts: seq<Bytes>)
    requires Inv(v, a, hb, cb, false) && TookMd(a, b, Slot(a.mdRead), md) && Reaches(b, c)
    requires Uniform(v.c2hBufs, L) && Uniform(v.h2cBufs, L)
    requires d == c.(bufRead := c.bufRead + BuffersUsed(L, n))
    requires |data| < size && n == (if md.length < size - |data| then md.length else size - |data|)
    requires aligned ==> Cyclic(C2H, v.c2hRing, a.c2h.stream) && Reading(v, a, start, data, size)
    requires moving ==> aligned && |v.h2cBufs| == 64 && MemOk(v, a.mem) && Transfer(v, a, base, pkts)
    ensures Table(v.c2hBufs) && BufsIn(v.c2hBufs, c.mem) && Slot(c.bufRead) < 64 == |v.c2hBufs| == |v.h2cBufs| && MemOk(v, d.mem)
    ensures |GetData(c.mem, v.c2hBufs, Slot(c.bufRead), n)| == n
    ensures NextIndex(v.c2hBufs, Slot(c.bufRead), n) == Slot(d.bufRead)
    ensures Inv(v, d, hb, cb, false) && Pending(d) < Pending(a)
    ensures b.mdRead == d.mdRead && b.bufRead == c.bufRead
    ensures d.c2h.stream == a.c2h.stream && d.h2c.stream == a.h2c.stream
    ensures aligned ==> Reading(v, d, start, data + GetData(c.mem, v.c2hBufs, Slot(c.bufRead), n), size)
    ensures moving ==> Transfer(v, d, base, pkts)
  {
    hide Inv, Cyclic, Uniform, Table, BufsIn, GetData, ReadSoFar, Transfer, Multi, MemOk, TookMd, Reaches, NextIndex, BuffersUsed;
    UniformPos(v.c2hBufs, L);
    TurnKeeps(v, a, b, c, d, md, L, n, hb, cb);
    TurnPending(v, a, b, c, d, md, L, n);
    TableOf(v, c, hb, cb, L);
    InvParts(v, d, hb, cb, false);
    NextIs(v, L, c.bufRead, n);
    LengthOf(c.mem, v.c2hBufs, Slot(c.bufRead), n);
    if aligned {
      TurnReads(v, a, b, c, d, md, L, n, hb, cb, start, data, size);
      if moving {
        var got := data + GetData(c.mem, v.c2hBufs, Slot(c.bufRead), n);
        if NoOverrun(d) { ReadingStart(d, start, got, size); }
        TurnTransfer(v, a, b, c, d, md, L, n, hb, cb, base, pkts);
      }
    }
  }
}
