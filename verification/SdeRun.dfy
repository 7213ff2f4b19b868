/** What the host's own steps do to the shared state, and the facts a run of the
    driver rests on: exact credits, the metadata FIFO, in-order delivery. */
module SdeRun {
  import opened Bits
  import opened SdeDesc
  import opened SdeCard
  import opened SdeDmaBuffer
  import opened Modular

  // ---- Credits --------------------------------------------------------------------

  function Wrap32(x: nat): u32 { x % 0x1_0000_0000 }

  /** desc_consumed += n on a 32-bit counter. */
  function Add32(x: u32, n: nat): u32 { (x + n) % 0x1_0000_0000 }

  lemma WrapAdd(x: nat, n: nat)
    ensures Wrap32(x + n) == Add32(Wrap32(x), n)
  {
  }

  /** credits_available: the 32-bit difference of the two rolling counters. */
  function Credits(limit: u32, consumed: u32): nat {
    (limit - consumed) % 0x1_0000_0000
  }

  /** However often both counters have wrapped and however late the write-back is,
      the 32-bit difference is the true number of credits. */
  lemma CreditsExact(sub: Subsystem, ch: Chan, consumed: nat)
    requires Credit(sub, ch, consumed)
    ensures Credits(Wrap32(ch.limit), Wrap32(consumed)) == ch.limit - consumed <= RAM_DEPTH
  {
    hide Wrap32, Credits;
    CreditBoundsRam(sub, ch, consumed);
    WrapDifference(ch.limit, consumed);
  }

  lemma WrapDifference(x: nat, y: nat)
    requires y <= x < y + 0x1_0000_0000
    ensures Credits(Wrap32(x), Wrap32(y)) == x - y
  {
    var w := 0x1_0000_0000;
    var a, b := x / w, y / w;
    assert x % w - y % w == (x - y) + (b - a) * w;
    DivModUnique(x % w - y % w, w, b - a, x - y);
  }

  /** sde_mgmt_reset puts the limit back to 64 but leaves the consumed counter: the
      credits seen after it are the 64 free places of the RAM exactly when nothing
      had been posted, or the posts had wrapped round to zero. */
  lemma CreditsAfterReset(consumed: nat)
    ensures Credits(64, Wrap32(consumed)) == RAM_DEPTH <==> consumed % 0x1_0000_0000 == 0
    ensures Credits(64, Wrap32(consumed)) <= RAM_DEPTH <==> consumed % 0x1_0000_0000 <= 64
  {
  }

  lemma GrowsCounters(a: Shared, b: Shared)
    requires Grows(a, b)
    ensures b.mdRead == a.mdRead && b.bufRead == a.bufRead
  {
  }

  lemma InvCredit(v: View, s: Shared, hb: nat, cb: nat, sub: Subsystem)
    requires Inv(v, s, hb, cb, false)
    ensures Credit(sub, ChanOf(s, sub), BoundOf(sub, hb, cb))
  {
  }

  lemma RaiseBound(v: View, s: Shared, hb: nat, cb: nat, hb': nat, cb': nat)
    requires Inv(v, s, hb, cb, false)
    requires hb <= hb' <= s.h2c.limit && cb <= cb' <= s.c2h.limit
    ensures Inv(v, s, hb', cb', false)
  {
  }

  /** A post within credit, complete or cut short by a failing poke. */
  lemma PostKeeps(v: View, a: Shared, b: Shared, sub: Subsystem, dws: seq<u32>, k: nat, ok: bool, hb: nat, cb: nat, n: nat)
    requires Inv(v, a, hb, cb, false)
    requires if ok then Posted(a, b, sub, dws) else PostedPart(a, b, sub, dws, k)
    requires |dws| == At(sub, n) && BoundOf(sub, hb, cb) + n <= ChanOf(a, sub).limit
    ensures sub.H2C? ==> Inv(v, b, hb + n, cb, false)
    ensures sub.C2H? ==> Inv(v, b, hb, cb + n, false)
    ensures b.mdRead == a.mdRead && b.bufRead == a.bufRead
    ensures ok ==> Appended(a, b, sub, dws)
  {
    hide Posted, Reaches, Order, Multi;
    var hb', cb' := if sub.H2C? then hb + n else hb, if sub.C2H? then cb + n else cb;
    RaiseBound(v, a, hb, cb, hb', cb');
    if ok {
      PostedInv(v, a, b, sub, dws, hb', cb');
    } else {
      var m :| Posted(a, m, sub, dws[..k]) && Reaches(m, b);
      PostedInv(v, a, m, sub, dws[..k], hb', cb');
      KeepInv(v, m, b, hb', cb', false);
    }
  }

  /** A post for which the credit is there keeps every invariant, charged in full. */
  lemma OutcomeKeeps(v: View, a: Shared, b: Shared, sub: Subsystem, ring: seq<Desc>, idx: nat, n: nat, ret: int, done: nat,
                     hb: nat, cb: nat)
    requires Inv(v, a, hb, cb, false) && Ring(sub, ring) && PostOutcome(a, b, sub, ring, idx, n, ret, done)
    requires BoundOf(sub, hb, cb) + n <= ChanOf(a, sub).limit
    ensures sub.H2C? ==> Inv(v, b, hb + n, cb, false)
    ensures sub.C2H? ==> Inv(v, b, hb, cb + n, false)
    ensures b.mdRead == a.mdRead && b.bufRead == a.bufRead
  {
    hide Inv, Posted, PostedPart;
    PostKeeps(v, a, b, sub, RingDwords(sub, ring, idx, n), done, ret == 0, hb, cb, n);
  }

  // ---- Metadata -------------------------------------------------------------------

  /** The host writes 0 to the status word of a ring slot. */
  function ClearSlot(s: Shared, i: nat): Shared
    requires i < |s.md|
  {
    s.(md := s.md[i := s.md[i].(status := 0)])
  }

  /** The accesses of sde_mgmt_read_md from the poll that saw the valid bit on, each
      at its own instant: valid bit, status, length, clearing the status, user word. */
  ghost predicate MdTrace(a: Shared, s0: Shared, s1: Shared, s2: Shared, s3: Shared, s4: Shared, b: Shared, i: nat, m: Md) {
    && Reaches(a, s0) && Reaches(s0, s1) && Reaches(s1, s2) && Reaches(s2, s3)
    && i < |s0.md| && i < |s1.md| && i < |s2.md| && i < |s3.md| && i < |s4.md|
    && IsValid(s0.md[i])
    && Reaches(ClearSlot(s3, i), s4)
    && m == Md(s2.md[i].length, s1.md[i].status, s4.md[i].user)
    && b == s4.(mdRead := s4.mdRead + 1)
  }

  ghost predicate TookMd(a: Shared, b: Shared, i: nat, m: Md) {
    exists s0, s1, s2, s3, s4 :: MdTrace(a, s0, s1, s2, s3, s4, b, i, m)
  }

  lemma TookIs(a: Shared, s0: Shared, s1: Shared, s2: Shared, s3: Shared, s4: Shared, b: Shared, i: nat, m: Md)
    requires MdTrace(a, s0, s1, s2, s3, s4, b, i, m)
    ensures TookMd(a, b, i, m)
  {
  }

  lemma SlotBound(k: nat)
    ensures Slot(k) < 64
  {
  }

  lemma SlotNext(k: nat, n: nat)
    ensures RingAdd(Slot(k), n, 64) == Slot(k + n)
  {
  }

  lemma WindowTaken(md: seq<Md>, log: seq<Md>, mdRead: nat)
    requires |md| == NUM_MD && MdWindow(md, log, mdRead, true)
    ensures md[Slot(mdRead)] == log[mdRead].(status := 0)
    ensures MdWindow(md, log, mdRead + 1, false)
  {
  }

  /** What is known of the slot at the read index before, and after, it is cleared. */
  lemma HeadOfRing(v: View, s: Shared, i: nat)
    requires Order(v, s, false) && i == Slot(s.mdRead)
    ensures i < |s.md|
    ensures IsValid(s.md[i]) && !s.mdOverrun ==> s.mdRead < |s.mdLog| && s.md[i] == s.mdLog[s.mdRead]
    ensures IsValid(s.md[i]) || s.mdOverrun ==> Order(v, ClearSlot(s, i), true)
  {
    hide Delivered, MemOk, LogOk, MdWindow;
    if IsValid(s.md[i]) && !s.mdOverrun { HeadOfWindow(s.md, s.mdLog, s.mdRead); }
    if IsValid(s.md[i]) || s.mdOverrun { DeliveredClear(v, s, i); }
  }

  lemma HeadOfWindow(md: seq<Md>, log: seq<Md>, mdRead: nat)
    requires |md| == NUM_MD && MdWindow(md, log, mdRead, false) && IsValid(md[Slot(mdRead)])
    ensures mdRead < |log| && md[Slot(mdRead)] == log[mdRead]
    ensures MdWindow(md[Slot(mdRead) := md[Slot(mdRead)].(status := 0)], log, mdRead, true)
  {
  }

  lemma DeliveredClear(v: View, s: Shared, i: nat)
    requires |v.c2hBufs| == SDE_NUM_DESC && MemOk(v, s.mem) && Delivered(v, s) && i < |s.md|
    ensures MemOk(v, ClearSlot(s, i).mem) && Delivered(v, ClearSlot(s, i))
  {
    hide Cyclic, PiecesFit, BufWindow, MemOk;
  }

  lemma ClearInv(v: View, s: Shared, i: nat, hb: nat, cb: nat)
    requires Inv(v, s, hb, cb, false) && i == Slot(s.mdRead) && i < |s.md|
    requires IsValid(s.md[i]) || s.mdOverrun
    ensures Inv(v, ClearSlot(s, i), hb, cb, true)
  {
    hide Multi, Credit, Order;
    HeadOfRing(v, s, i);
  }

  lemma TakeInv(v: View, s: Shared, hb: nat, cb: nat)
    requires Inv(v, s, hb, cb, true)
    ensures Inv(v, s.(mdRead := s.mdRead + 1), hb, cb, false)
    ensures |s.md| == NUM_MD
    ensures !s.mdOverrun ==> s.mdRead < |s.mdLog| && s.md[Slot(s.mdRead)] == s.mdLog[s.mdRead].(status := 0)
  {
    hide Multi, Credit;
    if !s.mdOverrun { WindowTaken(s.md, s.mdLog, s.mdRead); }
  }

  /** A slot that was valid stays as it is while the host has not cleared it. */
  lemma HeadStays(v: View, a: Shared, b: Shared, hb: nat, cb: nat, i: nat)
    requires Inv(v, a, hb, cb, false) && Reaches(a, b) && i == Slot(a.mdRead)
    requires i < |a.md| && (IsValid(a.md[i]) || a.mdOverrun)
    ensures Inv(v, b, hb, cb, false) && Grows(a, b)
    ensures i < |b.md| && (IsValid(b.md[i]) || b.mdOverrun)
    ensures !b.mdOverrun ==> a.mdRead < |a.mdLog| && b.md[i] == a.mdLog[a.mdRead]
  {
    KeepInv(v, a, b, hb, cb, false);
    hide Multi, Credit, BufWindow, MemOk, PiecesFit, Cyclic, Reaches;
    HeadOfRing(v, a, i);
    if !b.mdOverrun {
      assert MdWindow(b.md, b.mdLog, b.mdRead, false);
      assert SameEntry(b.md[Slot(b.mdRead)], b.mdLog[b.mdRead], false);
    }
  }

  /** The k-th successful read of the metadata ring returns the k-th entry the card
      wrote, provided the card never was more than 64 entries ahead. */
  lemma MdFifo(v: View, a: Shared, b: Shared, m: Md, hb: nat, cb: nat)
    requires Inv(v, a, hb, cb, false) && TookMd(a, b, Slot(a.mdRead), m)
    ensures Inv(v, b, hb, cb, false) && b.mdRead == a.mdRead + 1
    ensures Grows(a, b.(mdRead := a.mdRead))
    ensures !b.mdOverrun ==> a.mdRead < |b.mdLog| && m == b.mdLog[a.mdRead]
  {
    hide Inv, Reaches, Order;
    var i := Slot(a.mdRead);
    var s0, s1, s2, s3, s4 :| MdTrace(a, s0, s1, s2, s3, s4, b, i, m);
    KeepInv(v, a, s0, hb, cb, false);
    HeadStays(v, s0, s1, hb, cb, i);
    HeadStays(v, s1, s2, hb, cb, i);
    HeadStays(v, s2, s3, hb, cb, i);
    ClearInv(v, s3, i, hb, cb);
    KeepInv(v, ClearSlot(s3, i), s4, hb, cb, true);
    TakeInv(v, s4, hb, cb);
  }

  /** Reading metadata leaves a transfer under way. */
  lemma MdTransfer(v: View, a: Shared, b: Shared, m: Md, hb: nat, cb: nat, base: nat, pkts: seq<Bytes>)
    requires Inv(v, a, hb, cb, false) && TookMd(a, b, Slot(a.mdRead), m)
    requires Transfer(v, a, base, pkts)
    ensures Inv(v, b, hb, cb, false) && Transfer(v, b, base, pkts)
  {
    hide Inv, Reaches, Order, Transfer, MemOk, Multi;
    var i := Slot(a.mdRead);
    var s0, s1, s2, s3, s4 :| MdTrace(a, s0, s1, s2, s3, s4, b, i, m);
    MdFifo(v, a, b, m, hb, cb);
    KeepInv(v, a, s0, hb, cb, false);
    HeadStays(v, s0, s1, hb, cb, i);
    HeadStays(v, s1, s2, hb, cb, i);
    HeadStays(v, s2, s3, hb, cb, i);
    ClearInv(v, s3, i, hb, cb);
    ReachesTwice(a, s0, s1);
    ReachesTwice(a, s1, s2);
    ReachesTwice(a, s2, s3);
    InvParts(v, a, hb, cb, false);
    KeepTransfer(v, a, s3, hb, cb, false, base, pkts);
    InvParts(v, s3, hb, cb, false);
    ClearTransfer(v, s3, i, base, pkts);
    InvParts(v, ClearSlot(s3, i), hb, cb, true);
    KeepTransfer(v, ClearSlot(s3, i), s4, hb, cb, true, base, pkts);
    InvParts(v, s4, hb, cb, true);
    TakeTransfer(v, s4, base, pkts);
    InvParts(v, b, hb, cb, false);
  }

  lemma ClearTransfer(v: View, s: Shared, i: nat, base: nat, pkts: seq<Bytes>)
    requires Multi(v) && MemOk(v, s.mem) && Transfer(v, s, base, pkts) && i < |s.md|
    ensures Transfer(v, ClearSlot(s, i), base, pkts)
  {
  }

  lemma TakeTransfer(v: View, s: Shared, base: nat, pkts: seq<Bytes>)
    requires Multi(v) && MemOk(v, s.mem) && Transfer(v, s, base, pkts)
    ensures Transfer(v, s.(mdRead := s.mdRead + 1), base, pkts)
  {
  }

  // ---- Reading data ---------------------------------------------------------------

  function Flatten(ps: seq<Bytes>): Bytes {
    if ps == [] then [] else Flatten(ps[..|ps| - 1]) + ps[|ps| - 1]
  }

  /** Buffers that a copy of size bytes touches when all are L long. */
  function BuffersUsed(L: nat, size: nat): nat
    requires L > 0
  {
    if size <= L then 1 else 1 + BuffersUsed(L, size - L)
  }

  lemma {:induction false} NextIndexIs(bufs: seq<Buffer>, i: nat, L: nat, size: nat)
    requires Table(bufs) && i < |bufs| && L > 0 && forall j :: 0 <= j < |bufs| ==> bufs[j].length == L
    ensures NextIndex(bufs, i, size) == RingAdd(i, BuffersUsed(L, size), |bufs|)
    decreases size
  {
    if size > L {
      NextIndexIs(bufs, RingAdd(i, 1, |bufs|), L, size - L);
      ModAdd(i + 1, BuffersUsed(L, size - L), |bufs|);
    }
  }

  /** A copy of 1 <= size bytes advances the buffer index by ceil(size / L). */
  lemma {:induction false} BuffersUsedIs(L: nat, size: nat)
    requires L > 0 && size > 0
    ensures BuffersUsed(L, size) == (size + L - 1) / L
    decreases size
  {
    if size <= L {
      DivModUnique(size + L - 1, L, 1, size - 1);
    } else {
      BuffersUsedIs(L, size - L);
      var q, r := (size - 1) / L, (size - 1) % L;
      assert size - 1 == q * L + r;
      DivModUnique(size - L + L - 1, L, q, r);
      assert (q + 1) * L == q * L + L;
      DivModUnique(size + L - 1, L, q + 1, r);
    }
  }

  /** The host took `used` buffers' worth of data off the C2H side. */
  lemma ReleaseInv(v: View, s: Shared, hb: nat, cb: nat, used: nat)
    requires Inv(v, s, hb, cb, false)
    ensures Inv(v, s.(bufRead := s.bufRead + used), hb, cb, false)
  {
  }

  /** A copy from the current buffer yields the payload that landed there. */
  lemma CopyPiece(v: View, s: Shared, hb: nat, cb: nat, size: nat)
    requires Inv(v, s, hb, cb, false) && Cyclic(C2H, v.c2hRing, s.c2h.stream) && !s.bufOverrun
    requires s.bufRead < |s.landed| && size <= |s.landed[s.bufRead]|
    requires Table(v.c2hBufs) && BufsIn(v.c2hBufs, s.mem) && Slot(s.bufRead) < |v.c2hBufs|
    ensures GetData(s.mem, v.c2hBufs, Slot(s.bufRead), size) == s.landed[s.bufRead][..size]
  {
  }

  /** The bytes a read has delivered: whole payloads so far, or the final cut. */
  ghost predicate ReadSoFar(s: Shared, start: nat, data: Bytes, size: nat) {
    && s.bufRead == s.mdRead && start <= s.bufRead <= |s.landed|
    && |data| <= size
    && if |data| < size then data == Flatten(s.landed[start..s.bufRead])
       else
         && |data| <= |Flatten(s.landed[start..s.bufRead])|
         && data == Flatten(s.landed[start..s.bufRead])[..size]
         && (start < s.bufRead ==> |Flatten(s.landed[start..s.bufRead - 1])| < size)
         && (start == s.bufRead ==> size == 0)
  }

  lemma ReadStep(a: Shared, c: Shared, start: nat, data: Bytes, size: nat, n: nat)
    requires ReadSoFar(a, start, data, size) && |data| < size
    requires a.landed <= c.landed && c.bufRead == a.bufRead && c.mdRead == a.mdRead + 1
    requires a.bufRead < |c.landed|
    requires n == if |c.landed[a.bufRead]| < size - |data| then |c.landed[a.bufRead]| else size - |data|
    ensures ReadSoFar(c.(bufRead := a.bufRead + 1), start, data + c.landed[a.bufRead][..n], size)
  {
    hide Flatten;
    var x, k := c.landed, a.bufRead;
    assert x[start..k] == a.landed[start..k];
    FlattenNext(x, start, k);
    FrontMore(data, x[k], n);
  }

  lemma FlattenNext(x: seq<Bytes>, i: nat, k: nat)
    requires i <= k < |x|
    ensures Flatten(x[i..k + 1]) == Flatten(x[i..k]) + x[k]
  {
    var ps := x[i..k + 1];
    assert ps[..|ps| - 1] == x[i..k] && ps[|ps| - 1] == x[k];
  }

  lemma FrontMore(x: Bytes, y: Bytes, n: nat)
    requires n <= |y|
    ensures (x + y)[..|x| + n] == x + y[..n]
    ensures n == |y| ==> y[..n] == y
  {
  }
}
