/** The card as a concurrent peer of the driver. Everything the two sides share
    (descriptor RAMs, DMA memory, metadata ring, credit limits) is one value; the
    card changes it by single actions, and any sequence of actions may happen
    between two accesses of the host. */
module SdeCard {
  import opened SdeDesc
  import opened Bits

  type Bytes = seq<u8>

  const RAM_DEPTH: nat := 64
  const NUM_MD: nat := 64

  /** A metadata entry of the write-back ring. Bit 0 of status is VALID, bit 1 EOP. */
  datatype Md = Md(length: u32, status: u32, user: u64)

  /** Ring slot of the k-th entry, buffer or descriptor: SDE_NUM_DESC, the number of
      metadata entries and of MULTI buffers are all 64. */
  function Slot(k: nat): nat { k % 64 }

  predicate IsValid(m: Md) { m.status % 2 == 1 }

  /** One descriptor channel: the dwords poked so far, how many descriptors have
      left the RAM, the credit limit last written back to the host (unbounded here;
      the host reads it modulo 2^32), and the sticky RAM overflow error. */
  datatype Chan = Chan(stream: seq<u32>, popped: nat, limit: nat, oflow: bool)

  datatype Shared = Shared(
    h2c: Chan, c2h: Chan,
    mem: map<u64, Bytes>,      // DMA buffers by bus address
    loopback: bool,
    fetched: seq<Bytes>,       // packets read from host memory, in order
    landed: seq<Bytes>,        // payloads written to host memory, in order
    mdLog: seq<Md>,            // metadata entries written, in order
    md: seq<Md>,               // the metadata ring in host memory
    mdRead: nat,               // entries the host has taken
    bufRead: nat,              // buffers the host has copied out
    mdOverrun: bool,           // an entry was written more than 64 ahead of mdRead
    bufOverrun: bool)          // a payload landed more than 64 ahead of bufRead

  datatype Action =
    | PopH2c | PopC2h          // the data mover takes a descriptor out of its RAM
    | Fetch                    // ... reads the packet it names
    | Land(piece: Bytes)       // ... writes a payload to the buffer it names
    | WriteMd(eop: bool, user: u64)
    | WriteBack(sub: Subsystem, limit: nat)

  function ChanOf(s: Shared, sub: Subsystem): Chan { if sub.C2H? then s.c2h else s.h2c }

  function Overlay(old_: Bytes, new_: Bytes): Bytes {
    if |new_| <= |old_| then new_ + old_[|new_|..] else new_
  }

  predicate CanFetch(s: Shared) {
    && |s.fetched| < s.h2c.popped <= Whole(H2C, s.h2c.stream)
    && var d := DescAt(H2C, s.h2c.stream, |s.fetched|);
       d.cfgBits % 2 == 1 && d.physAddr in s.mem && d.length <= |s.mem[d.physAddr]|
  }

  predicate CanLand(s: Shared, piece: Bytes) {
    && |s.landed| < s.c2h.popped <= Whole(C2H, s.c2h.stream)
    && (s.loopback ==> |s.landed| < |s.fetched| && piece == s.fetched[|s.landed|])
    && var d := DescAt(C2H, s.c2h.stream, |s.landed|);
       |piece| <= d.length && d.physAddr in s.mem && d.length <= |s.mem[d.physAddr]|
  }

  /** One card action; an action that is not enabled changes nothing. */
  function Apply(s: Shared, a: Action): Shared {
    match a
    case PopH2c =>
      if s.h2c.popped < Whole(H2C, s.h2c.stream)
      then s.(h2c := s.h2c.(popped := s.h2c.popped + 1)) else s
    case PopC2h =>
      if s.c2h.popped < Whole(C2H, s.c2h.stream)
      then s.(c2h := s.c2h.(popped := s.c2h.popped + 1)) else s
    case Fetch =>
      if CanFetch(s) then
        var d := DescAt(H2C, s.h2c.stream, |s.fetched|);
        s.(fetched := s.fetched + [s.mem[d.physAddr][..d.length]])
      else s
    case Land(piece) =>
      if CanLand(s, piece) then
        var addr := DescAt(C2H, s.c2h.stream, |s.landed|).physAddr;
        s.(mem := s.mem[addr := Overlay(s.mem[addr], piece)],
           landed := s.landed + [piece],
           bufOverrun := s.bufOverrun || |s.landed| >= s.bufRead + SDE_NUM_DESC)
      else s
    case WriteMd(eop, user) =>
      if |s.mdLog| < |s.landed| && |s.landed[|s.mdLog|]| < TWO32 && |s.md| == NUM_MD then
        var m := Md(|s.landed[|s.mdLog|]|, if eop then 3 else 1, user);
        s.(md := s.md[Slot(|s.mdLog|) := m],
           mdLog := s.mdLog + [m],
           mdOverrun := s.mdOverrun || |s.mdLog| >= s.mdRead + NUM_MD)
      else s
    case WriteBack(sub, l) =>
      if sub.C2H? then
        if s.c2h.limit <= l <= RAM_DEPTH + s.c2h.popped then s.(c2h := s.c2h.(limit := l)) else s
      else
        if s.h2c.limit <= l <= RAM_DEPTH + s.h2c.popped then s.(h2c := s.h2c.(limit := l)) else s
  }

  function RunAll(s: Shared, acts: seq<Action>): Shared
    decreases |acts|
  {
    if acts == [] then s else RunAll(Apply(s, acts[0]), acts[1..])
  }

  /** b is what some sequence of card actions makes of a. */
  ghost predicate Reaches(a: Shared, b: Shared) {
    exists acts :: b == RunAll(a, acts)
  }

  lemma ReachesSelf(a: Shared)
    ensures Reaches(a, a)
  {
    assert a == RunAll(a, []);
  }

  lemma {:induction false} RunAllAppend(s: Shared, x: seq<Action>, a: Action)
    ensures RunAll(s, x + [a]) == Apply(RunAll(s, x), a)
    decreases |x|
  {
    if x == [] {
      assert [] + [a] == [a];
      assert [a][1..] == [];
    } else {
      assert (x + [a])[0] == x[0] && (x + [a])[1..] == x[1..] + [a];
      RunAllAppend(Apply(s, x[0]), x[1..], a);
    }
  }

  lemma {:induction false} RunAllConcat(s: Shared, x: seq<Action>, y: seq<Action>)
    ensures RunAll(s, x + y) == RunAll(RunAll(s, x), y)
    decreases |x|
  {
    hide Apply;
    if x == [] {
      assert [] + y == y;
    } else {
      assert (x + y)[0] == x[0] && (x + y)[1..] == x[1..] + y;
      RunAllConcat(Apply(s, x[0]), x[1..], y);
    }
  }

  lemma ReachesTwice(a: Shared, b: Shared, c: Shared)
    requires Reaches(a, b) && Reaches(b, c)
    ensures Reaches(a, c)
  {
    var x :| b == RunAll(a, x);
    var y :| c == RunAll(b, y);
    RunAllConcat(a, x, y);
  }

  /** The host pokes one dword into a descriptor RAM. A descriptor completed while
      64 are still in the RAM is lost to the overflow error. */
  function Push(s: Shared, sub: Subsystem, dw: u32): Shared {
    var ch := ChanOf(s, sub);
    var stream := ch.stream + [dw];
    var full := Whole(sub, stream) > Whole(sub, ch.stream) && Whole(sub, ch.stream) >= ch.popped + RAM_DEPTH;
    var ch' := ch.(stream := stream, oflow := ch.oflow || full);
    if sub.C2H? then s.(c2h := ch') else s.(h2c := ch')
  }

  // ---- Invariants ------------------------------------------------------------

  /** The two descriptor rings and buffer tables of a run, as the host set them up. */
  datatype View = View(h2cRing: seq<Desc>, c2hRing: seq<Desc>, h2cBufs: seq<Buffer>, c2hBufs: seq<Buffer>)

  ghost predicate BufsIn(bufs: seq<Buffer>, mem: map<u64, Bytes>) {
    forall i :: 0 <= i < |bufs| ==> bufs[i].addr in mem && |mem[bufs[i].addr]| == bufs[i].length
  }

  ghost predicate Distinct(v: View) {
    && (forall i, j :: 0 <= i < j < |v.h2cBufs| ==> v.h2cBufs[i].addr != v.h2cBufs[j].addr)
    && (forall i, j :: 0 <= i < j < |v.c2hBufs| ==> v.c2hBufs[i].addr != v.c2hBufs[j].addr)
    && (forall i, j :: 0 <= i < |v.h2cBufs| && 0 <= j < |v.c2hBufs| ==> v.h2cBufs[i].addr != v.c2hBufs[j].addr)
  }

  /** MULTI layout: 64 descriptors over 64 buffers on either side. */
  ghost predicate Multi(v: View) {
    && |v.h2cBufs| == |v.c2hBufs| == SDE_NUM_DESC == |v.h2cRing| == |v.c2hRing|
    && InitialisedRing(H2C, v.h2cBufs, v.h2cRing)
    && InitialisedRing(C2H, v.c2hBufs, v.c2hRing)
    && Distinct(v)
  }

  /** Descriptor credit: at most `bound` descriptors have been begun, and the limit
      the host can see covers them without ever exceeding what the card grants. */
  ghost predicate Credit(sub: Subsystem, ch: Chan, bound: nat) {
    && |ch.stream| <= At(sub, bound)
    && ch.popped <= Whole(sub, ch.stream)
    && bound <= ch.limit <= RAM_DEPTH + ch.popped
    && !ch.oflow
  }

  /** The occupancy a descriptor RAM can reach under Credit. */
  lemma CreditBoundsRam(sub: Subsystem, ch: Chan, bound: nat)
    requires Credit(sub, ch, bound)
    ensures ch.popped <= Whole(sub, ch.stream) <= bound <= ch.limit
    ensures Whole(sub, ch.stream) - ch.popped <= RAM_DEPTH
    ensures ch.limit - bound <= RAM_DEPTH
  {
  }

  /** Ring slot and log agree; the slot the host has already cleared keeps the rest. */
  predicate SameEntry(slot: Md, entry: Md, cleared: bool) {
    if cleared then slot == entry.(status := 0) else slot == entry
  }

  /** The metadata ring is the window mdRead.. of the log, everything else invalid. */
  ghost predicate MdWindow(md: seq<Md>, log: seq<Md>, mdRead: nat, clearing: bool)
    requires |md| == NUM_MD
  {
    && mdRead <= |log| <= mdRead + NUM_MD
    && (clearing ==> mdRead < |log|)
    && (forall k :: mdRead <= k < |log| ==> SameEntry(md[Slot(k)], log[k], clearing && k == mdRead))
    && (forall k :: |log| <= k < mdRead + NUM_MD ==> !IsValid(md[Slot(k)]))
  }

  /** Every landed payload the host has not copied out is still in its buffer. */
  ghost predicate BufWindow(mem: map<u64, Bytes>, bufs: seq<Buffer>, landed: seq<Bytes>, bufRead: nat)
    requires |bufs| == SDE_NUM_DESC && BufsIn(bufs, mem)
  {
    && |landed| <= bufRead + SDE_NUM_DESC
    && forall k :: bufRead <= k < |landed| ==> landed[k] <= mem[bufs[Slot(k)].addr]
  }

  /** The metadata log describes the landed payloads, in order. */
  ghost predicate LogOk(log: seq<Md>, landed: seq<Bytes>) {
    && |log| <= |landed|
    && forall k :: 0 <= k < |log| ==> IsValid(log[k]) && log[k].length == |landed[k]|
  }

  ghost predicate PiecesFit(landed: seq<Bytes>, bufs: seq<Buffer>)
    requires |bufs| == SDE_NUM_DESC
  {
    forall k :: 0 <= k < |landed| ==> |landed[k]| <= bufs[Slot(k)].length
  }

  ghost predicate MemOk(v: View, mem: map<u64, Bytes>) {
    BufsIn(v.h2cBufs, mem) && BufsIn(v.c2hBufs, mem)
  }

  /** The payloads in the C2H buffers, as long as only ring descriptors were posted. */
  ghost predicate Delivered(v: View, s: Shared)
    requires |v.c2hBufs| == SDE_NUM_DESC && MemOk(v, s.mem)
  {
    Cyclic(C2H, v.c2hRing, s.c2h.stream) ==>
      && PiecesFit(s.landed, v.c2hBufs)
      && (!s.bufOverrun ==> BufWindow(s.mem, v.c2hBufs, s.landed, s.bufRead))
  }

  /** What holds in every state of a run whatever fails: everything the card
      delivers is in order, and nothing is lost while it is not too far ahead. */
  ghost predicate Order(v: View, s: Shared, clearing: bool) {
    && |v.c2hBufs| == SDE_NUM_DESC
    && MemOk(v, s.mem)
    && |s.md| == NUM_MD
    && |s.landed| <= s.c2h.popped
    && |s.fetched| <= s.h2c.popped
    && (s.loopback ==> s.landed <= s.fetched)
    && LogOk(s.mdLog, s.landed)
    && (!s.mdOverrun ==> MdWindow(s.md, s.mdLog, s.mdRead, clearing))
    && Delivered(v, s)
  }

  // ---- The card keeps the invariants -------------------------------------------

  lemma CreditApply(sub: Subsystem, s: Shared, a: Action, bound: nat)
    requires Credit(sub, ChanOf(s, sub), bound)
    ensures Credit(sub, ChanOf(Apply(s, a), sub), bound)
  {
    hide DescAt, CanLand, CanFetch, Overlay, Whole, At;
  }

  /** What never changes under the card, and what only grows. */
  ghost predicate Grows(a: Shared, b: Shared) {
    && b.h2c.stream == a.h2c.stream && b.c2h.stream == a.c2h.stream
    && b.h2c.oflow == a.h2c.oflow && b.c2h.oflow == a.c2h.oflow
    && a.h2c.limit <= b.h2c.limit && a.c2h.limit <= b.c2h.limit
    && b.loopback == a.loopback && b.mdRead == a.mdRead && b.bufRead == a.bufRead
    && a.fetched <= b.fetched && a.landed <= b.landed && a.mdLog <= b.mdLog
    && (a.mdOverrun ==> b.mdOverrun) && (a.bufOverrun ==> b.bufOverrun)
  }

  lemma GrowsLand(s: Shared, piece: Bytes)
    ensures Grows(s, Apply(s, Land(piece)))
  {
    hide CanFetch, CanLand, DescAt, Overlay, Whole, Slot;
  }

  lemma GrowsFetch(s: Shared)
    ensures Grows(s, Apply(s, Fetch))
  {
    hide CanLand, DescAt, Overlay, Whole, Slot;
  }

  lemma GrowsWriteMd(s: Shared, eop: bool, user: u64)
    ensures Grows(s, Apply(s, WriteMd(eop, user)))
  {
    hide CanFetch, CanLand, DescAt, Overlay, Whole, Slot;
  }

  lemma GrowsPop(s: Shared)
    ensures Grows(s, Apply(s, PopH2c)) && Grows(s, Apply(s, PopC2h))
  {
    hide CanFetch, CanLand, DescAt, Overlay, Whole, Slot;
  }

  lemma GrowsWriteBack(s: Shared, sub: Subsystem, l: nat)
    ensures Grows(s, Apply(s, WriteBack(sub, l)))
  {
    hide CanFetch, CanLand, DescAt, Overlay, Whole, Slot;
  }

  lemma GrowsApply(s: Shared, a: Action)
    ensures Grows(s, Apply(s, a))
  {
    hide Grows, Apply;
    match a
    case Fetch => GrowsFetch(s);
    case Land(piece) => GrowsLand(s, piece);
    case WriteMd(eop, user) => GrowsWriteMd(s, eop, user);
    case PopH2c => GrowsPop(s);
    case PopC2h => GrowsPop(s);
    case WriteBack(sub, l) => GrowsWriteBack(s, sub, l);
  }

  lemma LandMem(v: View, mem: map<u64, Bytes>, addr: u64, piece: Bytes)
    requires MemOk(v, mem) && addr in mem && |piece| <= |mem[addr]|
    ensures MemOk(v, mem[addr := Overlay(mem[addr], piece)])
  {
  }

  lemma LandWindow(v: View, mem: map<u64, Bytes>, landed: seq<Bytes>, bufRead: nat, piece: Bytes)
    requires |v.c2hBufs| == SDE_NUM_DESC && Distinct(v) && MemOk(v, mem)
    requires BufWindow(mem, v.c2hBufs, landed, bufRead) && |landed| < bufRead + SDE_NUM_DESC
    requires |piece| <= v.c2hBufs[Slot(|landed|)].length
    ensures var addr := v.c2hBufs[Slot(|landed|)].addr;
            var mem' := mem[addr := Overlay(mem[addr], piece)];
            MemOk(v, mem') && BufWindow(mem', v.c2hBufs, landed + [piece], bufRead)
  {
  }

  lemma MultiDesc(sub: Subsystem, bufs: seq<Buffer>, ring: seq<Desc>, k: nat)
    requires |bufs| == |ring| == SDE_NUM_DESC && InitialisedRing(sub, bufs, ring)
    ensures k % |ring| == Slot(k)
    ensures ring[Slot(k)].physAddr == bufs[Slot(k)].addr
    ensures ring[Slot(k)].length == bufs[Slot(k)].length
  {
    var i := Slot(k);
    assert i % |bufs| == i;
    assert ring[i] == RingDesc(sub, bufs, i);
  }

  lemma LandDesc(v: View, s: Shared)
    requires Multi(v) && Cyclic(C2H, v.c2hRing, s.c2h.stream)
    requires |s.landed| < Whole(C2H, s.c2h.stream)
    ensures var d := DescAt(C2H, s.c2h.stream, |s.landed|);
            var b := v.c2hBufs[Slot(|s.landed|)];
            d.physAddr == b.addr && d.length == b.length
  {
    CyclicDecodes(C2H, v.c2hRing, s.c2h.stream, |s.landed|);
    MultiDesc(C2H, v.c2hBufs, v.c2hRing, |s.landed|);
  }

  lemma MultiParts(v: View)
    requires Multi(v)
    ensures |v.c2hBufs| == |v.h2cBufs| == SDE_NUM_DESC && Distinct(v)
  {
  }

  lemma DeliveredLand(v: View, s: Shared, piece: Bytes)
    requires Multi(v) && MemOk(v, s.mem) && Delivered(v, s) && CanLand(s, piece)
    ensures var s' := Apply(s, Land(piece)); MemOk(v, s'.mem) && Delivered(v, s')
  {
    hide Multi, Cyclic, MemOk, BufWindow, DescAt;
    MultiParts(v);
    var s' := Apply(s, Land(piece));
    LandMem(v, s.mem, DescAt(C2H, s.c2h.stream, |s.landed|).physAddr, piece);
    if Cyclic(C2H, v.c2hRing, s.c2h.stream) {
      LandDesc(v, s);
      if !s'.bufOverrun { LandWindow(v, s.mem, s.landed, s.bufRead, piece); }
    }
  }

  lemma OrderLand(v: View, s: Shared, piece: Bytes, clearing: bool)
    requires Multi(v) && Order(v, s, clearing)
    ensures Order(v, Apply(s, Land(piece)), clearing)
  {
    if CanLand(s, piece) { DeliveredLand(v, s, piece); }
  }

  lemma MdWindowWrite(md: seq<Md>, log: seq<Md>, mdRead: nat, clearing: bool, m: Md)
    requires |md| == NUM_MD && MdWindow(md, log, mdRead, clearing) && |log| < mdRead + NUM_MD
    ensures MdWindow(md[Slot(|log|) := m], log + [m], mdRead, clearing)
  {
    var n := |log|;
    var md' := md[Slot(n) := m];
    forall k | mdRead <= k < n + 1
      ensures SameEntry(md'[Slot(k)], (log + [m])[k], clearing && k == mdRead)
    {
      if k < n { assert Slot(k) != Slot(n); }
    }
    forall k | n + 1 <= k < mdRead + NUM_MD ensures !IsValid(md'[Slot(k)]) {
      assert Slot(k) != Slot(n);
    }
  }

  lemma OrderWriteMd(v: View, s: Shared, eop: bool, user: u64, clearing: bool)
    requires Order(v, s, clearing)
    ensures Order(v, Apply(s, WriteMd(eop, user)), clearing)
  {
    var s' := Apply(s, WriteMd(eop, user));
    if |s'.mdLog| > |s.mdLog| && !s'.mdOverrun {
      MdWindowWrite(s.md, s.mdLog, s.mdRead, clearing, s'.mdLog[|s.mdLog|]);
    }
  }

  /** Order does not depend on credit, and more fetched packets do not hurt it. */
  lemma OrderChan(v: View, s: Shared, t: Shared, clearing: bool)
    requires Order(v, s, clearing)
    requires t == s.(h2c := t.h2c, c2h := t.c2h, fetched := t.fetched) && t.c2h.stream == s.c2h.stream
    requires s.c2h.popped <= t.c2h.popped && s.fetched <= t.fetched && |t.fetched| <= t.h2c.popped
    ensures Order(v, t, clearing)
  {
    hide Cyclic, PiecesFit, BufWindow, MdWindow, LogOk, BufsIn;
  }

  lemma OrderFetch(v: View, s: Shared, clearing: bool)
    requires Order(v, s, clearing)
    ensures Order(v, Apply(s, Fetch), clearing)
  {
    hide DescAt, Delivered, MemOk, LogOk, MdWindow;
    OrderChan(v, s, Apply(s, Fetch), clearing);
  }

  lemma OrderPop(v: View, s: Shared, clearing: bool)
    requires Order(v, s, clearing)
    ensures Order(v, Apply(s, PopH2c), clearing) && Order(v, Apply(s, PopC2h), clearing)
  {
    hide Whole, Delivered, MemOk, LogOk, MdWindow;
    OrderChan(v, s, Apply(s, PopH2c), clearing);
    OrderChan(v, s, Apply(s, PopC2h), clearing);
  }

  lemma OrderWriteBack(v: View, s: Shared, sub: Subsystem, l: nat, clearing: bool)
    requires Order(v, s, clearing)
    ensures Order(v, Apply(s, WriteBack(sub, l)), clearing)
  {
    hide Whole, Delivered, MemOk, LogOk, MdWindow;
    OrderChan(v, s, Apply(s, WriteBack(sub, l)), clearing);
  }

  lemma OrderApply(v: View, s: Shared, a: Action, clearing: bool)
    requires Multi(v) && Order(v, s, clearing)
    ensures Order(v, Apply(s, a), clearing)
  {
    hide Order, Apply, Multi;
    match a
    case Fetch => OrderFetch(v, s, clearing);
    case Land(piece) => OrderLand(v, s, piece, clearing);
    case WriteMd(eop, user) => OrderWriteMd(v, s, eop, user, clearing);
    case PopH2c => OrderPop(v, s, clearing);
    case PopC2h => OrderPop(v, s, clearing);
    case WriteBack(sub, l) => OrderWriteBack(v, s, sub, l, clearing);
  }

  /** The always-invariant of a run: credit on both channels, order of delivery. */
  ghost predicate Inv(v: View, s: Shared, h2cBound: nat, c2hBound: nat, clearing: bool) {
    && Multi(v)
    && Credit(H2C, s.h2c, h2cBound) && Credit(C2H, s.c2h, c2hBound)
    && Order(v, s, clearing)
  }

  lemma {:induction false} KeepInvAll(v: View, s: Shared, acts: seq<Action>, hb: nat, cb: nat, clearing: bool)
    requires Inv(v, s, hb, cb, clearing)
    ensures Inv(v, RunAll(s, acts), hb, cb, clearing)
    ensures Grows(s, RunAll(s, acts))
    decreases |acts|
  {
    if acts != [] {
      var m := Apply(s, acts[0]);
      CreditApply(H2C, s, acts[0], hb);
      CreditApply(C2H, s, acts[0], cb);
      OrderApply(v, s, acts[0], clearing);
      GrowsApply(s, acts[0]);
      KeepInvAll(v, m, acts[1..], hb, cb, clearing);
    }
  }

  /** Whatever the card does between two host accesses, in any order and any
      number, keeps every invariant and only adds to what was delivered. */
  lemma KeepInv(v: View, a: Shared, b: Shared, hb: nat, cb: nat, clearing: bool)
    requires Inv(v, a, hb, cb, clearing) && Reaches(a, b)
    ensures Inv(v, b, hb, cb, clearing) && Grows(a, b)
  {
    var acts :| b == RunAll(a, acts);
    KeepInvAll(v, a, acts, hb, cb, clearing);
  }

  // ---- One loopback transfer ---------------------------------------------------

  /** Packets base.. are in the H2C buffers, and those fetched so far were fetched intact. */
  ghost predicate Sending(v: View, mem: map<u64, Bytes>, fetched: seq<Bytes>, whole: nat, base: nat, pkts: seq<Bytes>)
    requires |v.h2cBufs| == SDE_NUM_DESC && MemOk(v, mem)
  {
    && |pkts| <= SDE_NUM_DESC && base <= |fetched| && whole <= base + |pkts|
    && (forall k :: base <= k < base + |pkts| ==> mem[v.h2cBufs[Slot(k)].addr] == pkts[k - base])
    && (forall k :: base <= k < |fetched| && k < base + |pkts| ==> fetched[k] == pkts[k - base])
  }

  /** The card cannot get 64 buffers ahead, because no more were posted. */
  ghost predicate Near(s: Shared) {
    && Whole(C2H, s.c2h.stream) <= s.bufRead + SDE_NUM_DESC
    && s.bufRead <= s.mdRead
    && !s.mdOverrun && !s.bufOverrun
  }

  ghost predicate Transfer(v: View, s: Shared, base: nat, pkts: seq<Bytes>)
    requires |v.h2cBufs| == SDE_NUM_DESC && MemOk(v, s.mem)
  {
    && s.loopback
    && Cyclic(H2C, v.h2cRing, s.h2c.stream) && Cyclic(C2H, v.c2hRing, s.c2h.stream)
    && Sending(v, s.mem, s.fetched, Whole(H2C, s.h2c.stream), base, pkts)
    && Near(s)
  }

  lemma H2cMemApply(v: View, s: Shared, a: Action)
    requires Multi(v) && MemOk(v, s.mem) && Cyclic(C2H, v.c2hRing, s.c2h.stream)
    ensures MemOk(v, Apply(s, a).mem)
    ensures forall i :: 0 <= i < SDE_NUM_DESC ==> Apply(s, a).mem[v.h2cBufs[i].addr] == s.mem[v.h2cBufs[i].addr]
  {
    if a.Land? && CanLand(s, a.piece) {
      LandDesc(v, s);
      LandMem(v, s.mem, v.c2hBufs[Slot(|s.landed|)].addr, a.piece);
    }
  }

  lemma FetchDesc(v: View, s: Shared)
    requires Multi(v) && Cyclic(H2C, v.h2cRing, s.h2c.stream)
    requires |s.fetched| < Whole(H2C, s.h2c.stream)
    ensures var d := DescAt(H2C, s.h2c.stream, |s.fetched|);
            var b := v.h2cBufs[Slot(|s.fetched|)];
            d.physAddr == b.addr && d.length == b.length
  {
    CyclicDecodes(H2C, v.h2cRing, s.h2c.stream, |s.fetched|);
    MultiDesc(H2C, v.h2cBufs, v.h2cRing, |s.fetched|);
  }

  lemma FetchWhole(v: View, s: Shared)
    requires Multi(v) && MemOk(v, s.mem) && Cyclic(H2C, v.h2cRing, s.h2c.stream) && CanFetch(s)
    ensures Apply(s, Fetch) == s.(fetched := s.fetched + [s.mem[v.h2cBufs[Slot(|s.fetched|)].addr]])
  {
    FetchDesc(v, s);
    var b := v.h2cBufs[Slot(|s.fetched|)];
    assert s.mem[b.addr][..b.length] == s.mem[b.addr];
  }

  lemma SendingStep(v: View, mem: map<u64, Bytes>, fetched: seq<Bytes>, whole: nat, base: nat, pkts: seq<Bytes>)
    requires |v.h2cBufs| == SDE_NUM_DESC && MemOk(v, mem)
    requires Sending(v, mem, fetched, whole, base, pkts) && |fetched| < whole
    ensures Sending(v, mem, fetched + [mem[v.h2cBufs[Slot(|fetched|)].addr]], whole, base, pkts)
  {
  }

  lemma TransferFetch(v: View, s: Shared, base: nat, pkts: seq<Bytes>)
    requires Multi(v) && MemOk(v, s.mem) && Transfer(v, s, base, pkts)
    ensures Transfer(v, Apply(s, Fetch), base, pkts)
  {
    if CanFetch(s) {
      FetchWhole(v, s);
      SendingStep(v, s.mem, s.fetched, Whole(H2C, s.h2c.stream), base, pkts);
    }
  }

  lemma TransferApply(v: View, s: Shared, a: Action, clearing: bool, base: nat, pkts: seq<Bytes>)
    requires Multi(v) && Order(v, s, clearing) && s.c2h.popped <= Whole(C2H, s.c2h.stream) && Transfer(v, s, base, pkts)
    ensures MemOk(v, Apply(s, a).mem) && Transfer(v, Apply(s, a), base, pkts)
  {
    hide Multi, Cyclic, CanFetch, DescAt;
    MultiParts(v);
    H2cMemApply(v, s, a);
    if a.Fetch? { TransferFetch(v, s, base, pkts); }
  }

  lemma {:induction false} KeepTransferAll(v: View, s: Shared, acts: seq<Action>, hb: nat, cb: nat, clearing: bool,
                                           base: nat, pkts: seq<Bytes>)
    requires Inv(v, s, hb, cb, clearing) && Transfer(v, s, base, pkts)
    ensures Inv(v, RunAll(s, acts), hb, cb, clearing) && Transfer(v, RunAll(s, acts), base, pkts)
    decreases |acts|
  {
    if acts != [] {
      var m := Apply(s, acts[0]);
      CreditApply(H2C, s, acts[0], hb);
      CreditApply(C2H, s, acts[0], cb);
      OrderApply(v, s, acts[0], clearing);
      TransferApply(v, s, acts[0], clearing, base, pkts);
      KeepTransferAll(v, m, acts[1..], hb, cb, clearing, base, pkts);
    }
  }

  /** The card never disturbs a transfer that is under way. */
  lemma KeepTransfer(v: View, a: Shared, b: Shared, hb: nat, cb: nat, clearing: bool, base: nat, pkts: seq<Bytes>)
    requires Inv(v, a, hb, cb, clearing) && Transfer(v, a, base, pkts) && Reaches(a, b)
    ensures Inv(v, b, hb, cb, clearing) && Grows(a, b) && Transfer(v, b, base, pkts)
  {
    var acts :| b == RunAll(a, acts);
    KeepInvAll(v, a, acts, hb, cb, clearing);
    KeepTransferAll(v, a, acts, hb, cb, clearing, base, pkts);
  }

  lemma {:induction false} KeepH2cMem(v: View, s: Shared, acts: seq<Action>)
    requires Multi(v) && MemOk(v, s.mem) && Cyclic(C2H, v.c2hRing, s.c2h.stream)
    ensures MemOk(v, RunAll(s, acts).mem)
    ensures forall i :: 0 <= i < SDE_NUM_DESC ==> RunAll(s, acts).mem[v.h2cBufs[i].addr] == s.mem[v.h2cBufs[i].addr]
    decreases |acts|
  {
    if acts != [] {
      H2cMemApply(v, s, acts[0]);
      GrowsApply(s, acts[0]);
      KeepH2cMem(v, Apply(s, acts[0]), acts[1..]);
    }
  }

  // ---- Posting ------------------------------------------------------------------

  /** b is reached from a by poking the dwords in order, with the card doing
      anything before each of them. */
  ghost predicate Posted(a: Shared, b: Shared, sub: Subsystem, dws: seq<u32>)
    decreases |dws|
  {
    if dws == [] then a == b
    else exists m, m' ::
      Posted(a, m, sub, dws[..|dws| - 1]) && Reaches(m, m') && b == Push(m', sub, dws[|dws| - 1])
  }

  lemma PostedStep(a: Shared, b: Shared, sub: Subsystem, dws: seq<u32>)
    requires Posted(a, b, sub, dws)
    ensures if dws == [] then a == b
            else exists m, m' :: Posted(a, m, sub, dws[..|dws| - 1]) && Reaches(m, m') && b == Push(m', sub, dws[|dws| - 1])
  {
    hide Push, Reaches;
  }

  lemma PostedMore(a: Shared, m: Shared, m': Shared, sub: Subsystem, dws: seq<u32>, dw: u32)
    requires Posted(a, m, sub, dws) && Reaches(m, m')
    ensures Posted(a, Push(m', sub, dw), sub, dws + [dw])
  {
    hide Push, Reaches;
    assert (dws + [dw])[..|dws|] == dws;
  }

  lemma {:induction false} PostedTwice(a: Shared, b: Shared, c: Shared, sub: Subsystem, x: seq<u32>, y: seq<u32>)
    requires Posted(a, b, sub, x) && Posted(b, c, sub, y)
    ensures Posted(a, c, sub, x + y)
    decreases |y|
  {
    hide Posted, Push, Reaches;
    PostedStep(b, c, sub, y);
    if y == [] {
      assert x + [] == x;
    } else {
      var front, last := y[..|y| - 1], y[|y| - 1];
      var m, m' :| Posted(b, m, sub, front) && Reaches(m, m') && c == Push(m', sub, last);
      PostedTwice(a, b, m, sub, x, front);
      PostedMore(a, m, m', sub, x + front, last);
      assert (x + front) + [last] == x + y;
    }
  }

  /** A post that a failing poke cut short: only the first k dwords went out. */
  ghost predicate PostedPart(a: Shared, b: Shared, sub: Subsystem, dws: seq<u32>, k: nat) {
    k < |dws| && exists m :: Posted(a, m, sub, dws[..k]) && Reaches(m, b)
  }

  lemma PartAfter(a: Shared, b: Shared, c: Shared, sub: Subsystem, x: seq<u32>, y: seq<u32>, k: nat, all: seq<u32>)
    requires Posted(a, b, sub, x) && PostedPart(b, c, sub, y, k)
    requires |x| + k < |all| && all[..|x| + k] == x + y[..k]
    ensures PostedPart(a, c, sub, all, |x| + k)
  {
    hide Posted, Reaches;
    var m :| Posted(b, m, sub, y[..k]) && Reaches(m, c);
    PostedTwice(a, b, m, sub, x, y[..k]);
  }

  lemma PushInv(v: View, s: Shared, sub: Subsystem, dw: u32, hb: nat, cb: nat)
    requires Inv(v, s, hb, cb, false)
    requires |ChanOf(s, sub).stream| < At(sub, if sub.C2H? then cb else hb)
    ensures Inv(v, Push(s, sub, dw), hb, cb, false)
  {
  }

  /** Streams of a after posting dws, and what the host left alone. */
  ghost predicate Appended(a: Shared, b: Shared, sub: Subsystem, dws: seq<u32>) {
    && b.h2c.stream == a.h2c.stream + (if sub.H2C? then dws else [])
    && b.c2h.stream == a.c2h.stream + (if sub.C2H? then dws else [])
    && b.loopback == a.loopback && b.mdRead == a.mdRead && b.bufRead == a.bufRead
    && a.fetched <= b.fetched && a.landed <= b.landed && a.mdLog <= b.mdLog
  }

  lemma AppendedSelf(a: Shared, sub: Subsystem)
    ensures Appended(a, a, sub, [])
  {
  }

  lemma AppendedMore(a: Shared, m: Shared, m': Shared, sub: Subsystem, dws: seq<u32>, dw: u32)
    requires Appended(a, m, sub, dws) && Grows(m, m')
    ensures Appended(a, Push(m', sub, dw), sub, dws + [dw])
    ensures |ChanOf(m', sub).stream| == |ChanOf(a, sub).stream| + |dws|
  {
  }

  function BoundOf(sub: Subsystem, hb: nat, cb: nat): nat { if sub.C2H? then cb else hb }

  /** Posting within the credit keeps every invariant at every poke, however the
      card interleaves: the descriptor RAM never overflows. */
  lemma {:induction false} PostedInv(v: View, a: Shared, b: Shared, sub: Subsystem, dws: seq<u32>, hb: nat, cb: nat)
    requires Inv(v, a, hb, cb, false) && Posted(a, b, sub, dws)
    requires |ChanOf(a, sub).stream| + |dws| <= At(sub, BoundOf(sub, hb, cb))
    ensures Inv(v, b, hb, cb, false)
    ensures Appended(a, b, sub, dws)
    decreases |dws|
  {
    hide Inv, Appended, Posted, Push, Reaches;
    PostedStep(a, b, sub, dws);
    if dws == [] {
      AppendedSelf(a, sub);
    } else {
      var front, last := dws[..|dws| - 1], dws[|dws| - 1];
      var m, m' :| Posted(a, m, sub, front) && Reaches(m, m') && b == Push(m', sub, last);
      PostedInv(v, a, m, sub, front, hb, cb);
      KeepInv(v, m, m', hb, cb, false);
      AppendedMore(a, m, m', sub, front, last);
      PushInv(v, m', sub, last, hb, cb);
      assert front + [last] == dws;
    }
  }

  /** The dwords that may be posted without ending a transfer. */
  ghost predicate MayPost(v: View, s: Shared, sub: Subsystem, dws: seq<u32>, base: nat, pkts: seq<Bytes>) {
    if sub.C2H? then
      Cyclic(C2H, v.c2hRing, s.c2h.stream + dws) && Whole(C2H, s.c2h.stream + dws) <= s.bufRead + SDE_NUM_DESC
    else
      Cyclic(H2C, v.h2cRing, s.h2c.stream + dws) && Whole(H2C, s.h2c.stream + dws) <= base + |pkts|
  }

  lemma PushTransfer(v: View, s: Shared, sub: Subsystem, dw: u32, base: nat, pkts: seq<Bytes>)
    requires Multi(v) && MemOk(v, s.mem) && Transfer(v, s, base, pkts)
    requires MayPost(v, s, sub, [dw], base, pkts)
    ensures Transfer(v, Push(s, sub, dw), base, pkts)
  {
  }

  lemma MayPostFront(v: View, a: Shared, m': Shared, sub: Subsystem, front: seq<u32>, last: u32, base: nat, pkts: seq<Bytes>)
    requires MayPost(v, a, sub, front + [last], base, pkts)
    ensures MayPost(v, a, sub, front, base, pkts)
    ensures m'.bufRead == a.bufRead && ChanOf(m', sub).stream == ChanOf(a, sub).stream + front
            ==> MayPost(v, m', sub, [last], base, pkts)
  {
  }

  lemma InvParts(v: View, s: Shared, hb: nat, cb: nat, clearing: bool)
    requires Inv(v, s, hb, cb, clearing)
    ensures Multi(v) && MemOk(v, s.mem)
  {
  }

  lemma AppendedStream(a: Shared, m: Shared, m': Shared, sub: Subsystem, dws: seq<u32>)
    requires Appended(a, m, sub, dws) && Grows(m, m')
    ensures m'.bufRead == a.bufRead && ChanOf(m', sub).stream == ChanOf(a, sub).stream + dws
  {
  }

  /** Posting ring descriptors within credit and window keeps a transfer going. */
  lemma {:induction false} PostedTransfer(v: View, a: Shared, b: Shared, sub: Subsystem, dws: seq<u32>,
                                          hb: nat, cb: nat, base: nat, pkts: seq<Bytes>)
    requires Inv(v, a, hb, cb, false) && Posted(a, b, sub, dws)
    requires |ChanOf(a, sub).stream| + |dws| <= At(sub, BoundOf(sub, hb, cb))
    requires Transfer(v, a, base, pkts) && MayPost(v, a, sub, dws, base, pkts)
    ensures Inv(v, b, hb, cb, false) && Multi(v) && MemOk(v, b.mem) && Transfer(v, b, base, pkts)
    decreases |dws|
  {
    hide Inv, Appended, Transfer, MayPost, Multi, MemOk, Grows, Posted, Push, Reaches, Credit, Order;
    InvParts(v, a, hb, cb, false);
    PostedStep(a, b, sub, dws);
    if dws != [] {
      var front, last := dws[..|dws| - 1], dws[|dws| - 1];
      var m, m' :| Posted(a, m, sub, front) && Reaches(m, m') && b == Push(m', sub, last);
      assert front + [last] == dws;
      MayPostFront(v, a, m', sub, front, last, base, pkts);
      PostedInv(v, a, m, sub, front, hb, cb);
      PostedTransfer(v, a, m, sub, front, hb, cb, base, pkts);
      KeepTransfer(v, m, m', hb, cb, false, base, pkts);
      AppendedStream(a, m, m', sub, front);
      InvParts(v, m', hb, cb, false);
      PushTransfer(v, m', sub, last, base, pkts);
      PostedInv(v, a, b, sub, dws, hb, cb);
      InvParts(v, b, hb, cb, false);
    }
  }
}
