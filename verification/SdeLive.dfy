/** A transfer can always be completed: from every state of a run in which all descriptors
    of a transfer were posted, the card has a way to deliver all of its packets. */
module SdeLive {
  import opened Bits
  import opened SdeDesc
  import opened SdeCard
  import opened SdeDmaBuffer
  import opened SdeRun
  import opened SdeLoopback

  /** What the card does next to bring a transfer forward. */
  function Next(s: Shared): Action {
    if |s.mdLog| < |s.landed| then WriteMd(true, 0)
    else if |s.landed| < |s.fetched| && |s.landed| < s.c2h.popped then Land(s.fetched[|s.landed|])
    else if |s.fetched| < s.h2c.popped then Fetch
    else if s.h2c.popped < Whole(H2C, s.h2c.stream) then PopH2c
    else PopC2h
  }

  /** Steps there are still to go, of the five that each packet takes. */
  function Left(s: Shared, total: nat): int {
    5 * total - (s.h2c.popped + s.c2h.popped + |s.fetched| + |s.landed| + |s.mdLog|)
  }

  /** A transfer whose descriptors are all out, over buffers of one size. */
  ghost predicate Underway(v: View, s: Shared, hb: nat, cb: nat, base: nat, pkts: seq<Bytes>, L: nat) {
    && Inv(v, s, hb, cb, false) && Uniform(v.h2cBufs, L) && Uniform(v.c2hBufs, L)
    && Transfer(v, s, base, pkts) && base <= s.mdRead && (forall i :: 0 <= i < |pkts| ==> |pkts[i]| == L)
    && Whole(H2C, s.h2c.stream) == Whole(C2H, s.c2h.stream) == base + |pkts|
  }

  lemma CanWrite(v: View, s: Shared, hb: nat, cb: nat, base: nat, pkts: seq<Bytes>, L: nat)
    requires Underway(v, s, hb, cb, base, pkts, L) && |s.mdLog| < |s.landed|
    ensures |Apply(s, WriteMd(true, 0)).mdLog| == |s.mdLog| + 1
  {
    hide Multi, Cyclic, MdWindow, BufWindow, Credit, Sending;
    assert |s.landed[|s.mdLog|]| <= v.c2hBufs[Slot(|s.mdLog|)].length;
  }

  lemma CanFetchNext(v: View, s: Shared, hb: nat, cb: nat, base: nat, pkts: seq<Bytes>, L: nat)
    requires Underway(v, s, hb, cb, base, pkts, L) && |s.fetched| < s.h2c.popped
    ensures CanFetch(s)
  {
    hide MdWindow, BufWindow, LogOk, Cyclic, Sending;
    FetchDesc(v, s);
    EndsPacket(v, s);
    assert v.h2cBufs[Slot(|s.fetched|)].addr in s.mem;
  }

  lemma EndsPacket(v: View, s: Shared)
    requires Multi(v) && Cyclic(H2C, v.h2cRing, s.h2c.stream) && |s.fetched| < Whole(H2C, s.h2c.stream)
    ensures DescAt(H2C, s.h2c.stream, |s.fetched|).H2cDesc? && DescAt(H2C, s.h2c.stream, |s.fetched|).cfgBits == 1
  {
    hide Cyclic;
    var k := |s.fetched|;
    CyclicDecodes(H2C, v.h2cRing, s.h2c.stream, k);
    assert v.h2cRing[k % |v.h2cRing|] == RingDesc(H2C, v.h2cBufs, k % |v.h2cRing|);
  }

  lemma CanLandNext(v: View, s: Shared, hb: nat, cb: nat, base: nat, pkts: seq<Bytes>, L: nat)
    requires Underway(v, s, hb, cb, base, pkts, L) && |s.landed| < |s.fetched| && |s.landed| < s.c2h.popped
    ensures CanLand(s, s.fetched[|s.landed|])
  {
    hide MdWindow, BufWindow, Cyclic, InitialisedRing;
    var k := |s.landed|;
    LandDesc(v, s);
    MdBehind(v, s, hb, cb, base, pkts, L);
    assert s.fetched[k] == pkts[k - base];
    assert v.c2hBufs[Slot(k)].length == L && v.c2hBufs[Slot(k)].addr in s.mem;
  }

  /** Everything before the transfer has landed. */
  lemma MdBehind(v: View, s: Shared, hb: nat, cb: nat, base: nat, pkts: seq<Bytes>, L: nat)
    requires Underway(v, s, hb, cb, base, pkts, L)
    ensures base <= |s.mdLog| <= |s.landed| <= |s.fetched|
    ensures |s.fetched| <= s.h2c.popped <= base + |pkts| && |s.landed| <= s.c2h.popped <= base + |pkts|
    ensures |v.h2cBufs| == |v.c2hBufs| == 64
  {
    hide Multi, Cyclic, BufWindow, Sending;
    MultiSizes(v);
  }

  lemma MultiSizes(v: View)
    requires Multi(v)
    ensures |v.h2cBufs| == |v.c2hBufs| == 64
  {
  }

  /** The next action is enabled and brings the transfer one step nearer to its end. */
  lemma Progress(v: View, s: Shared, hb: nat, cb: nat, base: nat, pkts: seq<Bytes>, L: nat)
    requires Underway(v, s, hb, cb, base, pkts, L) && |s.mdLog| < base + |pkts|
    ensures Left(Apply(s, Next(s)), base + |pkts|) == Left(s, base + |pkts|) - 1
  {
    hide Underway, CanFetch, CanLand;
    MdBehind(v, s, hb, cb, base, pkts, L);
    if |s.mdLog| < |s.landed| {
      CanWrite(v, s, hb, cb, base, pkts, L);
    } else if |s.landed| < |s.fetched| && |s.landed| < s.c2h.popped {
      CanLandNext(v, s, hb, cb, base, pkts, L);
    } else if |s.fetched| < s.h2c.popped {
      CanFetchNext(v, s, hb, cb, base, pkts, L);
    } else {
      Streams(v, s, hb, cb, base, pkts, L);
    }
  }

  lemma Streams(v: View, s: Shared, hb: nat, cb: nat, base: nat, pkts: seq<Bytes>, L: nat)
    requires Underway(v, s, hb, cb, base, pkts, L)
    ensures Whole(H2C, s.h2c.stream) == Whole(C2H, s.c2h.stream) == base + |pkts|
  {
    hide Inv, Transfer;
  }

  lemma StaysUnderway(v: View, a: Shared, b: Shared, hb: nat, cb: nat, base: nat, pkts: seq<Bytes>, L: nat)
    requires Underway(v, a, hb, cb, base, pkts, L) && Reaches(a, b)
    ensures Underway(v, b, hb, cb, base, pkts, L) && Grows(a, b)
  {
    hide Inv, Transfer, Reaches, Uniform, Multi, MemOk;
    InvParts(v, a, hb, cb, false);
    KeepTransfer(v, a, b, hb, cb, false, base, pkts);
    InvParts(v, b, hb, cb, false);
  }

  lemma OneAction(s: Shared, a: Action)
    ensures Reaches(s, Apply(s, a))
  {
    hide Apply;
    assert RunAll(s, [a]) == RunAll(Apply(s, a), [a][1..]);
    assert [a][1..] == [];
  }

  /** However far the card has come, it can deliver the rest of the transfer, with a valid
      metadata entry for every packet; so no poll of the driver has to time out. */
  lemma {:induction false} CardCanDeliver(v: View, s: Shared, hb: nat, cb: nat, base: nat, pkts: seq<Bytes>, L: nat)
    requires Underway(v, s, hb, cb, base, pkts, L)
    ensures exists t :: Reaches(s, t) && |t.mdLog| == base + |pkts| && Underway(v, t, hb, cb, base, pkts, L)
    decreases Left(s, base + |pkts|)
  {
    hide Underway, Reaches, Apply;
    MdBehind(v, s, hb, cb, base, pkts, L);
    if |s.mdLog| == base + |pkts| {
      ReachesSelf(s);
    } else {
      var m := Apply(s, Next(s));
      Progress(v, s, hb, cb, base, pkts, L);
      OneAction(s, Next(s));
      StaysUnderway(v, s, m, hb, cb, base, pkts, L);
      CardCanDeliver(v, m, hb, cb, base, pkts, L);
      var t :| Reaches(m, t) && |t.mdLog| == base + |pkts| && Underway(v, t, hb, cb, base, pkts, L);
      ReachesTwice(s, m, t);
    }
  }
}
