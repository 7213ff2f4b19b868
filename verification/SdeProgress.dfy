/** Why a read of data ends: every metadata entry that is taken uses up an entry
    that the card wrote for a posted descriptor, whatever the card does meanwhile. */
module SdeProgress {
  import opened SdeDesc
  import opened SdeCard
  import opened SdeRun

  function CountValid(md: seq<Md>): nat {
    if md == [] then 0 else CountValid(md[1..]) + if IsValid(md[0]) then 1 else 0
  }

  lemma {:induction false} CountUpdate(md: seq<Md>, i: nat, m: Md)
    requires i < |md|
    ensures CountValid(md[i := m]) + (if IsValid(md[i]) then 1 else 0) == CountValid(md) + (if IsValid(m) then 1 else 0)
  {
    if i == 0 {
      assert md[i := m][1..] == md[1..];
    } else {
      assert md[i := m][1..] == md[1..][i - 1 := m];
      CountUpdate(md[1..], i - 1, m);
    }
  }

  /** Entries the host can still take without posting anything: those that stand valid
      in the ring, and those the card may yet write for descriptors in its RAM. */
  function Pending(s: Shared): int {
    CountValid(s.md) + Whole(C2H, s.c2h.stream) - |s.mdLog|
  }

  lemma PendingApply(s: Shared, a: Action)
    ensures Pending(Apply(s, a)) <= Pending(s)
    ensures |Apply(s, a).md| == |s.md|
    ensures forall i :: 0 <= i < |s.md| && IsValid(s.md[i]) ==> IsValid(Apply(s, a).md[i])
  {
    if a.WriteMd? && |Apply(s, a).mdLog| > |s.mdLog| {
      CountUpdate(s.md, Slot(|s.mdLog|), Apply(s, a).md[Slot(|s.mdLog|)]);
    }
  }

  /** The card alone never adds to what is pending and never takes a valid bit back. */
  lemma {:induction false} PendingAll(s: Shared, acts: seq<Action>)
    ensures Pending(RunAll(s, acts)) <= Pending(s)
    ensures |RunAll(s, acts).md| == |s.md|
    ensures forall i :: 0 <= i < |s.md| && IsValid(s.md[i]) ==> IsValid(RunAll(s, acts).md[i])
    decreases |acts|
  {
    hide Apply, Pending, IsValid;
    if acts != [] {
      PendingApply(s, acts[0]);
      PendingAll(Apply(s, acts[0]), acts[1..]);
    }
  }

  lemma PendingReaches(a: Shared, b: Shared)
    requires Reaches(a, b)
    ensures Pending(b) <= Pending(a) && |b.md| == |a.md|
    ensures forall i :: 0 <= i < |a.md| && IsValid(a.md[i]) ==> IsValid(b.md[i])
  {
    hide RunAll;
    var acts :| b == RunAll(a, acts);
    PendingAll(a, acts);
  }

  /** Taking an entry always leaves fewer, also when the ring was overrun. */
  lemma PendingTook(a: Shared, b: Shared, i: nat, m: Md)
    requires TookMd(a, b, i, m)
    ensures Pending(b) < Pending(a)
  {
    hide Reaches, IsValid;
    var s0, s1, s2, s3, s4 :| MdTrace(a, s0, s1, s2, s3, s4, b, i, m);
    PendingReaches(a, s0);
    PendingReaches(s0, s1);
    PendingReaches(s1, s2);
    PendingReaches(s2, s3);
    PendingClear(s3, i);
    PendingReaches(ClearSlot(s3, i), s4);
  }

  lemma PendingClear(s: Shared, i: nat)
    requires i < |s.md| && IsValid(s.md[i])
    ensures Pending(ClearSlot(s, i)) == Pending(s) - 1
  {
    CountUpdate(s.md, i, s.md[i].(status := 0));
  }

  lemma PendingNonNeg(v: View, s: Shared, hb: nat, cb: nat)
    requires Inv(v, s, hb, cb, false)
    ensures Pending(s) >= 0 && |s.md| == NUM_MD
  {
  }
}
