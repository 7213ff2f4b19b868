/** Loops that finish what read, write, readv and writev may leave partial or interrupted. */
module IoVec {
  /** What one system call does: it is interrupted, fails, or moves some bytes. */
  datatype Sys = Interrupted | Error | Moved(n: nat)

  /** One buffer of a vector: base address and length. */
  datatype Iov = Iov(base: nat, len: nat)

  /** The addresses a vector covers, in order. */
  function Flat(iov: seq<Iov>): (f: seq<nat>)
    ensures |f| == Size(iov)
  {
    if iov == [] then [] else Span(iov[0]) + Flat(iov[1..])
  }

  function Span(v: Iov): (s: seq<nat>)
    ensures |s| == v.len
  {
    seq(v.len, i requires 0 <= i => v.base + i)
  }

  function Size(iov: seq<Iov>): nat {
    if iov == [] then 0 else iov[0].len + Size(iov[1..])
  }

  function Clip(n: nat, size: nat): nat { if n < size then n else size }

  /** Where a loop stands after the given calls: still going, or returned. */
  datatype Outcome = Running | Done | Failed | Eof

  datatype Run = Run(outcome: Outcome, moved: seq<nat>)

  /** The vectored loops on a flat list of addresses. A call that moves nothing is simply
      repeated. */
  function Transfer(flat: seq<nat>, script: seq<Sys>): Run
    decreases |script|
  {
    if script == [] then Run(Running, [])
    else
      match script[0]
      case Interrupted => Transfer(flat, script[1..])
      case Error => Run(Failed, [])
      case Moved(n) =>
        var k := Clip(n, |flat|);
        if k == |flat| then Run(Done, flat)
        else
          var r := Transfer(flat[k..], script[1..]);
          Run(r.outcome, flat[..k] + r.moved)
  }

  /** What was moved is the front of what was asked for, each address once and in order;
      a return value of 0 means all of it. */
  lemma {:induction false} MovesFront(flat: seq<nat>, script: seq<Sys>)
    ensures Transfer(flat, script).moved <= flat
    ensures Transfer(flat, script).outcome.Done? ==> Transfer(flat, script).moved == flat
    decreases |script|
  {
    if script != [] {
      match script[0]
      case Interrupted => MovesFront(flat, script[1..]);
      case Error =>
      case Moved(n) =>
        var k := Clip(n, |flat|);
        if k < |flat| {
          MovesFront(flat[k..], script[1..]);
          assert flat == flat[..k] + flat[k..];
        }
    }
  }

  function Total(script: seq<Sys>): nat {
    if script == [] then 0 else (if script[0].Moved? then script[0].n else 0) + Total(script[1..])
  }

  /** No call has failed, and the bytes moved do not make up the size, or, if none were
      asked for, no call has come back at all. */
  predicate Unfinished(size: nat, script: seq<Sys>) {
    && Error !in script
    && if size == 0 then forall i :: 0 <= i < |script| ==> script[i].Interrupted? else Total(script) < size
  }

  /** Exactly then the loop has not returned; so calls that move nothing, as at the end of a
      file, keep it going for ever. */
  lemma {:induction false} StillRunning(flat: seq<nat>, script: seq<Sys>)
    ensures Transfer(flat, script).outcome.Running? <==> Unfinished(|flat|, script)
    decreases |script|
  {
    if script != [] {
      assert script == [script[0]] + script[1..];
      match script[0]
      case Interrupted => StillRunning(flat, script[1..]);
      case Error =>
      case Moved(n) =>
        var k := Clip(n, |flat|);
        if k < |flat| { StillRunning(flat[k..], script[1..]); }
    }
  }

  lemma {:induction false} TotalAtLeast(script: seq<Sys>)
    requires forall i :: 0 <= i < |script| ==> script[i].Moved? && script[i].n >= 1
    ensures Total(script) >= |script|
    decreases |script|
  {
    if script != [] { TotalAtLeast(script[1..]); }
  }

  /** The remaining bytes are a termination measure when every call moves at least one. */
  lemma ProgressEnds(flat: seq<nat>, script: seq<Sys>)
    requires forall i :: 0 <= i < |script| ==> script[i].Moved? && script[i].n >= 1
    requires |script| >= |flat| && script != []
    ensures Transfer(flat, script).outcome.Done? && Transfer(flat, script).moved == flat
  {
  }

  lemma {:induction false} NoFailure(flat: seq<nat>, script: seq<Sys>)
    requires forall i :: 0 <= i < |script| ==> script[i].Moved?
    ensures !Transfer(flat, script).outcome.Failed? && !Transfer(flat, script).outcome.Eof?
    decreases |script|
  {
    if script != [] {
      var k := Clip(script[0].n, |flat|);
      if k < |flat| { NoFailure(flat[k..], script[1..]); }
    }
  }

  // ---- readv_loop and writev_loop ----------------------------------------------------------------

  /** The kernel's side: the calls it will still answer. */
  class Kernel {
    var script: seq<Sys>
    var moved: seq<nat>   // addresses transferred so far, in order

    constructor (script: seq<Sys>)
      ensures this.script == script && moved == []
    {
      this.script, moved := script, [];
    }

    /** readv or writev on the vector: the front of its addresses. */
    method Vector(iov: seq<Iov>) returns (rc: int, interrupted: bool)
      requires script != []
      modifies this
      ensures script == old(script)[1..]
      ensures match old(script)[0]
              case Interrupted => rc == -1 && interrupted && moved == old(moved)
              case Error => rc == -1 && !interrupted && moved == old(moved)
              case Moved(n) => rc == Clip(n, Size(iov)) && moved == old(moved) + Flat(iov)[..rc]
    {
      interrupted := script[0].Interrupted?;
      rc := -1;
      if script[0].Moved? {
        rc := Clip(script[0].n, Size(iov));
        moved := moved + Flat(iov)[..rc];
      }
      script := script[1..];
    }
  }

  lemma SizeStep(iov: seq<Iov>, i: nat)
    requires i < |iov|
    ensures Size(iov[i..]) == iov[i].len + Size(iov[i + 1..])
    ensures Flat(iov[i..]) == Span(iov[i]) + Flat(iov[i + 1..])
  {
  }

  /** The inner loop: step over the buffers that are done and cut the front off the next.
      It stops before the end of the vector, because fewer bytes moved than it holds. */
  method Advance(iov: array<Iov>, first: nat, rc: nat) returns (at: nat)
    requires first <= iov.Length && rc < Size(iov[first..])
    modifies iov
    ensures first <= at < iov.Length
    ensures Flat(iov[at..]) == old(Flat(iov[first..]))[rc..]
    ensures iov[at + 1..] == old(iov[..])[at + 1..]
  {
    hide Flat, Span, Size;
    at := first;
    var left := rc;
    ghost var all := Flat(iov[first..]);
    assert all[0..] == all;
    while true
      invariant first <= at <= iov.Length && 0 <= left <= rc && left < Size(iov[at..])
      invariant iov[..] == old(iov[..]) && Flat(iov[at..]) == all[rc - left..]
      decreases iov.Length - at
    {
      NotPastEnd(iov[..], at);
      SizeStep(iov[..], at);
      assert iov[..][at..] == iov[at..] && iov[..][at + 1..] == iov[at + 1..];
      if left < iov[at].len {
        ghost var v, tail := iov[at], iov[at + 1..];
        iov[at] := Iov(iov[at].base + left, iov[at].len - left);
        CutFront(v, left, tail);
        assert iov[at..] == [iov[at]] + tail;
        break;
      }
      DropFront(all, rc - left, iov[at].len, Span(iov[at]), Flat(iov[at + 1..]));
      left := left - iov[at].len;
      at := at + 1;
    }
    assert all[rc - left..][left..] == all[rc..];
  }

  /** While something is left, there is a buffer left. */
  lemma NotPastEnd(iov: seq<Iov>, at: nat)
    requires at <= |iov| && Size(iov[at..]) > 0
    ensures at < |iov|
  {
  }

  lemma CutFront(v: Iov, n: nat, tail: seq<Iov>)
    requires n < v.len
    ensures Flat([Iov(v.base + n, v.len - n)] + tail) == (Span(v) + Flat(tail))[n..]
  {
  }

  lemma DropFront(all: seq<nat>, i: nat, n: nat, span: seq<nat>, rest: seq<nat>)
    requires i <= |all| && all[i..] == span + rest && |span| == n
    ensures i + n <= |all| && all[i + n..] == rest
  {
  }

  /** readv_loop and writev_loop, which differ in the system call only. On any vector and
      any behaviour of the kernel they do what the flat transfer does. */
  method VectorLoop(k: Kernel, iov: array<Iov>) returns (outcome: Outcome)
    modifies k, iov
    ensures var r := Transfer(old(Flat(iov[..])), old(k.script));
            outcome == r.outcome && k.moved == old(k.moved) + r.moved
  {
    hide Transfer, Flat;
    var first := 0;
    ghost var flat0, script0, moved0 := Flat(iov[..]), k.script, k.moved;
    ghost var sofar := [];
    assert iov[0..] == iov[..];
    while k.script != []
      invariant 0 <= first <= iov.Length
      invariant k.moved == moved0 + sofar
      invariant Transfer(flat0, script0).outcome == Transfer(Flat(iov[first..]), k.script).outcome
      invariant Transfer(flat0, script0).moved == sofar + Transfer(Flat(iov[first..]), k.script).moved
      decreases |k.script|
    {
      ghost var rest, script := Flat(iov[first..]), k.script;
      TransferStep(rest, script);
      var size := Size(iov[first..]);
      var rc, interrupted := k.Vector(iov[first..]);
      if rc < 0 {
        if !interrupted { return Failed; }
      } else {
        assert moved0 + (sofar + rest[..rc]) == (moved0 + sofar) + rest[..rc];
        if rc == size {
          assert rest[..rc] == rest;
          return Done;
        }
        assert (sofar + rest[..rc]) + Transfer(rest[rc..], k.script).moved == sofar + (rest[..rc] + Transfer(rest[rc..], k.script).moved);
        sofar := sofar + rest[..rc];
        first := Advance(iov, first, rc);
      }
    }
    TransferStep(Flat(iov[first..]), []);
    assert sofar + [] == sofar;
    outcome := Running;
  }

  lemma TransferStep(flat: seq<nat>, script: seq<Sys>)
    ensures script == [] ==> Transfer(flat, script) == Run(Running, [])
    ensures script != [] && script[0].Interrupted? ==> Transfer(flat, script) == Transfer(flat, script[1..])
    ensures script != [] && script[0].Error? ==> Transfer(flat, script) == Run(Failed, [])
    ensures script != [] && script[0].Moved? ==>
              var n := Clip(script[0].n, |flat|);
              Transfer(flat, script) ==
                if n == |flat| then Run(Done, flat)
                else Run(Transfer(flat[n..], script[1..]).outcome, flat[..n] + Transfer(flat[n..], script[1..]).moved)
  {
  }

  // ---- sread_loop and write_loop ------------------------------------------------------------------

  /** sread_loop on a buffer of size bytes: unlike the vectored loops it takes a call that
      moves nothing for the end of the file. write_loop is the same without the count. */
  method BufferLoop(script: seq<Sys>, size: nat) returns (outcome: Outcome, count: nat)
    ensures count <= size && (outcome.Done? ==> count == size)
    ensures outcome.Eof? || outcome.Failed? ==> count < size
    ensures outcome.Running? ==> Error !in script && Moved(0) !in script && Total(script) == count < size
    ensures outcome.Eof? ==> exists i :: 0 <= i < |script| && script[i] == Moved(0) && Total(script[..i]) == count
                                         && Error !in script[..i] && Moved(0) !in script[..i]
    ensures outcome.Failed? ==> exists i :: 0 <= i < |script| && script[i] == Error && Total(script[..i]) == count
                                            && Error !in script[..i] && Moved(0) !in script[..i]
  {
    count := 0;
    var i := 0;
    while count < size && i < |script|
      invariant 0 <= i <= |script| && count <= size
      invariant Error !in script[..i] && Moved(0) !in script[..i]
      invariant count < size ==> Total(script[..i]) == count
      decreases |script| - i
    {
      TotalMore(script, i);
      match script[i] {
        case Interrupted =>
        case Error => return Failed, count;
        case Moved(n) =>
          if n == 0 { return Eof, count; }
          count := count + Clip(n, size - count);
      }
      i := i + 1;
    }
    assert script[..|script|] == script;
    outcome := if count == size then Done else Running;
  }

  lemma {:induction false} TotalMore(script: seq<Sys>, i: nat)
    requires i < |script|
    ensures script[..i + 1] == script[..i] + [script[i]]
    ensures Total(script[..i + 1]) == Total(script[..i]) + if script[i].Moved? then script[i].n else 0
    decreases i
  {
    assert script[..i + 1] == script[..i] + [script[i]];
    if i > 0 {
      TotalMore(script[1..], i - 1);
      assert script[..i + 1][1..] == script[1..][..i] && script[..i][1..] == script[1..][..i - 1];
    } else {
      assert script[..1][1..] == [];
    }
  }
}
