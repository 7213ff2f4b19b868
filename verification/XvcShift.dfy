/** The shift engine of the virtual JTAG server: a bit string clocked through the
    debug bridge at most 32 bits at a time. */
module XvcShift {
  import opened Bits

  const POLL_COUNT: nat := 100
  const ETIMEDOUT: int := 110

  /** What one clock carries in. */
  datatype In = In(tms: bool, tdi: bool)

  /** The scan chain behind the bridge, any machine that answers a bit to each clock. */
  datatype Chain<!S> = Chain(next: (S, In) -> S, out: (S, In) -> bool)

  function Final<S>(c: Chain<S>, s: S, ins: seq<In>): S {
    if ins == [] then s else Final(c, c.next(s, ins[0]), ins[1..])
  }

  function Outs<S>(c: Chain<S>, s: S, ins: seq<In>): (r: seq<bool>)
    ensures |r| == |ins|
  {
    if ins == [] then [] else [c.out(s, ins[0])] + Outs(c, c.next(s, ins[0]), ins[1..])
  }

  lemma {:induction false} RunConcat<S>(c: Chain<S>, s: S, x: seq<In>, y: seq<In>)
    ensures Final(c, s, x + y) == Final(c, Final(c, s, x), y)
    ensures Outs(c, s, x + y) == Outs(c, s, x) + Outs(c, Final(c, s, x), y)
    decreases |x|
  {
    if x == [] {
      assert x + y == y;
    } else {
      RunConcat(c, c.next(s, x[0]), x[1..], y);
      assert (x + y)[0] == x[0] && (x + y)[1..] == x[1..] + y;
    }
  }

  function Zip(tms: seq<bool>, tdi: seq<bool>): (z: seq<In>)
    requires |tms| == |tdi|
    ensures |z| == |tms|
  {
    seq(|tms|, i requires 0 <= i < |tms| => In(tms[i], tdi[i]))
  }

  /** The bridge: length, data and control registers in front of the chain. A shift may
      take any number of polls, and any access may fail without effect. */
  class Bridge<S> {
    const chain: Chain<S>
    var state: S
    var lengthReg: u32
    var tmsReg: u32
    var tdiReg: u32
    var left: seq<In>           // clocks of the shift under way that are still to come
    var outs: seq<bool>         // bits it has shifted out so far
    ghost var clocked: seq<In>  // every clock ever
    ghost var peeks: nat

    constructor (chain: Chain<S>, state: S)
      ensures this.chain == chain && this.state == state && left == [] && clocked == [] && peeks == 0
    {
      this.chain, this.state := chain, state;
      lengthReg, tmsReg, tdiReg, left, outs, clocked, peeks := 0, 0, 0, [], [], [], 0;
    }

    method PokeLength(n: u32) returns (status: int)
      modifies this`lengthReg
      ensures lengthReg == if status == 0 then n else old(lengthReg)
    {
      status := *;
      if status == 0 { lengthReg := n; }
    }

    method PokeTms(x: u32) returns (status: int)
      modifies this`tmsReg
      ensures tmsReg == if status == 0 then x else old(tmsReg)
    {
      status := *;
      if status == 0 { tmsReg := x; }
    }

    method PokeTdi(x: u32) returns (status: int)
      modifies this`tdiReg
      ensures tdiReg == if status == 0 then x else old(tdiReg)
    {
      status := *;
      if status == 0 { tdiReg := x; }
    }

    /** Writing 1 to the control register starts a shift of lengthReg bits. */
    method PokeControl() returns (status: int)
      modifies this`left, this`outs
      ensures status == 0 && lengthReg <= 32 ==>
                left == Zip(BitsOf(tmsReg, lengthReg), BitsOf(tdiReg, lengthReg)) && outs == []
      ensures status != 0 ==> left == old(left) && outs == old(outs)
    {
      status := *;
      if status == 0 {
        var n := if lengthReg <= 32 then lengthReg else 32;
        left, outs := Zip(BitsOf(tmsReg, n), BitsOf(tdiReg, n)), [];
      }
    }

    /** Reading the control register: bit 0 stays set at least until all bits are out. */
    method PeekControl() returns (status: int, busy: bool, ghost ran: seq<In>)
      modifies this`left, this`outs, this`state, this`clocked, this`peeks
      ensures peeks == old(peeks) + 1
      ensures Ran(old(state), old(outs), old(clocked), old(left), ran)
      ensures status == 0 && !busy ==> left == []
    {
      hide Final, Outs;
      peeks := peeks + 1;
      var n: int := *;
      ran := [];
      RunNone(chain, state, left, clocked);
      while n > 0 && left != []
        invariant Ran(old(state), old(outs), old(clocked), old(left), ran) && peeks == old(peeks) + 1
      {
        n := n - 1;
        RunConcat(chain, old(state), ran, [left[0]]);
        RunOne(chain, state, left[0]);
        assert (ran + [left[0]]) + left[1..] == ran + left;
        assert old(clocked) + (ran + [left[0]]) == clocked + [left[0]];
        ran := ran + [left[0]];
        outs := outs + [chain.out(state, left[0])];
        clocked := clocked + [left[0]];
        state := chain.next(state, left[0]);
        left := left[1..];
      }
      status := *;
      busy := *;
      busy := busy || left != [];
    }

    /** The clocks `ran` happened since the given state. */
    ghost predicate Ran(state0: S, outs0: seq<bool>, clocked0: seq<In>, left0: seq<In>, ran: seq<In>)
      reads this
    {
      && left0 == ran + left && clocked == clocked0 + ran
      && state == Final(chain, state0, ran) && outs == outs0 + Outs(chain, state0, ran)
    }

    /** Reading the output register: the bits shifted out, below bits of no meaning. */
    method PeekTdo() returns (status: int, x: u32)
      requires |outs| <= 32
      modifies this`peeks
      ensures peeks == old(peeks) + 1
      ensures BitsOf(x, |outs|) == outs
    {
      peeks := peeks + 1;
      status := *;
      var junk: seq<bool> := *;
      if |outs| + |junk| > 32 { junk := []; }
      FromBitsBack(outs + junk);
      BitsPrefix(FromBits(outs + junk), |outs|, |junk|);
      PowMonotone(|outs| + |junk|, 32);
      PowIs32();
      x := FromBits(outs + junk);
    }
  }

  /** Clocking ins took the chain from s0 to s, and is what was added to the record. */
  ghost predicate Shifted<S>(c: Chain<S>, s: S, clocked: seq<In>, s0: S, clocked0: seq<In>, ins: seq<In>) {
    clocked == clocked0 + ins && s == Final(c, s0, ins)
  }

  /** xvc_shift_bits: one transaction of as many bits as the length register says. */
  method ShiftBits<S>(b: Bridge<S>, tms: u32, tdi: u32) returns (status: int, tdo: u32, ghost done: nat)
    requires b.left == [] && b.lengthReg <= 32
    modifies b
    ensures b.lengthReg == old(b.lengthReg)
    ensures b.peeks <= old(b.peeks) + POLL_COUNT + 1
    ensures done <= b.lengthReg
    ensures var ins := Zip(BitsOf(tms, b.lengthReg), BitsOf(tdi, b.lengthReg));
            && Shifted(b.chain, b.state, b.clocked, old(b.state), old(b.clocked), ins[..done])
            && (status == 0 ==>
                 && b.left == [] && done == b.lengthReg
                 && BitsOf(tdo, b.lengthReg) == Outs(b.chain, old(b.state), ins))
  {
    hide Final, Outs, Zip, BitsOf;
    tdo, done := 0, 0;
    RunNone(b.chain, b.state, Zip(BitsOf(tms, b.lengthReg), BitsOf(tdi, b.lengthReg)), b.clocked);
    status := b.PokeTms(tms);
    if status != 0 { return; }
    status := b.PokeTdi(tdi);
    if status != 0 { return; }
    status := b.PokeControl();
    if status != 0 { return; }
    ghost var ins := b.left;
    status, done := AwaitShift(b);
    if status != 0 { return; }
    assert ins[..done] == ins;
    status, tdo := b.PeekTdo();
  }

  /** The wait loop: at most POLL_COUNT polls of the control register. */
  method AwaitShift<S>(b: Bridge<S>) returns (status: int, ghost done: nat)
    requires b.outs == []
    modifies b`left, b`outs, b`state, b`clocked, b`peeks
    ensures b.peeks <= old(b.peeks) + POLL_COUNT
    ensures done <= old(|b.left|)
    ensures Shifted(b.chain, b.state, b.clocked, old(b.state), old(b.clocked), old(b.left)[..done])
    ensures b.outs == Outs(b.chain, old(b.state), old(b.left)[..done])
    ensures status == 0 ==> b.left == [] && done == old(|b.left|)
  {
    hide Final, Outs;
    ghost var s0, c0, ins := b.state, b.clocked, b.left;
    RunNone(b.chain, s0, ins, c0);
    done := 0;
    var count := POLL_COUNT;
    var busy := true;
    while busy
      invariant 0 < count <= POLL_COUNT && b.peeks == old(b.peeks) + (POLL_COUNT - count) + if busy then 0 else 1
      invariant done <= |ins| && b.left == ins[done..] && b.outs == Outs(b.chain, s0, ins[..done])
      invariant Shifted(b.chain, b.state, b.clocked, s0, c0, ins[..done])
      invariant !busy ==> b.left == []
      decreases busy, count
    {
      ghost var ran;
      status, busy, ran := b.PeekControl();
      PollStep(b.chain, s0, ins, done, ran);
      assert c0 + ins[..done] + ran == c0 + ins[..done + |ran|];
      done := done + |ran|;
      if status != 0 { return; }
      if busy {
        count := count - 1;
        if count == 0 { return -ETIMEDOUT, done; }
      }
    }
    status := 0;
  }

  lemma RunNone<S>(c: Chain<S>, s: S, ins: seq<In>, clocked: seq<In>)
    ensures ins[..0] == [] && Final(c, s, []) == s && Outs(c, s, []) == [] && clocked + [] == clocked
  {
  }

  lemma RunOne<S>(c: Chain<S>, s: S, a: In)
    ensures Final(c, s, [a]) == c.next(s, a) && Outs(c, s, [a]) == [c.out(s, a)]
  {
  }

  lemma PollStep<S>(c: Chain<S>, s: S, ins: seq<In>, done: nat, ran: seq<In>)
    requires done <= |ins| && ran <= ins[done..]
    ensures ins[..done] + ran == ins[..done + |ran|]
    ensures Final(c, Final(c, s, ins[..done]), ran) == Final(c, s, ins[..done + |ran|])
    ensures Outs(c, s, ins[..done]) + Outs(c, Final(c, s, ins[..done]), ran) == Outs(c, s, ins[..done + |ran|])
  {
    assert ins[..done] + ran == ins[..done + |ran|];
    RunConcat(c, s, ins[..done], ran);
  }

  // ---- Whole vectors ----------------------------------------------------------------

  /** The clocks that a command of bitcount bits stands for. */
  function Clocks(tms: seq<u8>, tdi: seq<u8>, bitcount: nat): (ins: seq<In>)
    requires bitcount <= 8 * |tms| && bitcount <= 8 * |tdi|
    ensures |ins| == bitcount
  {
    Zip(BytesBits(tms)[..bitcount], BytesBits(tdi)[..bitcount])
  }

  /** The first bytes of a 4-byte store that was overlaid with buf from byte i on. */
  lemma StoreBits(buf: seq<u8>, store: seq<u8>, i: nat, n: nat, nb: nat)
    requires n <= 8 * nb <= 32 && i + nb <= |buf| && |store| == 4 && store[..nb] == buf[i..i + nb]
    ensures Word(store) < 0x1_0000_0000
    ensures BitsOf(Word(store), n) == BytesBits(buf)[8 * i..8 * i + n]
  {
    hide BytesBits, BitsOf, Word, Pow2;
    PowIs32();
    WordBits(store);
    BitsPrefix(Word(store), n, 32 - n);
    PrefixBits(store, nb, n);
    MiddleBits(buf, i, i + nb, n);
  }

  /** n bits from byte i on are the first n bits of the bytes there. */
  lemma MiddleBits(b: seq<u8>, i: nat, j: nat, n: nat)
    requires i <= j <= |b| && n <= 8 * (j - i)
    ensures BytesBits(b)[8 * i..8 * i + n] == BytesBits(b[i..j])[..n]
  {
    hide BytesBits;
    BytesBitsSlice(b, i, j);
    SubSlice(BytesBits(b), 8 * i, 8 * j, n, BytesBits(b[i..j]));
  }

  lemma FrontBits(b: seq<u8>, i: nat)
    requires i <= |b|
    ensures BytesBits(b)[..8 * i] == BytesBits(b[..i])
  {
    hide BytesBits;
    BytesBitsSlice(b, 0, i);
    assert b[0..i] == b[..i];
  }

  lemma PrefixBits(b: seq<u8>, nb: nat, n: nat)
    requires nb <= |b| && n <= 8 * nb
    ensures BytesBits(b)[..n] == BytesBits(b[..nb])[..n]
  {
    hide BytesBits;
    FrontBits(b, nb);
    SubSlice(BytesBits(b), 0, 8 * nb, n, BytesBits(b[..nb]));
  }

  lemma SubSlice<T>(s: seq<T>, i: nat, j: nat, n: nat, part: seq<T>)
    requires i <= j <= |s| && n <= j - i && s[i..j] == part
    ensures s[i..i + n] == part[..n]
  {
  }

  /** What the output buffer holds once the bytes of a word went in at byte i. */
  lemma LoadBits(old_: seq<u8>, new_: seq<u8>, x: nat, i: nat, j: nat, n: nat)
    requires i <= j <= |old_| == |new_| && n <= 8 * (j - i) <= 32
    requires new_[..i] == old_[..i] && new_[i..j] == Unword(x, 4)[..j - i]
    ensures BytesBits(new_)[..8 * i + n] == BytesBits(old_)[..8 * i] + BitsOf(x, n)
  {
    hide BytesBits, BitsOf, Unword;
    WordFront(x, j - i, n);
    MiddleBits(new_, i, j, n);
    FrontBits(new_, i);
    FrontBits(old_, i);
    JoinParts(BytesBits(new_), BytesBits(old_)[..8 * i], BitsOf(x, n), 8 * i, n);
  }

  lemma WordFront(x: nat, nb: nat, n: nat)
    requires nb <= 4 && n <= 8 * nb
    ensures BytesBits(Unword(x, 4)[..nb])[..n] == BitsOf(x, n)
  {
    hide BytesBits, BitsOf, Unword;
    UnwordBits(x, 4);
    BitsPrefix(x, n, 32 - n);
    PrefixBits(Unword(x, 4), nb, n);
  }

  lemma JoinParts<T>(s: seq<T>, x: seq<T>, y: seq<T>, i: nat, n: nat)
    requires i + n <= |s| && s[..i] == x && s[i..i + n] == y
    ensures s[..i + n] == x + y
  {
  }

  lemma ClocksSlice(tms: seq<u8>, tdi: seq<u8>, bitcount: nat, cur: nat, n: nat)
    requires bitcount <= 8 * |tms| && bitcount <= 8 * |tdi| && cur + n <= bitcount
    ensures Clocks(tms, tdi, bitcount)[cur..cur + n] == Zip(BytesBits(tms)[cur..cur + n], BytesBits(tdi)[cur..cur + n])
  {
    hide BytesBits, Zip;
    ZipSlice(BytesBits(tms), BytesBits(tdi), bitcount, cur, n);
  }

  lemma ZipSlice(a: seq<bool>, b: seq<bool>, m: nat, i: nat, n: nat)
    requires i + n <= m <= |a| && m <= |b|
    ensures Zip(a[..m], b[..m])[i..i + n] == Zip(a[i..i + n], b[i..i + n])
  {
  }

  /** Bytes that hold n bits, and words of 32 that n bits are shifted in. */
  function Bytes(n: nat): nat { (n + 7) / 8 }
  function Words(n: nat): nat { (n + 31) / 32 }

  lemma OneChunk(cur: nat, n: nat, bitcount: nat)
    requires cur % 32 == 0 && cur < bitcount && n == if bitcount - cur < 32 then bitcount - cur else 32
    ensures Words(cur + n) == Words(cur) + 1
    ensures cur / 8 + Bytes(n) <= Bytes(bitcount) && cur == 8 * (cur / 8)
    ensures (cur + n) % 32 == 0 || cur + n == bitcount
  {
    var q := cur / 32;
    assert cur == 32 * q && cur / 8 == 4 * q;
    assert Words(32 * q) == q && Words(32 * q + n) == q + 1;
    assert Bytes(32 * q + n) == 4 * q + Bytes(n);
    BytesMonotone(cur + n, bitcount);
  }

  lemma BytesMonotone(x: nat, y: nat)
    requires x <= y
    ensures Bytes(x) <= Bytes(y)
  {
  }

  lemma WordsMonotone(x: nat, y: nat)
    requires x <= y
    ensures Words(x) <= Words(y)
  {
  }

  lemma NoBits()
    ensures Words(0) == 0
  {
  }

  lemma BytesFit(bitcount: nat, len: nat)
    requires bitcount <= 8 * len
    ensures Bytes(bitcount) <= len
  {
  }

  /** The body of the loop of shift_tms_tdi, from byte `from` on: n bits of either vector
      are copied over the stores of the last turn, shifted, and the answer copied out. */
  method ShiftChunk<S>(b: Bridge<S>, from: nat, n: nat, tms: seq<u8>, tdi: seq<u8>, tmsStore: seq<u8>, tdiStore: seq<u8>,
                       tdo: array<u8>)
    returns (status: int, tmsNext: seq<u8>, tdiNext: seq<u8>, ghost done: nat)
    requires b.left == [] && b.lengthReg == n <= 32 && |tmsStore| == |tdiStore| == 4
    requires from + Bytes(n) <= |tms| && from + Bytes(n) <= |tdi| && from + Bytes(n) <= tdo.Length
    modifies b, tdo
    ensures |tmsNext| == |tdiNext| == 4 && b.lengthReg == n && done <= n
    ensures b.peeks <= old(b.peeks) + 101
    ensures tdo[from + Bytes(n)..] == old(tdo[from + Bytes(n)..])
    ensures var ins := Zip(BytesBits(tms)[8 * from..8 * from + n], BytesBits(tdi)[8 * from..8 * from + n]);
            && Shifted(b.chain, b.state, b.clocked, old(b.state), old(b.clocked), ins[..done])
            && (status == 0 ==>
                 && b.left == [] && done == n
                 && BytesBits(tdo[..])[..8 * from + n] ==
                      old(BytesBits(tdo[..]))[..8 * from] + Outs(b.chain, old(b.state), ins))
  {
    hide BytesBits, BitsOf, Word, Unword, Final, Outs, Zip, Shifted, Pow2;
    var nb := Bytes(n);
    tmsNext := tms[from..from + nb] + tmsStore[nb..];
    tdiNext := tdi[from..from + nb] + tdiStore[nb..];
    StoreBits(tms, tmsNext, from, n, nb);
    StoreBits(tdi, tdiNext, from, n, nb);
    var tdoStore;
    status, tdoStore, done := ShiftBits(b, Word(tmsNext), Word(tdiNext));
    if status != 0 { return; }
    var bytes := Unword(tdoStore, 4);
    ghost var before := tdo[..];
    forall i | 0 <= i < nb { tdo[from + i] := bytes[i]; }
    LoadBits(before, tdo[..], tdoStore, from, from + nb, n);
  }

  /** shift_tms_tdi: the vectors in chunks of 32 bits and a shorter last one. Its status
      is dropped by the original, which returns nothing. Whatever fails, the chain saw a
      prefix of the clocks asked for; without a failure it saw them all, in order, and
      the output buffer holds its answers. */
  method ShiftTmsTdi<S>(b: Bridge<S>, bitcount: u32, tms: seq<u8>, tdi: seq<u8>, tdo: array<u8>)
    returns (status: int, ghost done: nat)
    requires b.left == []
    requires bitcount <= 8 * |tms| && bitcount <= 8 * |tdi| && bitcount <= 8 * tdo.Length
    modifies b, tdo
    ensures done <= bitcount
    ensures Shifted(b.chain, b.state, b.clocked, old(b.state), old(b.clocked), Clocks(tms, tdi, bitcount)[..done])
    ensures status == 0 ==>
              && done == bitcount && b.left == []
              && BytesBits(tdo[..])[..bitcount] == Outs(b.chain, old(b.state), Clocks(tms, tdi, bitcount))
    ensures Bytes(bitcount) <= tdo.Length && tdo[Bytes(bitcount)..] == old(tdo[Bytes(bitcount)..])
    ensures b.peeks <= old(b.peeks) + 101 * Words(bitcount)
  {
    hide BytesBits, Final, Outs, Zip, Clocks, Shifted, Bytes, Words;
    ghost var s0, c0, ins := b.state, b.clocked, Clocks(tms, tdi, bitcount);
    BytesFit(bitcount, |tms|);
    BytesFit(bitcount, |tdi|);
    BytesFit(bitcount, tdo.Length);
    NoBits();
    ShiftedNone(b.chain, s0, c0, ins);
    done := 0;
    var tmsStore: seq<u8>, tdiStore: seq<u8> := [0, 0, 0, 0], [0, 0, 0, 0];
    if bitcount >= 32 {
      status := b.PokeLength(0x20);
      if status != 0 { return; }
    }
    var cur := 0;
    while cur < bitcount
      invariant 0 <= cur == done <= bitcount && (cur % 32 == 0 || cur == bitcount) && b.left == []
      invariant cur + 32 <= bitcount ==> b.lengthReg == 32
      invariant |tmsStore| == 4 && |tdiStore| == 4
      invariant Shifted(b.chain, b.state, b.clocked, s0, c0, ins[..cur])
      invariant BytesBits(tdo[..])[..cur] == Outs(b.chain, s0, ins[..cur])
      invariant tdo[Bytes(bitcount)..] == old(tdo[Bytes(bitcount)..])
      invariant b.peeks <= old(b.peeks) + 101 * Words(cur)
    {
      var n: nat := 32;
      if bitcount - cur < n {
        n := bitcount - cur;
        status := b.PokeLength(n);
        if status != 0 {
          WordsMonotone(cur, bitcount);
          return;
        }
      }
      ClocksSlice(tms, tdi, bitcount, cur, n);
      ghost var s1, c1, before := b.state, b.clocked, tdo[..];
      OneChunk(cur, n, bitcount);
      status, tmsStore, tdiStore, done := ShiftChunk(b, cur / 8, n, tms, tdi, tmsStore, tdiStore, tdo);
      ChunkStep(b.chain, b.state, b.clocked, s1, c1, s0, c0, ins, cur, n, done);
      TailKept(before, tdo[..], cur / 8 + Bytes(n), Bytes(bitcount));
      done := cur + done;
      if status != 0 {
        WordsMonotone(cur + n, bitcount);
        return;
      }
      cur := cur + n;
    }
    assert ins[..cur] == ins;
    status := 0;
  }

  lemma TailKept<T>(x: seq<T>, y: seq<T>, i: nat, j: nat)
    requires i <= j <= |x| == |y| && x[i..] == y[i..]
    ensures x[j..] == y[j..]
  {
  }

  lemma ShiftedNone<S>(c: Chain<S>, s: S, clocked: seq<In>, ins: seq<In>)
    ensures Shifted(c, s, clocked, s, clocked, ins[..0]) && Outs(c, s, ins[..0]) == []
  {
  }

  /** After the clocks before cur, the first k of the n clocks from cur on. */
  lemma ChunkStep<S>(c: Chain<S>, s: S, clocked: seq<In>, s1: S, c1: seq<In>, s0: S, c0: seq<In>, ins: seq<In>,
                     cur: nat, n: nat, k: nat)
    requires cur + n <= |ins| && k <= n
    requires Shifted(c, s1, c1, s0, c0, ins[..cur]) && Shifted(c, s, clocked, s1, c1, ins[cur..cur + n][..k])
    ensures Shifted(c, s, clocked, s0, c0, ins[..cur + k])
    ensures Outs(c, s0, ins[..cur]) + Outs(c, s1, ins[cur..cur + n]) == Outs(c, s0, ins[..cur + n])
  {
    hide Final, Outs;
    var part, whole := ins[cur..cur + n][..k], ins[cur..cur + n];
    assert ins[..cur] + part == ins[..cur + k];
    RunConcat(c, s0, ins[..cur], part);
    assert (c0 + ins[..cur]) + part == c0 + (ins[..cur] + part);
    assert ins[..cur] + whole == ins[..cur + n];
    RunConcat(c, s0, ins[..cur], whole);
  }
}
