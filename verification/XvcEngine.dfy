/** The server with the shift engine behind it: a whole connection seen as one bit string
    clocked through the scan chain. */
module XvcEngine {
  import opened Bits
  import opened XvcShift
  import opened XvcStream
  import opened XvcServer

  /** Bits in bytes, the last one filled up with zeros. */
  function Pack(bits: seq<bool>): (b: seq<u8>)
    ensures |b| == (|bits| + 7) / 8
  {
    Unword(FromBits(bits), (|bits| + 7) / 8)
  }

  lemma PackBits(bits: seq<bool>)
    ensures BytesBits(Pack(bits))[..|bits|] == bits
  {
    hide BytesBits, FromBits, Unword, BitsOf;
    var n := (|bits| + 7) / 8;
    FromBitsBack(bits);
    UnwordBits(FromBits(bits), n);
    BitsPrefix(FromBits(bits), |bits|, 8 * n - |bits|);
  }

  /** Both vectors of a shift hold as many bits as it is to clock. */
  predicate Holds(op: Op) { op.Shift? ==> op.bits <= 8 * |op.tms| && op.bits <= 8 * |op.tdi| }

  /** They do unless the byte count, taken modulo 2^32, has wrapped to 0. */
  lemma HoldsUnlessWrapped(op: Op)
    requires Sendable(op) && op.Shift?
    ensures Holds(op) <==> op.bits < 0xFFFF_FFF9
    ensures !Holds(op) ==> op.tms == op.tdi == []
  {
  }

  /** The commands the server parses carry vectors of that byte count. */
  lemma {:induction false} ParsedSendable(s: Bytes, max: nat)
    ensures forall i :: 0 <= i < |ParseAll(s, max).ops| ==> Sendable(ParseAll(s, max).ops[i])
    decreases |s|
  {
    hide ParseOne, ParseAll, Sendable;
    ParseStep(s, max);
    if ParseOne(s, max).Cmd? {
      OneSendable(s, max);
      ParsedSendable(s[ParseOne(s, max).len..], max);
    }
  }

  lemma OneSendable(s: Bytes, max: nat)
    ensures ParseOne(s, max).Cmd? ==> Sendable(ParseOne(s, max).op)
  {
    hide Word, Pow2, NameOf, VectorBytes;
    ShiftMore(s, [], max);
    TckMore(s, []);
    if |s| >= 10 { WordFits(s[6..10]); }
    if |s| >= 11 { WordFits(s[7..11]); }
  }

  lemma WordFits(b: Bytes)
    requires |b| == 4
    ensures Word(b) < 0x1_0000_0000
  {
    PowIs32();
    WordBits(b);
  }

  /** The target of a server whose shifts go through the engine to this chain. */
  function Engine<S>(c: Chain<S>): Target<S> {
    Target((s: S, bits: nat, tms: Bytes, tdi: Bytes) =>
             if bits <= 8 * |tms| && bits <= 8 * |tdi| then
               (Final(c, s, Clocks(tms, tdi, bits)), Pack(Outs(c, s, Clocks(tms, tdi, bits))))
             else (s, []))
  }

  /** shift_tms_tdi as the server calls it, on the vectors of a parsed command: unless an
      access fails, the chain ends where the target says and the reply carries its bits. */
  method ShiftCommand<S>(b: Bridge<S>, op: Op, bufMax: nat) returns (status: int, reply: Bytes)
    requires b.left == [] && Sendable(op) && op.Shift? && op.bits < 0xFFFF_FFF9
    modifies b
    ensures |reply| == |op.tms| == (op.bits + 7) / 8
    ensures status == 0 ==>
              var a := Answer(Engine(b.chain), bufMax, old(b.state), op);
              && b.left == [] && b.state == a.0 && |reply| == |a.1|
              && BytesBits(reply)[..op.bits] == BytesBits(a.1)[..op.bits] == Outs(b.chain, old(b.state), Clocks(op.tms, op.tdi, op.bits))
  {
    hide BytesBits, Outs, Final, Clocks, Pack;
    HoldsUnlessWrapped(op);
    var tdo := new u8[|op.tms|](i => 0);
    ghost var ins, s0 := Clocks(op.tms, op.tdi, op.bits), b.state;
    ghost var done;
    status, done := ShiftTmsTdi(b, op.bits, op.tms, op.tdi, tdo);
    reply := tdo[..];
    if status == 0 {
      assert ins[..done] == ins;
      PackBits(Outs(b.chain, s0, ins));
    }
  }

  /** All bits that a list of commands shifts in, in order. */
  function AllClocks(ops: seq<Op>): seq<In>
    requires forall i :: 0 <= i < |ops| ==> Holds(ops[i])
  {
    if ops == [] then []
    else
      assert Holds(ops[0]);
      (if ops[0].Shift? then Clocks(ops[0].tms, ops[0].tdi, ops[0].bits) else []) + AllClocks(ops[1..])
  }

  /** The bits that the replies to its shifts carry, in order. */
  function AllAnswers<D>(t: Target<D>, max: nat, d: D, ops: seq<Op>): seq<bool> {
    if ops == [] then []
    else
      var a := Answer(t, max, d, ops[0]);
      (if ops[0].Shift? && ops[0].bits <= 8 * |a.1| then BytesBits(a.1)[..ops[0].bits] else []) + AllAnswers(t, max, a.0, ops[1..])
  }

  /** One shift of all the bits does to the chain what the commands do, and its answer is
      what their replies carry. */
  lemma {:induction false} OneLongShift<S>(c: Chain<S>, max: nat, s: S, ops: seq<Op>)
    requires forall i :: 0 <= i < |ops| ==> Holds(ops[i])
    ensures After(Engine(c), max, s, ops) == Final(c, s, AllClocks(ops))
    ensures AllAnswers(Engine(c), max, s, ops) == Outs(c, s, AllClocks(ops))
    decreases |ops|
  {
    hide BytesBits, Outs, Final, Clocks, Pack, Info;
    if ops == [] {
      RunNone(c, s, [], []);
    } else {
      var a := Answer(Engine(c), max, s, ops[0]);
      OneLongShift(c, max, a.0, ops[1..]);
      if ops[0].Shift? {
        var ins := Clocks(ops[0].tms, ops[0].tdi, ops[0].bits);
        PackBits(Outs(c, s, ins));
        RunConcat(c, s, ins, AllClocks(ops[1..]));
      } else {
        assert [] + AllClocks(ops[1..]) == AllClocks(ops[1..]);
      }
    }
  }

  /** End to end: over any connection that serves a stream without a wrapped byte count,
      however recv cuts it, the chain is clocked with exactly the bits of the stream's
      shifts, in order. */
  lemma ConnectionIsShift<S>(c: Chain<S>, bufMax: nat, s: S, stream: Bytes, chunks: seq<Bytes>)
    requires Complete(Engine(c), bufMax, s, stream, chunks)
    requires forall i :: 0 <= i < |ParseAll(stream, bufMax).ops| ==>
                           var op := ParseAll(stream, bufMax).ops[i]; op.Shift? ==> op.bits < 0xFFFF_FFF9
    ensures forall i :: 0 <= i < |ParseAll(stream, bufMax).ops| ==> Holds(ParseAll(stream, bufMax).ops[i])
    ensures Serve(Engine(c), bufMax, s, chunks).dev == Final(c, s, AllClocks(ParseAll(stream, bufMax).ops))
    ensures AllAnswers(Engine(c), bufMax, s, Serve(Engine(c), bufMax, s, chunks).ops) ==
              Outs(c, s, AllClocks(ParseAll(stream, bufMax).ops))
  {
    hide ParseAll, Complete, Serve, Engine, Sendable, Holds, AllAnswers, AllClocks;
    var ops := ParseAll(stream, bufMax).ops;
    ParsedSendable(stream, bufMax);
    forall i | 0 <= i < |ops| ensures Holds(ops[i]) {
      if ops[i].Shift? { HoldsUnlessWrapped(ops[i]); } else { OtherHolds(ops[i]); }
    }
    CompleteIsWhole(Engine(c), bufMax, s, stream, chunks);
    OneLongShift(c, bufMax, s, ops);
  }

  lemma OtherHolds(op: Op)
    requires !op.Shift?
    ensures Holds(op)
  {
  }
}
