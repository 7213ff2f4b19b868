/** Descriptors of the Streaming Data Engine: their packed dword form, the
    descriptor ring built over a table of buffers, and the dword stream that the
    ring stands for when it is posted again and again. */
module SdeDesc {
  import opened Modular
  import opened Bits

  const TWO32: int := 0x1_0000_0000

  const SDE_NUM_DESC: nat := 64
  const START_DOUBLE_WORD: u32 := 0x11110000

  datatype Subsystem = C2H | H2C

  /** One DMA buffer: its bus address and its length in bytes. */
  datatype Buffer = Buffer(addr: u64, length: u32)

  datatype Desc =
    | C2hDesc(length: u32, physAddr: u64, reserved32: u32)
    | H2cDesc(length: u32, physAddr: u64, cfgBits: u32, reserved64: u64, user: u64)

  /** Dwords per descriptor: desc_element_size >> 2. */
  function Dw(sub: Subsystem): nat { if sub.C2H? then 4 else 8 }

  /** Position of the first dword of descriptor k. */
  function At(sub: Subsystem, k: nat): nat { if sub.C2H? then 4 * k else 8 * k }

  /** Number of whole descriptors in a dword stream. */
  function Whole(sub: Subsystem, stream: seq<u32>): nat {
    if sub.C2H? then |stream| / 4 else |stream| / 8
  }

  predicate Kind(sub: Subsystem, d: Desc) { sub.C2H? <==> d.C2hDesc? }

  function Lo(x: u64): u32 { x % 0x1_0000_0000 }
  function Hi(x: u64): u32 { x / 0x1_0000_0000 }
  function Join(lo: u32, hi: u32): u64 { hi * 0x1_0000_0000 + lo }

  /** The packed, little-endian layout of the two descriptor structs as dwords. */
  function Encode(d: Desc): seq<u32> {
    match d
    case C2hDesc(length, pa, r) => [length, Lo(pa), Hi(pa), r]
    case H2cDesc(length, pa, cfg, r, user) =>
      [length, Lo(pa), Hi(pa), cfg, Lo(r), Hi(r), Lo(user), Hi(user)]
  }

  /** What the card makes of the dwords of one descriptor. */
  function Decode(sub: Subsystem, w: seq<u32>): Desc
    requires |w| == Dw(sub)
  {
    if sub.C2H? then C2hDesc(w[0], Join(w[1], w[2]), w[3])
    else H2cDesc(w[0], Join(w[1], w[2]), w[3], Join(w[4], w[5]), Join(w[6], w[7]))
  }

  lemma DecodeEncode(sub: Subsystem, d: Desc)
    requires Kind(sub, d)
    ensures |Encode(d)| == Dw(sub)
    ensures Decode(sub, Encode(d)) == d
  {
  }

  /** Descriptor k as the card frames it out of the dwords it was given. */
  function DescAt(sub: Subsystem, stream: seq<u32>, k: nat): Desc
    requires k < Whole(sub, stream)
  {
    Decode(sub, stream[At(sub, k)..At(sub, k) + Dw(sub)])
  }

  predicate Ring(sub: Subsystem, ring: seq<Desc>) {
    |ring| > 0 && forall i :: 0 <= i < |ring| ==> Kind(sub, ring[i])
  }

  /** Dword j of the infinite stream ring[0], ring[1], ... repeated cyclically. */
  function CyclicDword(sub: Subsystem, ring: seq<Desc>, j: nat): u32
    requires Ring(sub, ring)
  {
    DecodeEncode(sub, ring[(j / Dw(sub)) % |ring|]);
    Encode(ring[(j / Dw(sub)) % |ring|])[j % Dw(sub)]
  }

  /** The stream is a prefix of that infinite one. */
  ghost predicate Cyclic(sub: Subsystem, ring: seq<Desc>, stream: seq<u32>) {
    && Ring(sub, ring)
    && forall j :: 0 <= j < |stream| ==> stream[j] == CyclicDword(sub, ring, j)
  }

  lemma DwordOf(sub: Subsystem, ring: seq<Desc>, k: nat, i: nat)
    requires Ring(sub, ring) && i < Dw(sub)
    ensures |Encode(ring[k % |ring|])| == Dw(sub)
    ensures CyclicDword(sub, ring, At(sub, k) + i) == Encode(ring[k % |ring|])[i]
  {
    DecodeEncode(sub, ring[k % |ring|]);
    var j := At(sub, k) + i;
    assert j / Dw(sub) == k && j % Dw(sub) == i;
  }

  lemma StreamDword(sub: Subsystem, ring: seq<Desc>, stream: seq<u32>, k: nat, i: nat)
    requires Cyclic(sub, ring, stream) && i < Dw(sub) && At(sub, k) + i < |stream|
    ensures |Encode(ring[k % |ring|])| == Dw(sub)
    ensures stream[At(sub, k) + i] == Encode(ring[k % |ring|])[i]
  {
    hide Encode, Decode, CyclicDword;
    DwordOf(sub, ring, k, i);
  }

  lemma WholeFits(sub: Subsystem, stream: seq<u32>, k: nat)
    requires k < Whole(sub, stream)
    ensures At(sub, k) + Dw(sub) <= |stream|
  {
  }

  /** The card, which only sees dwords, frames exactly the ring's descriptors, in
      order and around the ring as often as it takes. */
  lemma CyclicDecodes(sub: Subsystem, ring: seq<Desc>, stream: seq<u32>, k: nat)
    requires Cyclic(sub, ring, stream) && k < Whole(sub, stream)
    ensures DescAt(sub, stream, k) == ring[k % |ring|]
  {
    hide Encode, Decode, CyclicDword, At, Whole;
    var d := ring[k % |ring|];
    DecodeEncode(sub, d);
    WholeFits(sub, stream, k);
    var w := stream[At(sub, k)..At(sub, k) + Dw(sub)];
    forall i: nat | i < Dw(sub) ensures w[i] == Encode(d)[i] {
      StreamDword(sub, ring, stream, k, i);
    }
    assert w == Encode(d);
  }

  // ---- Ring initialisation -------------------------------------------------

  /** get_next_start_dw: the nibble in bits 16..19 plus one, replicated four times.
      The four shifted copies share no bit, so their bitwise or is their sum. */
  function NextStartDw(curr: u32): u32 {
    var b := (curr / 0x1_0000 % 16 + 1) % 16;
    b * 0x1_0000 + b * 0x10_0000 + b * 0x100_0000 + b * 0x1000_0000
  }

  /** The dword that carries nibble n four times in its upper half. */
  function NibbleDw(n: nat): u32 { n % 16 * 0x1111_0000 }

  lemma NextNibble(n: nat)
    ensures NextStartDw(NibbleDw(n)) == NibbleDw(n + 1)
  {
    var m := n % 16;
    DivModUnique(m * 0x1111_0000, 0x1_0000, m * 0x1111, 0);
    DivModUnique(m * 0x1111, 16, m * 0x111, m);
    assert (m + 1) % 16 == (n + 1) % 16;
  }

  /** Descriptor i of an initialised ring. */
  function RingDesc(sub: Subsystem, buffers: seq<Buffer>, i: nat): Desc
    requires |buffers| > 0
  {
    var b := buffers[i % |buffers|];
    if sub.C2H? then C2hDesc(b.length, b.addr, 0)
    else H2cDesc(b.length, b.addr, 1, 0, Join(NibbleDw(1 + i), NibbleDw(2 + i)))
  }

  ghost predicate InitialisedRing(sub: Subsystem, buffers: seq<Buffer>, ring: seq<Desc>) {
    && |buffers| > 0 && |ring| > 0
    && forall i :: 0 <= i < |ring| ==> ring[i] == RingDesc(sub, buffers, i)
  }

  /** The user word of every H2C descriptor carries the nibbles (1+i) and (2+i)
      modulo 16, each four times over, in its two dwords; EOP is set, SPB clear. */
  lemma UserNibbles(buffers: seq<Buffer>, ring: seq<Desc>, i: nat, p: nat)
    requires InitialisedRing(H2C, buffers, ring) && i < |ring| && p < 4
    ensures ring[i].H2cDesc? && ring[i].cfgBits == 1
    ensures ring[i].physAddr == buffers[i % |buffers|].addr
    ensures ring[i].length == buffers[i % |buffers|].length
    ensures var shift := if p == 0 then 0x1_0000 else if p == 1 then 0x10_0000
                         else if p == 2 then 0x100_0000 else 0x1000_0000;
            && Lo(ring[i].user) / shift % 16 == (1 + i) % 16
            && Hi(ring[i].user) / shift % 16 == (2 + i) % 16
  {
    var lo, hi := NibbleDw(1 + i), NibbleDw(2 + i);
    assert ring[i] == RingDesc(H2C, buffers, i);
    JoinParts(lo, hi);
    NibbleDigits(1 + i);
    NibbleDigits(2 + i);
  }

  lemma JoinParts(lo: u32, hi: u32)
    ensures Lo(Join(lo, hi)) == lo && Hi(Join(lo, hi)) == hi
  {
  }

  lemma NibbleDigits(n: nat)
    ensures NibbleDw(n) / 0x1_0000 % 16 == n % 16
    ensures NibbleDw(n) / 0x10_0000 % 16 == n % 16
    ensures NibbleDw(n) / 0x100_0000 % 16 == n % 16
    ensures NibbleDw(n) / 0x1000_0000 % 16 == n % 16
  {
    var m := n % 16;
    DivModUnique(m * 0x1111_0000, 0x1_0000, m * 0x1111, 0);
    DivModUnique(m * 0x1111, 16, m * 0x111, m);
    DivModUnique(m * 0x1111_0000, 0x10_0000, m * 0x111, m * 0x1_0000);
    DivModUnique(m * 0x111, 16, m * 0x11, m);
    DivModUnique(m * 0x1111_0000, 0x100_0000, m * 0x11, m * 0x11_0000);
    DivModUnique(m * 0x11, 16, m, m);
    DivModUnique(m * 0x1111_0000, 0x1000_0000, m, m * 0x111_0000);
  }
}
