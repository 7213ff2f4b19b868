/** The virtual JTAG server: what it does with a byte stream that arrives in pieces. */
module XvcServer {
  import opened Bits
  import opened XvcStream

  const MAX_PACKET_LEN: nat := 10000
  const XVC_VERSION: nat := 10

  /** The JTAG target as the server sees it: every shift moves it and yields a vector. */
  datatype Target<!D> = Target(shift: (D, nat, Bytes, Bytes) -> (D, Bytes))

  function Decimal(n: nat): Bytes {
    if n < 10 then [48 + n] else Decimal(n / 10) + [48 + n % 10]
  }

  /** "xvcServer_v1.0:<bufMax>" and a newline. */
  function Info(bufMax: nat): Bytes {
    [120, 118, 99, 83, 101, 114, 118, 101, 114, 95, 118] + Decimal(XVC_VERSION / 10) + [46] + Decimal(XVC_VERSION % 10)
      + [58] + Decimal(bufMax) + [10]
  }

  /** With the buffer the program allocates: "xvcServer_v1.0:10000" and a newline. */
  lemma InfoText()
    ensures Info(MAX_PACKET_LEN) ==
              [120, 118, 99, 83, 101, 114, 118, 101, 114, 95, 118, 49, 46, 48, 58, 49, 48, 48, 48, 48, 10]
  {
    assert Decimal(10000) == Decimal(1000) + [48];
  }

  /** Effect of one command on the target, and the reply to it. */
  function Answer<D>(t: Target<D>, bufMax: nat, d: D, op: Op): (D, Bytes) {
    match op
    case GetInfo => (d, Info(bufMax))
    case Shift(bits, tms, tdi) => t.shift(d, bits, tms, tdi)
    case SetTck(period) => (d, Unword(period, 4))
  }

  function After<D>(t: Target<D>, bufMax: nat, d: D, ops: seq<Op>): D {
    if ops == [] then d else After(t, bufMax, Answer(t, bufMax, d, ops[0]).0, ops[1..])
  }

  function Replies<D>(t: Target<D>, bufMax: nat, d: D, ops: seq<Op>): Bytes {
    if ops == [] then []
    else Answer(t, bufMax, d, ops[0]).1 + Replies(t, bufMax, Answer(t, bufMax, d, ops[0]).0, ops[1..])
  }

  lemma {:induction false} RepliesConcat<D>(t: Target<D>, bufMax: nat, d: D, x: seq<Op>, y: seq<Op>)
    ensures After(t, bufMax, d, x + y) == After(t, bufMax, After(t, bufMax, d, x), y)
    ensures Replies(t, bufMax, d, x + y) == Replies(t, bufMax, d, x) + Replies(t, bufMax, After(t, bufMax, d, x), y)
    decreases |x|
  {
    hide Answer;
    if x == [] {
      assert x + y == y;
    } else {
      assert (x + y)[0] == x[0] && (x + y)[1..] == x[1..] + y;
      var d' := Answer(t, bufMax, d, x[0]).0;
      RepliesConcat(t, bufMax, d', x[1..], y);
      var a, b, c := Answer(t, bufMax, d, x[0]).1, Replies(t, bufMax, d', x[1..]), Replies(t, bufMax, After(t, bufMax, d, x), y);
      assert a + (b + c) == (a + b) + c;
    }
  }

  // ---- A connection as a function of the pieces it receives -------------------------

  /** Bytes waiting in the buffer, state of the target, commands executed, bytes sent,
      and whether a protocol error ended the connection. */
  datatype Session<D> = Session(buf: Bytes, dev: D, ops: seq<Op>, sent: Bytes, broken: bool)

  /** One recv: all commands that are now complete are executed, and answered together
      unless a protocol error follows them, in which case their replies are dropped. */
  function Receive<D>(t: Target<D>, bufMax: nat, s: Session<D>, chunk: Bytes): Session<D> {
    if s.broken then s
    else
      var r := ParseAll(s.buf + chunk, bufMax);
      var s' := s.(dev := After(t, bufMax, s.dev, r.ops), ops := s.ops + r.ops, buf := r.rest, broken := r.bad);
      if r.bad then s' else s'.(sent := s.sent + Replies(t, bufMax, s.dev, r.ops))
  }

  function Serve<D>(t: Target<D>, bufMax: nat, d: D, chunks: seq<Bytes>): Session<D>
    decreases |chunks|
  {
    if chunks == [] then Session([], d, [], [], false)
    else Receive(t, bufMax, Serve(t, bufMax, d, chunks[..|chunks| - 1]), chunks[|chunks| - 1])
  }

  function Concat(chunks: seq<Bytes>): Bytes {
    if chunks == [] then [] else Concat(chunks[..|chunks| - 1]) + chunks[|chunks| - 1]
  }

  /** The session that the whole stream calls for. */
  ghost predicate Whole<D>(t: Target<D>, bufMax: nat, d: D, stream: Bytes, s: Session<D>) {
    var r := ParseAll(stream, bufMax);
    && s.broken == r.bad && s.ops == r.ops && s.dev == After(t, bufMax, d, r.ops)
    && (if r.bad then s.sent <= Replies(t, bufMax, d, r.ops)
        else s.sent == Replies(t, bufMax, d, r.ops) && s.buf == r.rest)
  }

  lemma WholeMore<D>(t: Target<D>, bufMax: nat, d: D, stream: Bytes, s: Session<D>, chunk: Bytes)
    requires Whole(t, bufMax, d, stream, s)
    ensures Whole(t, bufMax, d, stream + chunk, Receive(t, bufMax, s, chunk))
  {
    hide ParseAll, After, Replies;
    ParseSplit(stream, chunk, bufMax);
    var r := ParseAll(stream, bufMax);
    if !r.bad {
      var q := ParseAll(r.rest + chunk, bufMax);
      RepliesConcat(t, bufMax, d, r.ops, q.ops);
      assert s.sent <= s.sent + Replies(t, bufMax, s.dev, q.ops);
    }
  }

  /** However the stream was cut, the server executed the commands that the whole stream
      spells, in order; it sent their replies, all of them if the protocol was kept. */
  lemma {:induction false} ServeIsWhole<D>(t: Target<D>, bufMax: nat, d: D, chunks: seq<Bytes>)
    ensures Whole(t, bufMax, d, Concat(chunks), Serve(t, bufMax, d, chunks))
    decreases |chunks|
  {
    hide Whole, Receive;
    if chunks == [] {
      NothingReceived(t, bufMax, d);
    } else {
      var front := chunks[..|chunks| - 1];
      ServeIsWhole(t, bufMax, d, front);
      WholeMore(t, bufMax, d, Concat(front), Serve(t, bufMax, d, front), chunks[|chunks| - 1]);
    }
  }

  lemma NothingReceived<D>(t: Target<D>, bufMax: nat, d: D)
    ensures Whole(t, bufMax, d, [], Session([], d, [], [], false))
  {
  }

  /** Fragmentation independence: two ways to cut the same stream lead to the same
      commands and the same target, and to the same replies if the protocol is kept. */
  lemma FragmentationIndependence<D>(t: Target<D>, bufMax: nat, d: D, one: seq<Bytes>, two: seq<Bytes>)
    requires Concat(one) == Concat(two)
    ensures var a, b := Serve(t, bufMax, d, one), Serve(t, bufMax, d, two);
            && a.ops == b.ops && a.dev == b.dev && a.broken == b.broken
            && (!a.broken ==> a == b)
  {
    ServeIsWhole(t, bufMax, d, one);
    ServeIsWhole(t, bufMax, d, two);
  }

  /** A client that keeps the protocol always leaves room in the buffer: recv is never
      asked for zero bytes, which would look like the end of the connection. */
  lemma AlwaysRoom<D>(t: Target<D>, bufMax: nat, d: D, chunks: seq<Bytes>)
    requires NAME_MAX <= bufMax
    ensures var s := Serve(t, bufMax, d, chunks); !s.broken ==> |s.buf| < bufMax
  {
    ServeIsWhole(t, bufMax, d, chunks);
    if !ParseAll(Concat(chunks), bufMax).bad { RoomLeft(Concat(chunks), bufMax); }
  }

  // ---- The pieces recv can make ---------------------------------------------------------

  /** No piece is empty, each fits the room that is left when it arrives, and none arrives
      after the connection broke. */
  ghost predicate Possible<D>(t: Target<D>, bufMax: nat, d: D, chunks: seq<Bytes>) {
    forall k :: 0 <= k < |chunks| ==> Takes(Serve(t, bufMax, d, chunks[..k]), chunks[k], bufMax)
  }

  ghost predicate Takes<D>(s: Session<D>, chunk: Bytes, bufMax: nat) {
    !s.broken && chunk != [] && |s.buf| + |chunk| <= bufMax
  }

  /** A connection over this stream, served until it breaks or the stream ends. */
  ghost predicate Complete<D>(t: Target<D>, bufMax: nat, d: D, stream: Bytes, chunks: seq<Bytes>) {
    && Possible(t, bufMax, d, chunks)
    && if Serve(t, bufMax, d, chunks).broken then Concat(chunks) <= stream else Concat(chunks) == stream
  }

  lemma PossibleMore<D>(t: Target<D>, bufMax: nat, d: D, chunks: seq<Bytes>, x: Bytes)
    requires Possible(t, bufMax, d, chunks) && Takes(Serve(t, bufMax, d, chunks), x, bufMax)
    ensures Possible(t, bufMax, d, chunks + [x])
  {
    hide Serve, Takes;
    forall k | 0 <= k < |chunks| + 1
      ensures Takes(Serve(t, bufMax, d, (chunks + [x])[..k]), (chunks + [x])[k], bufMax)
    {
      if k < |chunks| {
        assert (chunks + [x])[..k] == chunks[..k];
      } else {
        assert (chunks + [x])[..k] == chunks;
      }
    }
  }

  /** Every complete connection executes exactly the commands of the stream, and sends all
      their replies, or a front of them if the stream breaks the protocol. */
  lemma CompleteIsWhole<D>(t: Target<D>, bufMax: nat, d: D, stream: Bytes, chunks: seq<Bytes>)
    requires Complete(t, bufMax, d, stream, chunks)
    ensures Whole(t, bufMax, d, stream, Serve(t, bufMax, d, chunks))
  {
    hide ParseAll, After, Replies, Serve, Possible;
    ServeIsWhole(t, bufMax, d, chunks);
    var heard := Concat(chunks);
    if Serve(t, bufMax, d, chunks).broken {
      assert heard + stream[|heard|..] == stream;
      ParseSplit(heard, stream[|heard|..], bufMax);
    }
  }

  // ---- When the pieces matter -------------------------------------------------------------

  /** Bytes from the end of the n-th command to where the error of the stream shows. */
  function ToError(stream: Bytes, n: nat, bufMax: nat): int {
    |Skip(stream, n, bufMax)| - |ParseAll(stream, bufMax).rest| + ErrorAt(ParseAll(stream, bufMax).rest)
  }

  /** Command n has a reply, and fits the buffer together with all that follows it up to
      where the error shows. */
  ghost predicate Losable<D>(t: Target<D>, bufMax: nat, d: D, stream: Bytes, n: nat) {
    var ops := ParseAll(stream, bufMax).ops;
    n < |ops| && Answer(t, bufMax, After(t, bufMax, d, ops[..n]), ops[n]).1 != [] && ToError(stream, n, bufMax) <= bufMax
  }

  ghost predicate SomeLosable<D>(t: Target<D>, bufMax: nat, d: D, stream: Bytes) {
    ParseAll(stream, bufMax).bad && exists n :: Losable(t, bufMax, d, stream, n)
  }

  /** Two connections over the stream that do not send the same. */
  ghost predicate Differ<D>(t: Target<D>, bufMax: nat, d: D, stream: Bytes, one: seq<Bytes>, two: seq<Bytes>) {
    && Complete(t, bufMax, d, stream, one) && Complete(t, bufMax, d, stream, two)
    && Serve(t, bufMax, d, one).sent != Serve(t, bufMax, d, two).sent
  }

  ghost predicate CutMatters<D>(t: Target<D>, bufMax: nat, d: D, stream: Bytes) {
    exists one, two :: Differ(t, bufMax, d, stream, one, two)
  }

  /** The replies depend on how the stream was cut if and only if the stream breaks the
      protocol and some reply can be lost: its command can be received together with the
      error. In a stream that keeps the protocol none ever is. */
  lemma SplitMatters<D>(t: Target<D>, bufMax: nat, d: D, stream: Bytes)
    requires NAME_MAX <= bufMax
    ensures CutMatters(t, bufMax, d, stream) <==> SomeLosable(t, bufMax, d, stream)
  {
    hide Complete, Losable, Serve, ParseAll;
    var r := ParseAll(stream, bufMax);
    if SomeLosable(t, bufMax, d, stream) {
      var n :| Losable(t, bufMax, d, stream, n);
      var one, two := BothCuts(t, bufMax, d, stream, n);
      assert Differ(t, bufMax, d, stream, one, two);
    }
    if CutMatters(t, bufMax, d, stream) {
      var one, two :| Differ(t, bufMax, d, stream, one, two);
      var other := if Serve(t, bufMax, d, one).sent != Replies(t, bufMax, d, r.ops) then one else two;
      var n := LostFrom(t, bufMax, d, stream, other);
    }
  }

  /** The stream up to its n-th command, every command by itself. */
  function ByCommand(s: Bytes, n: nat, max: nat): seq<Bytes> {
    if n == 0 then [] else ByCommand(s, n - 1, max) + [First(Skip(s, n - 1, max), max)]
  }

  function First(s: Bytes, max: nat): Bytes {
    match ParseOne(s, max)
    case Cmd(_, len) => if len <= |s| then s[..len] else s
    case _ => s
  }

  lemma FirstIs(s: Bytes, max: nat)
    requires NAME_MAX <= max && ParseAll(s, max).ops != []
    ensures 0 < |First(s, max)| <= max && First(s, max) + Skip(s, 1, max) == s
    ensures ParseAll(First(s, max), max) == Pass([ParseAll(s, max).ops[0]], [], false)
  {
    hide ParseOne, ParseAll, Skip;
    ParseStep(s, max);
    var len := ParseOne(s, max).len;
    ParseFits(s, max);
    ParseBack(s, len, len, max);
    ParseStep(s[..len], max);
    ParseStep([], max);
    NothingYet(max);
    SkipStep(s, 1, max);
    SkipStep(s[len..], 0, max);
    assert s[..len][len..] == [];
    assert s[..len] + s[len..] == s;
  }

  lemma {:induction false} ServeByCommand<D>(t: Target<D>, max: nat, d: D, s: Bytes, n: nat)
    requires NAME_MAX <= max && n <= |ParseAll(s, max).ops|
    ensures var ops, chunks := ParseAll(s, max).ops[..n], ByCommand(s, n, max);
            && Serve(t, max, d, chunks) == Session([], After(t, max, d, ops), ops, Replies(t, max, d, ops), false)
            && Possible(t, max, d, chunks) && Concat(chunks) + Skip(s, n, max) == s
    decreases n
  {
    hide ParseAll, After, Replies, Serve, Skip, Answer, First, Concat, Possible;
    if n == 0 {
      NoneServed(t, max, d, s);
    } else {
      ServeByCommand(t, max, d, s, n - 1);
      var before, x := ByCommand(s, n - 1, max), First(Skip(s, n - 1, max), max);
      OneMore(t, max, d, s, n - 1, before, x);
    }
  }

  lemma NoneServed<D>(t: Target<D>, max: nat, d: D, s: Bytes)
    ensures Serve(t, max, d, []) == Session([], After(t, max, d, []), [], Replies(t, max, d, []), false)
    ensures Possible(t, max, d, []) && Concat([]) + Skip(s, 0, max) == s && ParseAll(s, max).ops[..0] == []
  {
    SkipStep(s, 0, max);
    assert [] + s == s;
  }

  lemma OneMore<D>(t: Target<D>, max: nat, d: D, s: Bytes, n: nat, before: seq<Bytes>, x: Bytes)
    requires NAME_MAX <= max && n < |ParseAll(s, max).ops| && x == First(Skip(s, n, max), max)
    requires var ops := ParseAll(s, max).ops[..n];
             Serve(t, max, d, before) == Session([], After(t, max, d, ops), ops, Replies(t, max, d, ops), false)
    requires Possible(t, max, d, before) && Concat(before) + Skip(s, n, max) == s
    ensures var ops, chunks := ParseAll(s, max).ops[..n + 1], before + [x];
            && Serve(t, max, d, chunks) == Session([], After(t, max, d, ops), ops, Replies(t, max, d, ops), false)
            && Possible(t, max, d, chunks) && Concat(chunks) + Skip(s, n + 1, max) == s
  {
    hide ParseAll, After, Replies, Serve, Skip, Answer, First, Concat, Possible;
    var all := ParseAll(s, max).ops;
    SkipParse(s, n, max);
    FirstIs(Skip(s, n, max), max);
    SkipMore(s, n, 1, max);
    PossibleMore(t, max, d, before, x);
    ServeMore(t, max, d, before, x);
    assert [] + x == x;
    RepliesConcat(t, max, d, all[..n], [all[n]]);
    assert all[..n] + [all[n]] == all[..n + 1];
    assert (Concat(before) + x) + Skip(s, n + 1, max) == Concat(before) + (x + Skip(s, n + 1, max));
  }

  /** A connection that receives the commands from number n on together with the error. */
  lemma CutAt<D>(t: Target<D>, bufMax: nat, d: D, stream: Bytes, n: nat) returns (cut: seq<Bytes>)
    requires NAME_MAX <= bufMax && ParseAll(stream, bufMax).bad
    requires n <= |ParseAll(stream, bufMax).ops| && ToError(stream, n, bufMax) <= bufMax
    ensures Complete(t, bufMax, d, stream, cut)
    ensures Serve(t, bufMax, d, cut).sent == Replies(t, bufMax, d, ParseAll(stream, bufMax).ops[..n])
  {
    hide ParseAll, After, Replies, Serve, Skip, ErrorAt, Concat, Possible;
    var front, x := ByCommand(stream, n, bufMax), Skip(stream, n, bufMax);
    var e := ToError(stream, n, bufMax);
    ServeByCommand(t, bufMax, d, stream, n);
    SkipParse(stream, n, bufMax);
    UpToError(x, bufMax);
    NotEmpty(x[..e], bufMax);
    cut := front + [x[..e]];
    PossibleMore(t, bufMax, d, front, x[..e]);
    ServeMore(t, bufMax, d, front, x[..e]);
    assert [] + x[..e] == x[..e];
    assert Concat(front) + x == (Concat(front) + x[..e]) + x[e..];
  }

  lemma NotEmpty(x: Bytes, max: nat)
    requires ParseAll(x, max).bad
    ensures x != []
  {
    NothingYet(max);
  }

  /** A cut that sends all replies, and one that loses some. */
  lemma BothCuts<D>(t: Target<D>, bufMax: nat, d: D, stream: Bytes, n: nat) returns (one: seq<Bytes>, two: seq<Bytes>)
    requires NAME_MAX <= bufMax && ParseAll(stream, bufMax).bad && Losable(t, bufMax, d, stream, n)
    ensures Complete(t, bufMax, d, stream, one) && Complete(t, bufMax, d, stream, two)
    ensures Serve(t, bufMax, d, one).sent != Serve(t, bufMax, d, two).sent
  {
    hide ParseAll, After, Replies, Serve, Skip, ErrorAt, Complete, Answer;
    var ops := ParseAll(stream, bufMax).ops;
    AllByCommand(stream, bufMax);
    one := CutAt(t, bufMax, d, stream, |ops|);
    two := CutAt(t, bufMax, d, stream, n);
    assert ops[..n] + ops[n..] == ops && ops[..|ops|] == ops;
    RepliesConcat(t, bufMax, d, ops[..n], ops[n..]);
    FirstReply(t, bufMax, After(t, bufMax, d, ops[..n]), ops[n..]);
  }

  lemma AllByCommand(s: Bytes, max: nat)
    requires NAME_MAX <= max && ParseAll(s, max).bad
    ensures ToError(s, |ParseAll(s, max).ops|, max) <= max
  {
    hide ParseAll, ErrorAt, Skip;
    SkipFront(s, [], max);
    assert s + [] == s && ParseAll(s, max).rest + [] == ParseAll(s, max).rest;
    UpToError(s, max);
  }

  lemma FirstReply<D>(t: Target<D>, bufMax: nat, d: D, ops: seq<Op>)
    requires ops != [] && Answer(t, bufMax, d, ops[0]).1 != []
    ensures Replies(t, bufMax, d, ops) != []
  {
    hide Answer;
  }

  /** Some command of a list that has replies at all has one. */
  lemma {:induction false} SomeReply<D>(t: Target<D>, bufMax: nat, d: D, ops: seq<Op>) returns (n: nat)
    requires Replies(t, bufMax, d, ops) != []
    ensures n < |ops| && Answer(t, bufMax, After(t, bufMax, d, ops[..n]), ops[n]).1 != []
    decreases |ops|
  {
    hide Answer;
    if Answer(t, bufMax, d, ops[0]).1 != [] {
      assert ops[..0] == [];
      return 0;
    }
    n := SomeReply(t, bufMax, Answer(t, bufMax, d, ops[0]).0, ops[1..]);
    n := n + 1;
    assert ops[..n][0] == ops[0] && ops[..n][1..] == ops[1..][..n - 1];
  }

  /** A connection that did not send all replies received one of its commands together
      with the error. */
  lemma LostFrom<D>(t: Target<D>, bufMax: nat, d: D, stream: Bytes, cut: seq<Bytes>) returns (n: nat)
    requires NAME_MAX <= bufMax && Complete(t, bufMax, d, stream, cut)
    requires Serve(t, bufMax, d, cut).sent != Replies(t, bufMax, d, ParseAll(stream, bufMax).ops)
    ensures ParseAll(stream, bufMax).bad && Losable(t, bufMax, d, stream, n)
  {
    hide ParseAll, After, Replies, Serve, Skip, ErrorAt, Answer, Concat, Possible;
    CompleteIsWhole(t, bufMax, d, stream, cut);
    var ops := ParseAll(stream, bufMax).ops;
    var m := LastPiece(t, bufMax, d, stream, cut);
    assert ops[..m] + ops[m..] == ops;
    RepliesConcat(t, bufMax, d, ops[..m], ops[m..]);
    assert Replies(t, bufMax, d, ops[..m]) + [] == Replies(t, bufMax, d, ops[..m]);
    var k := SomeReply(t, bufMax, After(t, bufMax, d, ops[..m]), ops[m..]);
    n := m + k;
    assert ops[..m] + ops[m..][..k] == ops[..n] && ops[m..][k] == ops[n];
    RepliesConcat(t, bufMax, d, ops[..m], ops[m..][..k]);
    SkipMore(stream, m, k, bufMax);
    SkipParse(stream, m, bufMax);
    SkipParse(Skip(stream, m, bufMax), k, bufMax);
  }

  /** The piece that broke a connection: it sent the replies of the commands before that
      piece, and the rest up to the error was in the buffer at once. */
  lemma LastPiece<D>(t: Target<D>, bufMax: nat, d: D, stream: Bytes, cut: seq<Bytes>) returns (m: nat)
    requires Complete(t, bufMax, d, stream, cut) && Serve(t, bufMax, d, cut).broken
    ensures m <= |ParseAll(stream, bufMax).ops| && ToError(stream, m, bufMax) <= bufMax
    ensures Serve(t, bufMax, d, cut).sent == Replies(t, bufMax, d, ParseAll(stream, bufMax).ops[..m])
  {
    hide ParseAll, After, Replies, Serve, Skip, ErrorAt, Concat;
    NoneServed(t, bufMax, d, stream);
    var front, x := cut[..|cut| - 1], cut[|cut| - 1];
    assert cut == front + [x];
    ServeMore(t, bufMax, d, front, x);
    var s := Serve(t, bufMax, d, front);
    assert Takes(s, x, bufMax);
    ServeIsWhole(t, bufMax, d, front);
    var heard := Concat(front);
    var y := stream[|heard + x|..];
    assert heard + (x + y) == stream && (s.buf + x) + y == s.buf + (x + y);
    m := |s.ops|;
    PieceSpan(heard, x, y, bufMax);
  }

  lemma PieceSpan(heard: Bytes, x: Bytes, y: Bytes, max: nat)
    requires !ParseAll(heard, max).bad && ParseAll(ParseAll(heard, max).rest + x, max).bad
    ensures var a, all := ParseAll(heard, max), ParseAll(heard + (x + y), max);
            && all.bad && |a.ops| <= |all.ops| && all.ops[..|a.ops|] == a.ops
            && ToError(heard + (x + y), |a.ops|, max) <= |a.rest + x|
  {
    hide ParseAll, Skip, ErrorAt, ParseOne;
    var a := ParseAll(heard, max);
    var z := a.rest + x;
    var r := ParseAll(z, max).rest;
    assert z + y == a.rest + (x + y);
    ParseSplit(heard, x + y, max);
    ParseSplit(z, y, max);
    SkipFront(heard, x + y, max);
    FrontOnly(z, max);
    ParseStep(r, max);
    ErrorShows(r, |r|, max);
    ErrorStays(r, y, max);
  }

  // ---- The connection itself ----------------------------------------------------------

  /** get_uint_le: from the most significant byte down. */
  method GetUintLe(a: array<u8>, off: nat, len: nat) returns (value: nat)
    requires off + len <= a.Length && len <= 4
    ensures value == Word(a[off..off + len])
  {
    value := 0;
    var n := len;
    while n > 0
      invariant 0 <= n <= len && value == Word(a[off + n..off + len])
    {
      n := n - 1;
      ghost var b := a[off + n..off + len];
      assert b[1..] == a[off + n + 1..off + len];
      ShiftFits(b[1..], len - n - 1);
      value := value * 256 % 0x1_0000_0000 + a[off + n];
    }
  }

  lemma ShiftFits(b: Bytes, n: nat)
    requires |b| == n <= 3
    ensures Word(b) * 256 < 0x1_0000_0000
  {
    assert Pow2(8) == 256;
    PowIs32();
    WordBits(b);
    PowAdd(8 * n, 8);
    PowMonotone(8 * n + 8, 32);
  }

  /** set_uint_le: from the least significant byte up. */
  method SetUintLe(len: nat, value: nat) returns (b: Bytes)
    ensures b == Unword(value, len)
  {
    hide Unword;
    b := [];
    var v := value;
    var n := len;
    UnwordEnd(v);
    assert [] + Unword(v, n) == Unword(v, n);
    while n > 0
      invariant 0 <= n && b + Unword(v, n) == Unword(value, len)
    {
      UnwordStep(b, v, n);
      b := b + [v % 256];
      v := v / 256;
      n := n - 1;
    }
    UnwordEnd(v);
    assert b + [] == b;
  }

  lemma UnwordEnd(x: nat)
    ensures Unword(x, 0) == []
  {
  }

  lemma UnwordStep(b: Bytes, x: nat, n: nat)
    requires n > 0
    ensures b + Unword(x, n) == (b + [x % 256]) + Unword(x / 256, n - 1)
  {
  }

  /** The socket: what the client still has to deliver, and what was sent to it. */
  class Socket {
    var incoming: Bytes
    var outgoing: Bytes

    constructor (incoming: Bytes)
      ensures this.incoming == incoming && outgoing == []
    {
      this.incoming, outgoing := incoming, [];
    }

    /** recv: some of the bytes there are, at least one if any fit; or an error. */
    method Recv(room: nat) returns (len: int, data: Bytes)
      modifies this`incoming
      ensures len > 0 ==> len == |data| <= room && old(incoming) == data + incoming
      ensures len <= 0 ==> incoming == old(incoming) && data == []
      ensures len == 0 ==> room == 0 || incoming == []
    {
      len, data := *, [];
      if len < 0 { return; }
      if room == 0 || incoming == [] { len := 0; return; }
      if len == 0 || len > room { len := 1; }
      if len > |incoming| { len := |incoming|; }
      data := incoming[..len];
      incoming := incoming[len..];
    }

    method Send(data: Bytes) returns (rval: int)
      modifies this`outgoing
      ensures outgoing == if rval >= 0 then old(outgoing) + data else old(outgoing)
    {
      rval := *;
      if rval >= 0 { outgoing := outgoing + data; }
    }
  }

  class XvcClient<D> {
    const socket: Socket
    const target: Target<D>
    const bufMax: nat
    const buf: array<u8>
    var bufLen: nat
    var dev: D
    ghost var ops: seq<Op>        // commands executed so far
    ghost var chunks: seq<Bytes>  // pieces received so far

    constructor (socket: Socket, target: Target<D>, bufMax: nat, dev: D)
      requires socket.outgoing == []
      ensures this.socket == socket && this.target == target && this.bufMax == bufMax && this.dev == dev
      ensures Valid() && bufLen == 0 && ops == [] && chunks == [] && fresh(buf)
    {
      this.socket, this.target, this.bufMax, this.dev := socket, target, bufMax, dev;
      buf := new u8[bufMax];
      bufLen, ops, chunks := 0, [], [];
    }

    ghost predicate Valid()
      reads this
    {
      buf.Length == bufMax && bufLen <= bufMax
    }

    function Data(): Bytes
      requires Valid()
      reads this, buf
    {
      buf[..bufLen]
    }

    /** consume_packet: move what is left to the front of the buffer. */
    method ConsumePacket(len: nat)
      requires Valid() && len <= bufLen
      modifies this`bufLen, buf
      ensures Valid() && Data() == old(Data())[len..]
    {
      bufLen := bufLen - len;
      forall i | 0 <= i < bufLen { buf[i] := buf[len + i]; }
    }

    /** Look for the colon, no further than a name may reach. */
    method Scan(cbuf: nat, e: nat) returns (p: nat)
      requires Valid() && cbuf <= e <= bufLen
      ensures cbuf <= p && p - cbuf == FindColon(buf[cbuf..bufLen], 0, e - cbuf)
    {
      ghost var s := buf[cbuf..bufLen];
      assert forall k :: 0 <= k < |s| ==> s[k] == buf[cbuf + k];
      p := cbuf;
      while p < e && buf[p] != COLON
        invariant cbuf <= p <= e
        invariant forall k :: 0 <= k < p - cbuf ==> s[k] != COLON
      {
        p := p + 1;
      }
      if p < e { assert s[p - cbuf] == COLON; }
    }

    /** The tests of the parse loop, for the bytes from cbuf on. */
    method Front(cbuf: nat) returns (parsed: Parsed)
      requires Valid() && cbuf <= bufLen
      ensures parsed == ParseOne(buf[cbuf..bufLen], bufMax)
    {
      hide ParseOne, ParseShift, ParseTck, FindColon;
      ghost var s := buf[cbuf..bufLen];
      var e := if cbuf + NAME_MAX < bufLen then cbuf + NAME_MAX else bufLen;
      var p := Scan(cbuf, e);
      NameSays(s, e - cbuf, bufMax);
      if p >= e {
        return if p - cbuf >= NAME_MAX then Bad else Need(bufLen - cbuf + 1);
      }
      p := p + 1;
      var name := Slice(cbuf, 0, p - cbuf);
      assert s[0..p - cbuf] == s[..p - cbuf];
      if name == GETINFO { return Cmd(GetInfo, 8); }
      if name == SHIFT { parsed := FrontShift(cbuf); return; }
      if name == SETTCK { parsed := FrontTck(cbuf); return; }
      return Bad;
    }

    method FrontShift(cbuf: nat) returns (parsed: Parsed)
      requires Valid() && cbuf <= bufLen
      ensures parsed == ParseShift(buf[cbuf..bufLen], bufMax)
    {
      hide Word, VectorBytes, ParseShift;
      ghost var s := buf[cbuf..bufLen];
      ShiftIs(s, bufMax);
      var p := cbuf + 6;
      if bufLen < p + 4 { return Need(10); }
      var bits := GetUintLe(buf, p, 4);
      PartOf(buf, cbuf, bufLen, 6, 10);
      var bytes := VectorBytes(bits);
      if bufLen < p + 4 + bytes * 2 {
        return if p + 4 + bytes * 2 - cbuf <= bufMax then Need(10 + 2 * bytes) else Bad;
      }
      var tms := Slice(cbuf, 10, 10 + bytes);
      var tdi := Slice(cbuf, 10 + bytes, 10 + 2 * bytes);
      return Cmd(Shift(bits, tms, tdi), 10 + 2 * bytes);
    }

    /** Bytes i to j of those from cbuf on. */
    method Slice(cbuf: nat, i: nat, j: nat) returns (b: Bytes)
      requires Valid() && cbuf <= bufLen && i <= j <= bufLen - cbuf
      ensures b == buf[cbuf..bufLen][i..j]
    {
      PartOf(buf, cbuf, bufLen, i, j);
      b := buf[cbuf + i..cbuf + j];
    }

    method FrontTck(cbuf: nat) returns (parsed: Parsed)
      requires Valid() && cbuf <= bufLen
      ensures parsed == ParseTck(buf[cbuf..bufLen])
    {
      hide Word;
      var p := cbuf + 7;
      if bufLen < p + 4 { return Need(11); }
      var nsperiod := GetUintLe(buf, p, 4);
      PartOf(buf, cbuf, bufLen, 7, 11);
      return Cmd(SetTck(nsperiod), 11);
    }

    /** The parse loop: execute every command that is complete, collecting the replies. */
    method Batch() returns (cbuf: nat, reply: Bytes, bad: bool)
      requires Valid()
      modifies this`dev, this`ops
      ensures cbuf <= bufLen
      ensures var r := ParseAll(Data(), bufMax);
              && bad == r.bad && Data()[cbuf..] == r.rest
              && ops == old(ops) + r.ops && dev == After(target, bufMax, old(dev), r.ops)
              && reply == Replies(target, bufMax, old(dev), r.ops)
    {
      hide ParseOne, ParseAll, Replies, After, Answer;
      ghost var s, d0, done := Data(), dev, [];
      cbuf, reply := 0, [];
      bad := false;
      RepliesNone(target, bufMax, dev);
      assert s[0..] == s;
      var fill := false;
      while !fill && !bad
        invariant 0 <= cbuf <= bufLen && Data() == s
        invariant ops == old(ops) + done && dev == After(target, bufMax, d0, done) && reply == Replies(target, bufMax, d0, done)
        invariant ParseAll(s, bufMax) == Pass(done + ParseAll(s[cbuf..], bufMax).ops, ParseAll(s[cbuf..], bufMax).rest, ParseAll(s[cbuf..], bufMax).bad)
        invariant fill || bad ==> ParseAll(s[cbuf..], bufMax) == Pass([], s[cbuf..], bad)
        decreases bufLen - cbuf, !fill && !bad
      {
        var parsed := Front(cbuf);
        assert buf[cbuf..bufLen] == s[cbuf..];
        ParseStep(s[cbuf..], bufMax);
        match parsed
        case Need(_) => fill := true;
        case Bad => bad := true;
        case Cmd(op, len) =>
          var answer := Answer(target, bufMax, dev, op);
          RepliesOne(target, bufMax, dev, op);
          RepliesConcat(target, bufMax, d0, done, [op]);
          assert s[cbuf..][len..] == s[cbuf + len..];
          assert done + ([op] + ParseAll(s[cbuf + len..], bufMax).ops) == (done + [op]) + ParseAll(s[cbuf + len..], bufMax).ops;
          assert (old(ops) + done) + [op] == old(ops) + (done + [op]);
          dev, reply := answer.0, reply + answer.1;
          ops, done := ops + [op], done + [op];
          cbuf := cbuf + len;
      }
      assert done + [] == done;
    }

    /** Execute what is complete, send the replies in one packet, consume the commands. */
    method Digest(ghost before: Session<D>, ghost piece: Bytes) returns (failed: bool, ghost broken: bool)
      requires Valid() && !before.broken && Data() == before.buf + piece
      requires ops == before.ops && dev == before.dev && socket.outgoing == before.sent
      modifies this`dev, this`ops, this`bufLen, buf, socket`outgoing
      ensures Valid() && (broken ==> failed)
      ensures var s := Receive(target, bufMax, before, piece);
              && ops == s.ops && dev == s.dev && broken == s.broken
              && (!failed || broken ==> socket.outgoing == s.sent)
              && (!failed ==> Data() == s.buf)
    {
      hide ParseAll, Replies, After, Receive;
      ReceiveIs(target, bufMax, before, piece);
      var cbuf, reply, bad := Batch();
      if bad { return true, true; }
      if cbuf > 0 {
        var rval := socket.Send(reply);
        if rval < 0 { return true, false; }
        ConsumePacket(cbuf);
      } else {
        BatchNone(target, bufMax, before.dev, Data());
        assert Data()[0..] == Data();
      }
      return false, false;
    }

    /** read_packet: serve the connection until it ends, fails, or breaks the protocol.
        The result is a function of the pieces received, which are pieces recv can make; and
        a client that keeps the protocol is served to the end of its stream. */
    method ReadPacket() returns (failed: bool, ghost broken: bool)
      requires Valid() && bufLen == 0 && ops == [] && chunks == [] && socket.outgoing == []
      modifies this, buf, socket
      ensures Valid() && Concat(chunks) + socket.incoming == old(socket.incoming)
      ensures Possible(target, bufMax, old(dev), chunks)
      ensures NAME_MAX <= bufMax && (!failed || broken) ==> Complete(target, bufMax, old(dev), old(socket.incoming), chunks)
      ensures var s := Serve(target, bufMax, old(dev), chunks);
              && ops == s.ops && dev == s.dev && broken == s.broken
              && (!failed || broken ==> socket.outgoing == s.sent)
              && (!failed ==> Data() == s.buf)
      ensures broken ==> failed
      ensures !failed && NAME_MAX <= bufMax ==> socket.incoming == []
    {
      hide Concat, ParseAll, Replies, After, Receive, Serve, Possible;
      ghost var d0, all := dev, socket.incoming;
      ghost var before, piece := Session([], d0, [], [], false), [];
      NothingServed(target, bufMax, d0);
      while true
        invariant Valid() && Concat(chunks) + socket.incoming == all
        invariant !before.broken && Serve(target, bufMax, d0, chunks) == Receive(target, bufMax, before, piece)
        invariant Data() == before.buf + piece && ops == before.ops && dev == before.dev && socket.outgoing == before.sent
        invariant Possible(target, bufMax, d0, chunks)
        decreases |socket.incoming|
      {
        failed, broken := Digest(before, piece);
        if failed { return; }
        ghost var now := Serve(target, bufMax, d0, chunks);
        if NAME_MAX <= bufMax { AlwaysRoom(target, bufMax, d0, chunks); }
        var len, data := socket.Recv(bufMax - bufLen);
        if len <= 0 {
          assert len == 0 && NAME_MAX <= bufMax ==> Concat(chunks) + [] == all;
          return len < 0, false;
        }
        before, piece := now, data;
        ServeMore(target, bufMax, d0, chunks, data);
        PossibleMore(target, bufMax, d0, chunks, data);
        assert (Concat(chunks) + data) + socket.incoming == Concat(chunks) + (data + socket.incoming);
        chunks := chunks + [data];
        Fill(data);
      }
    }

    /** recv stores what came behind what is there. */
    method Fill(data: Bytes)
      requires Valid() && bufLen + |data| <= bufMax
      modifies this`bufLen, buf
      ensures Valid() && Data() == old(Data()) + data
    {
      forall i | 0 <= i < |data| { buf[bufLen + i] := data[i]; }
      bufLen := bufLen + |data|;
    }
  }

  /** The tests for a shift, spelled out. */
  lemma ShiftIs(s: Bytes, max: nat)
    ensures |s| < 10 ==> ParseShift(s, max) == Need(10)
    ensures |s| >= 10 ==>
              var bits := Word(s[6..10]);
              var n := VectorBytes(bits);
              && (10 + 2 * n > max ==> ParseShift(s, max) == Bad)
              && (|s| < 10 + 2 * n <= max ==> ParseShift(s, max) == Need(10 + 2 * n))
              && (10 + 2 * n <= max && 10 + 2 * n <= |s| ==>
                  ParseShift(s, max) == Cmd(Shift(bits, s[10..10 + n], s[10 + n..10 + 2 * n]), 10 + 2 * n))
  {
    hide Word, VectorBytes;
  }

  /** The name, spelled out. */
  lemma NameSays(s: Bytes, e: nat, max: nat)
    requires e == NameEnd(s)
    ensures var p := FindColon(s, 0, e);
            && p <= e
            && (p == e && |s| >= NAME_MAX ==> ParseOne(s, max) == Bad)
            && (p == e && |s| < NAME_MAX ==> ParseOne(s, max) == Need(|s| + 1))
            && (p < e ==>
                  && p + 1 <= |s|
                  && var name := s[..p + 1];
                     ParseOne(s, max) == if name == GETINFO then Cmd(GetInfo, 8) else if name == SHIFT then ParseShift(s, max)
                                         else if name == SETTCK then ParseTck(s) else Bad)
  {
    hide ParseShift, ParseTck;
  }

  lemma PartOf(a: array<u8>, c: nat, l: nat, i: nat, j: nat)
    requires c <= l <= a.Length && i <= j <= l - c
    ensures a[c..l][i..j] == a[c + i..c + j]
  {
    forall k | 0 <= k < j - i ensures a[c..l][i..j][k] == a[c + i..c + j][k] {
      assert a[c..l][i + k] == a[c + i + k];
    }
  }

  lemma ReceiveIs<D>(t: Target<D>, bufMax: nat, s: Session<D>, chunk: Bytes)
    requires !s.broken
    ensures var r, s' := ParseAll(s.buf + chunk, bufMax), Receive(t, bufMax, s, chunk);
            && s'.dev == After(t, bufMax, s.dev, r.ops) && s'.ops == s.ops + r.ops && s'.broken == r.bad && s'.buf == r.rest
            && s'.sent == if r.bad then s.sent else s.sent + Replies(t, bufMax, s.dev, r.ops)
  {
  }

  lemma NothingServed<D>(t: Target<D>, bufMax: nat, d: D)
    ensures Receive(t, bufMax, Session([], d, [], [], false), []) == Serve(t, bufMax, d, [])
    ensures Possible(t, bufMax, d, []) && Concat([]) == [] && forall s: Bytes :: [] + s == s
  {
  }

  /** Nothing consumed, nothing to answer. */
  lemma BatchNone<D>(t: Target<D>, bufMax: nat, d: D, s: Bytes)
    ensures |ParseAll(s, bufMax).rest| == |s| ==> ParseAll(s, bufMax).ops == [] && Replies(t, bufMax, d, ParseAll(s, bufMax).ops) == []
  {
    hide ParseOne, ParseAll;
    ParseStep(s, bufMax);
    if ParseOne(s, bufMax).Cmd? { FrontOnly(s[ParseOne(s, bufMax).len..], bufMax); }
  }

  lemma ServeMore<D>(t: Target<D>, bufMax: nat, d: D, chunks: seq<Bytes>, data: Bytes)
    ensures Serve(t, bufMax, d, chunks + [data]) == Receive(t, bufMax, Serve(t, bufMax, d, chunks), data)
    ensures Concat(chunks + [data]) == Concat(chunks) + data
  {
  }

  lemma RepliesNone<D>(t: Target<D>, bufMax: nat, d: D)
    ensures After(t, bufMax, d, []) == d && Replies(t, bufMax, d, []) == []
  {
  }

  lemma RepliesOne<D>(t: Target<D>, bufMax: nat, d: D, op: Op)
    ensures After(t, bufMax, d, [op]) == Answer(t, bufMax, d, op).0
    ensures Replies(t, bufMax, d, [op]) == Answer(t, bufMax, d, op).1
  {
  }
}
