/** The Xilinx Virtual Cable command language as one byte stream, and what a server
    that sees it in pieces does with every piece. */
module XvcStream {
  import opened Bits

  type Bytes = seq<u8>

  /** "getinfo:", "shift:" and "settck:" */
  const GETINFO: Bytes := [103, 101, 116, 105, 110, 102, 111, 58]
  const SHIFT: Bytes := [115, 104, 105, 102, 116, 58]
  const SETTCK: Bytes := [115, 101, 116, 116, 99, 107, 58]
  const COLON: u8 := 58
  const NAME_MAX: nat := 30

  datatype Op =
    | GetInfo
    | Shift(bits: nat, tms: Bytes, tdi: Bytes)
    | SetTck(period: nat)

  /** What stands at the front of the buffer: too little, a breach of the protocol, or a
      command. A shift that no receive buffer of this size can hold counts as a breach: an
      assertion of the program stops it, with the same effect on the connection. */
  datatype Parsed = Need(total: nat) | Bad | Cmd(op: Op, len: nat)

  /** First colon at or after i and before e, or e. */
  function FindColon(s: Bytes, i: nat, e: nat): (p: nat)
    requires i <= e <= |s|
    ensures i <= p <= e && (p < e ==> s[p] == COLON)
    ensures forall k :: i <= k < p ==> s[k] != COLON
    decreases e - i
  {
    if i == e then e else if s[i] == COLON then i else FindColon(s, i + 1, e)
  }

  function NameEnd(s: Bytes): nat { if |s| < NAME_MAX then |s| else NAME_MAX }

  /** Bytes of either vector: (bits + 7) / 8 on 32-bit unsigned numbers. */
  function VectorBytes(bits: nat): nat { (bits + 7) % 0x1_0000_0000 / 8 }

  /** The command name: everything up to the first colon, if there is one in time. */
  datatype Name = Unnamed | Named(name: Bytes)

  function NameOf(s: Bytes): Name {
    var p := FindColon(s, 0, NameEnd(s));
    if p >= NameEnd(s) then Unnamed else Named(s[..p + 1])
  }

  function ParseShift(s: Bytes, max: nat): Parsed {
    if |s| < 10 then Need(10)
    else
      var n := VectorBytes(Word(s[6..10]));
      if 10 + 2 * n > max then Bad
      else if |s| < 10 + 2 * n then Need(10 + 2 * n)
      else Cmd(Shift(Word(s[6..10]), s[10..10 + n], s[10 + n..10 + 2 * n]), 10 + 2 * n)
  }

  function ParseTck(s: Bytes): Parsed {
    if |s| < 11 then Need(11) else Cmd(SetTck(Word(s[7..11])), 11)
  }

  function ParseOne(s: Bytes, max: nat): Parsed {
    match NameOf(s)
    case Unnamed => if |s| >= NAME_MAX then Bad else Need(|s| + 1)
    case Named(name) =>
      if name == GETINFO then Cmd(GetInfo, 8)
      else if name == SHIFT then ParseShift(s, max)
      else if name == SETTCK then ParseTck(s)
      else Bad
  }

  lemma NameMore(s: Bytes, t: Bytes)
    ensures NameOf(s).Named? ==> NameOf(s + t) == NameOf(s) && |NameOf(s).name| <= |s|
    ensures NameOf(s).Unnamed? && |s| >= NAME_MAX ==> NameOf(s + t).Unnamed?
    ensures NameOf(s).Unnamed? && NameOf(s + t).Named? ==> |s| < |NameOf(s + t).name|
  {
    var e, e' := NameEnd(s), NameEnd(s + t);
    var p, q := FindColon(s, 0, e), FindColon(s + t, 0, e');
    assert forall k :: 0 <= k < e ==> (s + t)[k] == s[k];
    if p < e { assert q == p && (s + t)[..p + 1] == s[..p + 1]; }
  }

  lemma ShiftMore(s: Bytes, t: Bytes, max: nat)
    ensures ParseShift(s, max).Cmd? ==> ParseShift(s + t, max) == ParseShift(s, max) && |SHIFT| < ParseShift(s, max).len <= |s|
    ensures ParseShift(s, max).Need? ==> |s| < ParseShift(s, max).total && (ParseShift(s + t, max).Cmd? ==> |s| < ParseShift(s + t, max).len)
    ensures ParseShift(s, max).Need? ==> |s| < 10 || ParseShift(s, max).total <= max
    ensures ParseShift(s, max).Cmd? ==> ParseShift(s, max).len <= max
    ensures ParseShift(s, max).Bad? ==> |s| >= 10 && ParseShift(s + t, max).Bad?
    ensures |s| >= 10 ==> (ParseShift(s + t, max).Bad? <==> ParseShift(s, max).Bad?)
  {
    hide Word, VectorBytes;
    if |s| >= 10 {
      assert (s + t)[6..10] == s[6..10];
      var n := VectorBytes(Word(s[6..10]));
      if |s| >= 10 + 2 * n {
        assert (s + t)[10..10 + n] == s[10..10 + n];
        assert (s + t)[10 + n..10 + 2 * n] == s[10 + n..10 + 2 * n];
      }
    }
  }

  lemma TckMore(s: Bytes, t: Bytes)
    ensures !ParseTck(s).Bad?
    ensures ParseTck(s).Cmd? ==> ParseTck(s + t) == ParseTck(s) && |SETTCK| < ParseTck(s).len == 11 <= |s|
    ensures ParseTck(s).Need? ==> |s| < ParseTck(s).total == 11 && (ParseTck(s + t).Cmd? ==> |s| < ParseTck(s + t).len)
  {
    hide Word;
    if |s| >= 11 { assert (s + t)[7..11] == s[7..11]; }
  }

  /** More bytes never change a verdict, only turn "too little" into one; and a
      command that was still short of bytes is longer than what was there. */
  lemma ParseMore(s: Bytes, t: Bytes, max: nat)
    ensures ParseOne(s, max).Cmd? ==> ParseOne(s + t, max) == ParseOne(s, max) && 0 < ParseOne(s, max).len <= |s|
    ensures ParseOne(s, max).Bad? ==> ParseOne(s + t, max).Bad?
    ensures ParseOne(s, max).Need? ==> |s| < ParseOne(s, max).total
    ensures ParseOne(s, max).Need? && ParseOne(s + t, max).Cmd? ==> |s| < ParseOne(s + t, max).len
    ensures ParseOne(s, max).Need? && ParseOne(s + t, max).Bad? ==> |s| < NAME_MAX
  {
    hide NameOf, ParseShift, ParseTck;
    NameMore(s, t);
    ShiftMore(s, t, max);
    ShiftMore(s + t, [], max);
    TckMore(s, t);
    TckMore(s + t, []);
  }

  /** Whatever is waited for fits the buffer, and so does every command. */
  lemma ParseFits(s: Bytes, max: nat)
    requires NAME_MAX <= max
    ensures ParseOne(s, max).Cmd? ==> ParseOne(s, max).len <= max
    ensures ParseOne(s, max).Need? ==> |s| < ParseOne(s, max).total <= max
  {
    hide NameOf, ParseShift, ParseTck;
    ParseMore(s, [], max);
    ShiftMore(s, [], max);
    TckMore(s, []);
    if |s| < 10 { ShortShift(s, max); }
  }

  lemma ShortShift(s: Bytes, max: nat)
    requires |s| < 10
    ensures ParseShift(s, max) == Need(10)
  {
  }

  /** Bytes of a breach that must have arrived for it to show. */
  function ErrorAt(s: Bytes): nat {
    match NameOf(s)
    case Unnamed => NAME_MAX
    case Named(name) => if name == SHIFT then 10 else |name|
  }

  /** A breach shows from that many bytes on, and before that more bytes are waited for. */
  lemma ErrorShows(s: Bytes, e: nat, max: nat)
    requires ParseOne(s, max).Bad? && e <= |s|
    ensures ErrorAt(s) <= |s| && ErrorAt(s) <= NAME_MAX
    ensures ParseOne(s[..e], max).Bad? <==> ErrorAt(s) <= e
    ensures e < ErrorAt(s) ==> ParseOne(s[..e], max).Need?
  {
    hide ParseShift, ParseTck, NameOf;
    assert s[..e] + s[e..] == s;
    NameMore(s[..e], s[e..]);
    NameMore(s, []);
    NameLength(s);
    TckMore(s, []);
    ShiftMore(s, [], max);
    ShiftMore(s[..e], s[e..], max);
    if e < 10 { ShortShift(s[..e], max); }
  }

  lemma NameLength(s: Bytes)
    ensures NameOf(s).Named? ==> |NameOf(s).name| <= |s| && |NameOf(s).name| <= NAME_MAX
    ensures NameOf(s + []) == NameOf(s)
  {
    assert s + [] == s;
  }

  /** What follows a breach does not change where it shows. */
  lemma ErrorStays(s: Bytes, t: Bytes, max: nat)
    requires ParseOne(s, max).Bad?
    ensures ErrorAt(s + t) == ErrorAt(s)
  {
    hide ParseShift, ParseTck, NameOf;
    NameMore(s, t);
  }

  /** All commands a stream holds, what is left, and whether it breaks the protocol. */
  datatype Pass = Pass(ops: seq<Op>, rest: Bytes, bad: bool)

  function ParseAll(s: Bytes, max: nat): Pass
    decreases |s|
  {
    match ParseOne(s, max)
    case Need(_) => Pass([], s, false)
    case Bad => Pass([], s, true)
    case Cmd(op, len) =>
      ParseMore(s, [], max);
      var r := ParseAll(s[len..], max);
      Pass([op] + r.ops, r.rest, r.bad)
  }

  lemma ParseStep(s: Bytes, max: nat)
    ensures ParseOne(s, max).Cmd? ==>
              && 0 < ParseOne(s, max).len <= |s|
              && ParseAll(s, max) == Pass([ParseOne(s, max).op] + ParseAll(s[ParseOne(s, max).len..], max).ops,
                                     ParseAll(s[ParseOne(s, max).len..], max).rest, ParseAll(s[ParseOne(s, max).len..], max).bad)
    ensures !ParseOne(s, max).Cmd? ==> ParseAll(s, max) == Pass([], s, ParseOne(s, max).Bad?)
  {
  }

  /** Parsing a piece and then the rest with what was left over is parsing the whole. */
  lemma {:induction false} ParseSplit(s: Bytes, t: Bytes, max: nat)
    ensures var a := ParseAll(s, max);
            if a.bad then ParseAll(s + t, max) == Pass(a.ops, a.rest + t, true)
            else
              var b := ParseAll(a.rest + t, max);
              ParseAll(s + t, max) == Pass(a.ops + b.ops, b.rest, b.bad)
    decreases |s|
  {
    hide ParseOne, ParseAll;
    ParseStep(s, max);
    ParseStep(s + t, max);
    ParseMore(s, t, max);
    if ParseOne(s, max).Cmd? {
      var n := ParseOne(s, max).len;
      assert (s + t)[n..] == s[n..] + t;
      ParseSplit(s[n..], t, max);
    }
  }

  /** What is left over of a stream that keeps the protocol never fills the buffer. */
  lemma {:induction false} RoomLeft(s: Bytes, max: nat)
    requires NAME_MAX <= max && !ParseAll(s, max).bad
    ensures |ParseAll(s, max).rest| < max
    decreases |s|
  {
    hide ParseOne, ParseAll;
    ParseStep(s, max);
    ParseFits(s, max);
    if ParseOne(s, max).Cmd? { RoomLeft(s[ParseOne(s, max).len..], max); }
  }

  /** The stream after its first n commands. */
  function Skip(s: Bytes, n: nat, max: nat): Bytes
    decreases n
  {
    if n == 0 || !ParseOne(s, max).Cmd? then s
    else
      ParseMore(s, [], max);
      Skip(s[ParseOne(s, max).len..], n - 1, max)
  }

  lemma SkipStep(s: Bytes, n: nat, max: nat)
    ensures Skip(s, 0, max) == s
    ensures ParseOne(s, max).Cmd? && n > 0 ==>
              0 < ParseOne(s, max).len <= |s| && Skip(s, n, max) == Skip(s[ParseOne(s, max).len..], n - 1, max)
  {
    ParseMore(s, [], max);
  }

  lemma {:induction false} SkipParse(s: Bytes, n: nat, max: nat)
    requires n <= |ParseAll(s, max).ops|
    ensures ParseAll(Skip(s, n, max), max) == ParseAll(s, max).(ops := ParseAll(s, max).ops[n..])
    ensures |ParseAll(s, max).rest| <= |Skip(s, n, max)| <= |s|
    decreases |s|
  {
    hide ParseOne, ParseAll, Skip;
    ParseStep(s, max);
    SkipStep(s, n, max);
    if n > 0 {
      SkipParse(s[ParseOne(s, max).len..], n - 1, max);
    } else if ParseOne(s, max).Cmd? {
      SkipStep(s[ParseOne(s, max).len..], 0, max);
      SkipParse(s[ParseOne(s, max).len..], 0, max);
    }
  }

  lemma {:induction false} SkipMore(s: Bytes, n: nat, m: nat, max: nat)
    requires n + m <= |ParseAll(s, max).ops|
    ensures Skip(s, n + m, max) == Skip(Skip(s, n, max), m, max)
    decreases n
  {
    hide ParseOne, ParseAll, Skip;
    ParseStep(s, max);
    SkipStep(s, n, max);
    SkipStep(s, n + m, max);
    if n > 0 { SkipMore(s[ParseOne(s, max).len..], n - 1, m, max); }
  }

  /** Skipping the commands of a front leaves what the front left over, and the rest. */
  lemma {:induction false} SkipFront(s: Bytes, t: Bytes, max: nat)
    ensures Skip(s + t, |ParseAll(s, max).ops|, max) == ParseAll(s, max).rest + t
    decreases |s|
  {
    hide ParseOne, ParseAll, Skip;
    ParseStep(s, max);
    ParseMore(s, t, max);
    SkipStep(s + t, |ParseAll(s, max).ops|, max);
    if ParseOne(s, max).Cmd? {
      var n := ParseOne(s, max).len;
      assert (s + t)[n..] == s[n..] + t;
      SkipFront(s[n..], t, max);
    }
  }

  /** The commands before an error, without the error. */
  lemma {:induction false} FrontOnly(s: Bytes, max: nat)
    ensures |ParseAll(s, max).rest| <= |s|
    ensures var n := |s| - |ParseAll(s, max).rest|;
            && s[n..] == ParseAll(s, max).rest && ParseAll(s[..n], max) == Pass(ParseAll(s, max).ops, [], false)
            && ParseAll(s[n..], max) == Pass([], s[n..], ParseAll(s, max).bad)
    decreases |s|
  {
    hide ParseOne, ParseAll;
    ParseStep(s, max);
    if ParseOne(s, max).Cmd? {
      var len := ParseOne(s, max).len;
      FrontOnly(s[len..], max);
      var n := |s| - |ParseAll(s, max).rest|;
      ParseBack(s, n, len, max);
      ParseStep(s[..n], max);
      assert s[..n][len..] == s[len..][..n - len] && s[n..] == s[len..][n - len..];
    } else {
      NothingYet(max);
      ParseStep([], max);
      assert s[..0] == [] && s[0..] == s;
    }
  }

  /** A command that is complete in s is complete in any front of s that covers it. */
  lemma ParseBack(s: Bytes, n: nat, len: nat, max: nat)
    requires len <= n <= |s| && ParseOne(s, max).Cmd? && ParseOne(s, max).len == len
    ensures ParseOne(s[..n], max) == ParseOne(s, max)
  {
    hide ParseOne;
    assert s[..n] + s[n..] == s;
    ParseMore(s[..n], s[n..], max);
  }

  /** Where the error at the front of s shows, and s cut there. */
  lemma ErrorCut(s: Bytes, max: nat)
    requires ParseAll(s, max) == Pass([], s, true)
    ensures ErrorAt(s) <= |s| && ErrorAt(s) <= NAME_MAX
    ensures ParseAll(s[..ErrorAt(s)], max) == Pass([], s[..ErrorAt(s)], true)
  {
    hide ParseOne, ParseAll, ErrorAt;
    ParseStep(s, max);
    ErrorShows(s, |s|, max);
    ErrorShows(s, ErrorAt(s), max);
    ParseStep(s[..ErrorAt(s)], max);
  }

  /** A stream cut where its error has just shown. */
  lemma UpToError(s: Bytes, max: nat)
    requires ParseAll(s, max).bad
    ensures |ParseAll(s, max).rest| <= |s| && ErrorAt(ParseAll(s, max).rest) <= |ParseAll(s, max).rest|
    ensures ErrorAt(ParseAll(s, max).rest) <= NAME_MAX
    ensures var n := |s| - |ParseAll(s, max).rest| + ErrorAt(ParseAll(s, max).rest);
            ParseAll(s[..n], max).ops == ParseAll(s, max).ops && ParseAll(s[..n], max).bad
  {
    hide ParseOne, ParseAll, ErrorAt;
    var r := ParseAll(s, max).rest;
    FrontOnly(s, max);
    ErrorCut(r, max);
    var front, e := s[..|s| - |r|], r[..ErrorAt(r)];
    ParseSplit(front, e, max);
    assert [] + e == e;
    FrontOfParts(s, r, ErrorAt(r));
  }

  lemma FrontOfParts<T>(s: seq<T>, r: seq<T>, e: nat)
    requires e <= |r| <= |s| && s[|s| - |r|..] == r
    ensures s[..|s| - |r|] + r[..e] == s[..|s| - |r| + e]
  {
  }

  // ---- What a client sends ----------------------------------------------------------

  predicate Sendable(op: Op) {
    match op
    case GetInfo => true
    case Shift(bits, tms, tdi) => bits < 0x1_0000_0000 && |tms| == |tdi| == VectorBytes(bits)
    case SetTck(period) => period < 0x1_0000_0000
  }

  function Encode(op: Op): Bytes {
    match op
    case GetInfo => GETINFO
    case Shift(bits, tms, tdi) => SHIFT + Unword(bits, 4) + tms + tdi
    case SetTck(period) => SETTCK + Unword(period, 4)
  }

  function EncodeAll(ops: seq<Op>): Bytes {
    if ops == [] then [] else Encode(ops[0]) + EncodeAll(ops[1..])
  }

  lemma ParseEncoded(op: Op, max: nat)
    requires Sendable(op) && NAME_MAX <= max
    ensures ParseOne(Encode(op), max) == if |Encode(op)| <= max then Cmd(op, |Encode(op)|) else Bad
  {
    hide Word, Unword, VectorBytes, NameOf;
    match op
    case GetInfo =>
      NameIs(GETINFO, []);
      assert GETINFO + [] == GETINFO;
    case Shift(bits, tms, tdi) =>
      WordUnword(bits);
      ShiftParts(Unword(bits, 4), tms, tdi);
      NameIs(SHIFT, Unword(bits, 4) + tms + tdi);
    case SetTck(period) =>
      WordUnword(period);
      NameIs(SETTCK, Unword(period, 4));
      assert Encode(op)[7..11] == Unword(period, 4);
  }

  lemma ShiftParts(w: Bytes, tms: Bytes, tdi: Bytes)
    requires |w| == 4 && |tms| == |tdi|
    ensures var s, n := SHIFT + w + tms + tdi, |tms|;
            && s == SHIFT + (w + tms + tdi) && |s| == 10 + 2 * n
            && s[6..10] == w && s[10..10 + n] == tms && s[10 + n..10 + 2 * n] == tdi
  {
  }

  lemma NameIs(name: Bytes, t: Bytes)
    requires name in [GETINFO, SHIFT, SETTCK]
    ensures NameOf(name + t) == Named(name)
  {
    var s := name + t;
    var n := |name| - 1;
    assert forall k :: 0 <= k < n ==> s[k] == name[k] != COLON;
    assert s[n] == COLON;
    assert FindColon(s, 0, NameEnd(s)) == n;
    assert s[..n + 1] == name;
  }

  /** Commands before the first that the receive buffer cannot hold. */
  function Fitting(ops: seq<Op>, max: nat): (n: nat)
    ensures n <= |ops|
    ensures forall i :: 0 <= i < n ==> |Encode(ops[i])| <= max
    ensures n < |ops| ==> |Encode(ops[n])| > max
  {
    if ops == [] || |Encode(ops[0])| > max then 0 else 1 + Fitting(ops[1..], max)
  }

  /** The server's parser inverts the client's encoding, command for command, up to the
      first command that does not fit the buffer. */
  lemma {:induction false} ParseEncodeAll(ops: seq<Op>, max: nat)
    requires (forall i :: 0 <= i < |ops| ==> Sendable(ops[i])) && NAME_MAX <= max
    ensures var r := ParseAll(EncodeAll(ops), max);
            && r.ops == ops[..Fitting(ops, max)] && (r.bad <==> Fitting(ops, max) < |ops|)
            && (!r.bad ==> r.rest == [])
    decreases |ops|
  {
    hide ParseOne, ParseAll, Encode, Sendable;
    var s := EncodeAll(ops);
    ParseStep(s, max);
    if ops == [] {
      NothingYet(max);
    } else {
      var rest := EncodeAll(ops[1..]);
      ParseEncoded(ops[0], max);
      ParseMore(Encode(ops[0]), rest, max);
      if |Encode(ops[0])| <= max {
        assert s[|Encode(ops[0])|..] == rest;
        ParseEncodeAll(ops[1..], max);
        assert ops[..Fitting(ops, max)] == [ops[0]] + ops[1..][..Fitting(ops[1..], max)];
      }
    }
  }

  lemma NothingYet(max: nat)
    ensures ParseOne([], max) == Need(1)
  {
  }
}
