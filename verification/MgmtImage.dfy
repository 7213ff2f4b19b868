/** Describing, loading and clearing an image: retry and polling loops over commands. */
module MgmtImage {
  import opened Bits
  import opened MboxHal
  import opened MboxDriver
  import opened MboxCmd

  const FPGA_SLOT_MAX: nat := 8
  const AFI_CMD_API_VERSION: u32 := 0x1_0002
  const AFI_CMD_LOAD: u32 := 1
  const AFI_CMD_METRICS: u32 := 2
  const AFI_CMD_CLEAR: u32 := 3
  const METRICS_RSP_LEN: nat := 592
  const RL_RELOAD_RETRIES: nat := 30
  const SYNC_TIMEOUT: nat := 90000

  const STATUS_LOADED: int := 0
  const STATUS_CLEARED: int := 1
  const STATUS_BUSY: int := 2
  const STATUS_LOADING_RL: int := 5
  const STATUS_END: int := 8
  const FPGA_ERR_FAIL: int := 14
  const CMD_PREFETCH: nat := 0x80

  /** PCI ids as the device reports or sysfs shows them. */
  datatype DevIds = DevIds(vendor: nat, device: nat, svid: nat, ssid: nat)

  /** The part of a metrics response that is used. */
  datatype Metrics = Metrics(afiId: seq<u8>, dev: DevIds, status: int, statusQ: int)

  function BytesOf(ws: Msg): seq<u8> {
    if ws == [] then [] else Unword(ws[0], 4) + BytesOf(ws[1..])
  }

  /** A string up to its terminating zero. */
  function CString(b: seq<u8>): seq<u8> {
    if b == [] || b[0] == 0 then [] else [b[0]] + CString(b[1..])
  }

  const NONE: seq<u8> := [110, 111, 110, 101]

  /** The AFI id in 16 words, as it is passed on; an empty one reads "none". */
  function IdOf(words: Msg): seq<u8> {
    var id := CString(BytesOf(words));
    if id == [] then NONE else id
  }

  /** struct afi_cmd_metrics_rsp behind the header. */
  function MetricsOf(rsp: Msg): Metrics
    requires |rsp| == WINDOW
  {
    Metrics(IdOf(rsp[4..20]),
            DevIds(rsp[20] % 0x1_0000, rsp[20] / 0x1_0000, rsp[21] % 0x1_0000, rsp[21] / 0x1_0000),
            ErrorCode(rsp[22]), ErrorCode(rsp[23]))
  }

  // ---- The load command ----------------------------------------------------------------------

  const AFI_ID_STR_MAX: nat := 64
  const FPGA_MMCM_GROUP_MAX: nat := 3

  function WordsOf(b: seq<u8>): (w: Msg)
    requires |b| % 4 == 0
    ensures |w| == |b| / 4
  {
    if b == [] then []
    else
      WordOf4(b[..4]);
      [Word(b[..4])] + WordsOf(b[4..])
  }

  lemma WordOf4(b: seq<u8>)
    requires |b| == 4
    ensures Word(b) < 0x1_0000_0000
  {
    PowIs32();
    WordBits(b);
  }

  lemma {:induction false} BytesOfWords(b: seq<u8>)
    requires |b| % 4 == 0
    ensures BytesOf(WordsOf(b)) == b
    decreases |b|
  {
    hide Word, Unword;
    if b != [] {
      UnwordWord(b[..4]);
      BytesOfWords(b[4..]);
      assert WordsOf(b)[1..] == WordsOf(b[4..]);
    }
  }

  /** strncpy into the 64 bytes of an id, the last of which is then cleared. */
  function IdField(id: seq<u8>): (b: seq<u8>)
    ensures |b| == AFI_ID_STR_MAX
  {
    var front := if |id| < AFI_ID_STR_MAX then id else id[..AFI_ID_STR_MAX - 1];
    front + seq(AFI_ID_STR_MAX - |front|, i => 0)
  }

  /** A C string: no zero inside. */
  predicate IsString(s: seq<u8>) { 0 !in s }

  /** Flags that are passed on; none of those refused before is among them. */
  function PassedFlags(flags: u32): u32 {
    var low, high := flags / 2 % 4, flags / 0x80 % 4;
    2 * low + 0x80 * high
  }

  /** MHz to Hz, in 32 bits. */
  function Hertz(mains: int): u32 { 1000000 * mains % 0x1_0000_0000 }

  /** struct fpga_clocks_common: the first of seven 64-bit frequencies. */
  function ClockWords(mains: u32): (w: Msg)
    ensures |w| == 14
  {
    [Hertz(mains)] + seq(13, i => 0)
  }

  /** struct afi_cmd_load_req: id, PCI ids, flags, configuration, clocks of three groups. */
  function LoadBody(afiId: seq<u8>, flags: u32, mains: seq<u32>): (body: Msg)
    requires |mains| == FPGA_MMCM_GROUP_MAX
    ensures |body| == 62
  {
    WordsOf(IdField(afiId)) + [0, 0, PassedFlags(flags), 0] + ClockWords(mains[0]) + ClockWords(mains[1]) + ClockWords(mains[2])
  }

  lemma {:induction false} StringOf(s: seq<u8>, zeros: seq<u8>)
    requires IsString(s) && zeros != [] && zeros[0] == 0
    ensures CString(s + zeros) == s
    decreases |s|
  {
    if s == [] {
      assert s + zeros == zeros;
    } else {
      StringOf(s[1..], zeros);
      assert (s + zeros)[1..] == s[1..] + zeros && (s + zeros)[0] == s[0];
    }
  }

  /** What a device finds in a load command: the first 63 bytes of the id, the flags, and
      the clocks in Hz modulo 2^32. */
  lemma LoadBodyCarries(afiId: seq<u8>, flags: u32, mains: seq<u32>)
    requires IsString(afiId) && |mains| == FPGA_MMCM_GROUP_MAX
    ensures var body := LoadBody(afiId, flags, mains);
            && CString(BytesOf(body[..16])) == (if |afiId| < AFI_ID_STR_MAX then afiId else afiId[..AFI_ID_STR_MAX - 1])
            && body[18] == PassedFlags(flags)
            && forall g :: 0 <= g < FPGA_MMCM_GROUP_MAX ==> body[20 + 14 * g] == Hertz(mains[g])
  {
    hide CString, BytesOf, WordsOf, IsString;
    var front := if |afiId| < AFI_ID_STR_MAX then afiId else afiId[..AFI_ID_STR_MAX - 1];
    FrontString(afiId, |front|);
    var body := LoadBody(afiId, flags, mains);
    assert body[..16] == WordsOf(IdField(afiId));
    BytesOfWords(IdField(afiId));
    StringOf(front, seq(AFI_ID_STR_MAX - |front|, i => 0));
  }

  lemma FrontString(s: seq<u8>, n: nat)
    requires IsString(s) && n <= |s|
    ensures IsString(s[..n])
  {
  }

  /** A device that reports the id it was sent passes the comparison of a synchronous load
      if and only if the id has 1 to 63 characters. */
  lemma IdComesBack(afiId: seq<u8>, flags: u32, mains: seq<u32>)
    requires IsString(afiId) && |mains| == FPGA_MMCM_GROUP_MAX
    ensures Id64(IdOf(LoadBody(afiId, flags, mains)[..16])) == Id64(afiId) <==> 1 <= |afiId| < AFI_ID_STR_MAX
  {
    hide CString, BytesOf, LoadBody, IsString;
    LoadBodyCarries(afiId, flags, mains);
  }

  /** A command: its header, then the body, padded to the buffer. */
  function Command(op: u32, id: u32, body: Msg): (cmd: Msg)
    requires |body| <= 1000
    ensures |cmd| == WINDOW
  {
    [AFI_CMD_API_VERSION, op, 4 * |body|, id] + body + seq(WINDOW - 4 - |body|, i => 0)
  }

  function CommandLen(body: Msg): nat { HDR_LEN + 4 * |body| }

  /** struct fpga_mgmt_image_info */
  class ImageInfo {
    var status: int
    var statusQ: int
    var afiId: seq<u8>
    var dev: DevIds
    var shVersion: u32
    var spec: nat

    constructor ()
      ensures status == 0 && statusQ == 0 && afiId == [] && dev == DevIds(0, 0, 0, 0) && shVersion == 0 && spec == 0
    {
      status, statusQ, afiId, dev, shVersion, spec := 0, 0, [], DevIds(0, 0, 0, 0), 0, 0;
    }

    method CopyFrom(other: ImageInfo)
      modifies this
      ensures status == other.status && statusQ == other.statusQ && afiId == other.afiId && dev == other.dev
      ensures shVersion == other.shVersion && spec == other.spec
    {
      status, statusQ, afiId, dev := other.status, other.statusQ, other.afiId, other.dev;
      shVersion, spec := other.shVersion, other.spec;
    }
  }

  /** fpga_mgmt_get_sh_version */
  method GetShVersion(m: Mailbox, slotId: int) returns (ret: int, version: u32)
    requires m.Valid()
    modifies m`r, m`shVersion, m`statusReads, m`acks
    ensures m.Valid() && m.statusReads <= old(m.statusReads) + 1
    ensures slotId < 0 || slotId >= FPGA_SLOT_MAX ==> ret == -EINVAL
    ensures ret == 0 ==> version == m.shVersion
  {
    version := 0;
    if slotId < 0 || slotId >= FPGA_SLOT_MAX { return -EINVAL, version; }
    ret := *;
    if ret != 0 { return; }
    ghost var cleared;
    ret, cleared := Reset(m);
    if ret != 0 { return; }
    ret, version := m.PeekShVersion();
    if ret != 0 { ret := -1; }
  }

  /** What a describe call did to its out-structure. */
  ghost predicate Described(info: ImageInfo, metrics: Metrics, ret: int)
    reads info
  {
    && info.statusQ == metrics.statusQ && info.afiId == metrics.afiId && info.dev == metrics.dev
    && (info.status == metrics.status || (ret == 0 && metrics.status == STATUS_LOADING_RL && info.status == STATUS_BUSY))
  }

  /** The metrics are those of an accepted response to a metrics command. */
  ghost predicate Reports(metrics: Metrics) {
    exists id: u32, rsp: Msg, len: nat ::
      |rsp| == WINDOW && len >= HDR_LEN + METRICS_RSP_LEN && Accepted(Command(AFI_CMD_METRICS, id, [0]), rsp, len) && metrics == MetricsOf(rsp)
  }

  /** They are those of a response to this very call, and to no other command on record. */
  ghost predicate Replied(metrics: Metrics, posted: seq<Msg>, id: u32) {
    exists rsp: Msg, msg: Msg ::
      |rsp| == WINDOW && Answered(posted, Command(AFI_CMD_METRICS, id, [0]), rsp, 4 * |msg|, msg) && metrics == MetricsOf(rsp)
  }

  /** Among the commands on record only this one is answered by what was read. */
  ghost predicate Answered(posted: seq<Msg>, cmd: Msg, rsp: Msg, len: nat, msg: Msg)
    requires |cmd| == |rsp| == WINDOW
  {
    1 <= |msg| <= WINDOW && len == 4 * |msg| && rsp[..|msg|] == msg && Matches(cmd, rsp, len) && Only(msg, posted, cmd)
  }

  /** The response answers that command on record and none but that. */
  ghost predicate Only(msg: Msg, posted: seq<Msg>, cmd: Msg) {
    && (exists k :: 0 <= k < |posted| && Answers(posted[k], msg))
    && forall k :: 0 <= k < |posted| && Answers(posted[k], msg) ==> SameCommand(posted[k], cmd)
  }

  lemma OnlyIs(msg: Msg, posted: seq<Msg>, cmd: Msg)
    requires posted != [] && Answers(posted[|posted| - 1], msg)
    requires forall k :: 0 <= k < |posted| && Answers(posted[k], msg) ==> SameCommand(posted[k], cmd)
    ensures Only(msg, posted, cmd)
  {
  }

  /** One more exchange of the same command. */
  lemma Exchanged(before: seq<Msg>, after: seq<Msg>, given: seq<u32>, cmd: Msg, len: nat)
    requires Record(before, given) && |cmd| == WINDOW && Own(before, cmd) && cmd[3] in given && cmd[1] != AFI_CMD_ERROR
    requires after == before || (CheckLen(len) == 0 && after == before + [cmd[..len / 4]])
    requires len >= HDR_LEN
    ensures Record(after, given) && Own(after, cmd)
  {
    hide Record, Own;
    if after != before { PostedAgain(before, given, cmd, len / 4); }
  }

  lemma CommandWords(op: u32, id: u32, body: Msg)
    requires |body| <= 1000
    ensures Command(op, id, body)[1] == op && Command(op, id, body)[3] == id
  {
  }

  /** A new id belongs to no command on record. */
  lemma Begun(posted: seq<Msg>, before: seq<u32>, given: seq<u32>, cmd: Msg)
    requires Record(posted, before) && |cmd| >= 4 && given == before + [cmd[3]]
    requires forall i, j :: 0 <= i < j < |given| ==> given[i] != given[j]
    ensures Record(posted, given) && Own(posted, cmd)
  {
    hide Record, Own;
    forall i | 0 <= i < |before| ensures before[i] != cmd[3] {
      assert given[i] == before[i] && given[|before|] == cmd[3];
    }
    NewCommand(posted, before, cmd);
  }

  /** One exchange of the command, for the first time or again. */
  method Once(m: Mailbox, cmd: Msg, lenIn: nat, rsp: array<u32>, ghost given: seq<u32>)
    returns (ret: int, len: nat, ghost msg: Msg)
    requires m.Valid() && |cmd| == WINDOW && rsp.Length == WINDOW && cmd[1] != AFI_CMD_ERROR && cmd[3] in given
    modifies m`r, m`shVersion, m`statusReads, m`acks, m`posted, rsp
    ensures m.Valid() && m.statusReads <= old(m.statusReads) + 3 * m.timeout + 2
    ensures ret == 0 ==> Accepted(cmd, rsp[..], len)
    ensures ret != 0 && m.honest && lenIn >= HDR_LEN ==> len >= HDR_LEN
    ensures old(m.posted) <= m.posted
    ensures m.honest && lenIn >= HDR_LEN && Record(old(m.posted), given) && Own(old(m.posted), cmd) ==>
              && Record(m.posted, given) && Own(m.posted, cmd)
              && (ret == 0 ==> Answered(m.posted, cmd, rsp[..], len, msg))
  {
    hide Mailbox.Valid, Matches, HollowError, Accepted, Answers, Own, SameCommand, Commands;
    ghost var drained;
    ret, len, msg, drained := ProcessCmd(m, true, cmd, lenIn, rsp);
    if m.honest && lenIn >= HDR_LEN && Record(old(m.posted), given) && Own(old(m.posted), cmd) {
      Exchanged(old(m.posted), m.posted, given, cmd, lenIn);
      if ret == 0 { OnlyIs(msg, m.posted, cmd); }
    }
  }

  /** The exchanges of fpga_mgmt_describe_cmd: at most 32, all with the same command, of the
      length that the one before left. */
  method Ask(m: Mailbox, cmd: Msg, rsp: array<u32>, ghost given: seq<u32>)
    returns (ret: int, len: nat, ghost calls: nat, ghost msg: Msg)
    requires m.Valid() && |cmd| == WINDOW && rsp.Length == WINDOW && cmd[1] != AFI_CMD_ERROR && cmd[3] in given
    modifies m`r, m`shVersion, m`statusReads, m`acks, m`posted, rsp
    ensures m.Valid() && calls <= RL_RELOAD_RETRIES + 2
    ensures m.statusReads <= old(m.statusReads) + calls * (3 * m.timeout + 2)
    ensures ret == 0 ==> Accepted(cmd, rsp[..], len)
    ensures old(m.posted) <= m.posted
    ensures m.honest && Record(old(m.posted), given) && Own(old(m.posted), cmd) ==>
              && Record(m.posted, given)
              && (ret == 0 ==> Answered(m.posted, cmd, rsp[..], len, msg))
  {
    hide Mailbox.Valid, Matches, HollowError, Accepted, Record, Own, Answered;
    ghost var per := 3 * m.timeout + 2;
    ghost var sure := m.honest && Record(m.posted, given) && Own(m.posted, cmd);
    ret, len, msg := Once(m, cmd, CommandLen([0]), rsp, given);
    calls := 1;
    var numRetries := 0;
    while (ret == FPGA_ERR_AFI_CMD_MALFORMED || ret == -ETIMEDOUT) && numRetries <= RL_RELOAD_RETRIES
      invariant 0 <= numRetries <= RL_RELOAD_RETRIES + 1 && calls == 1 + numRetries && m.Valid()
      invariant old(m.posted) <= m.posted
      invariant ret == 0 ==> Accepted(cmd, rsp[..], len)
      invariant ret != 0 && m.honest ==> len >= HDR_LEN
      invariant sure ==> Record(m.posted, given) && Own(m.posted, cmd)
      invariant sure && ret == 0 ==> Answered(m.posted, cmd, rsp[..], len, msg)
      invariant m.statusReads <= old(m.statusReads) + calls * per
      decreases RL_RELOAD_RETRIES + 1 - numRetries
    {
      assert (calls + 1) * per == calls * per + per;
      ret, len, msg := Once(m, cmd, len, rsp, given);
      calls := calls + 1;
      numRetries := numRetries + 1;
    }
  }

  /** fpga_mgmt_describe_cmd: at most 32 exchanges. Nothing is stored unless a response
      was accepted; then the status is the device's own, except that a reload request
      that was passed on reads as busy. All exchanges post the same command: a device that
      answers only what it is asked has then answered this call. */
  method DescribeCmd(m: Mailbox, ids: CommandIds, slotId: int, info: ImageInfo)
    returns (ret: int, ghost calls: nat, ghost stored: bool, ghost metrics: Metrics)
    requires m.Valid() && ids.Valid() && InStep(m, ids)
    modifies m`r, m`shVersion, m`statusReads, m`acks, m`posted, ids, info
    ensures m.Valid() && ids.Valid() && InStep(m, ids) && calls <= RL_RELOAD_RETRIES + 2
    ensures m.statusReads <= old(m.statusReads) + 32 * (3 * m.timeout + 2) + 2
    ensures !stored ==> unchanged(info) && ret != 0
    ensures stored ==> Described(info, metrics, ret) && Reports(metrics)
    ensures stored && m.honest && !ids.wrapped ==> exists id: u32 :: id !in old(ids.given) && Replied(metrics, m.posted, id)
    ensures old(m.posted) <= m.posted && (old(ids.wrapped) ==> ids.wrapped)
    ensures !ids.wrapped ==> old(ids.given) <= ids.given
  {
    hide Mailbox.Valid, MetricsOf, Matches, HollowError, Accepted, Record, Own, Command, Answered;
    calls, stored, metrics := 0, false, Metrics([], DevIds(0, 0, 0, 0), 0, 0);
    if slotId < 0 || slotId >= FPGA_SLOT_MAX { return -EINVAL, calls, stored, metrics; }
    var id, cmd := Start(m, ids, AFI_CMD_METRICS, [0]);
    var rsp := new u32[WINDOW](i => 0);
    var len;
    ghost var msg;
    ret, len, calls, msg := Ask(m, cmd, rsp, ids.given);
    CallsBound(calls, 3 * m.timeout + 2);
    if ret != 0 { return; }
    if len < HDR_LEN + METRICS_RSP_LEN { return FPGA_ERR_AFI_CMD_MALFORMED, calls, stored, metrics; }
    stored, metrics := true, MetricsOf(rsp[..]);
    assert Accepted(Command(AFI_CMD_METRICS, id, [0]), rsp[..], len);
    if m.honest && !ids.wrapped {
      LenIs(m.posted, cmd, rsp[..], len, msg);
      assert id !in old(ids.given) && Replied(metrics, m.posted, id);
    }
    ret := Store(m, slotId, MetricsOf(rsp[..]), info);
  }

  lemma LenIs(posted: seq<Msg>, cmd: Msg, rsp: Msg, len: nat, msg: Msg)
    requires |cmd| == |rsp| == WINDOW && Answered(posted, cmd, rsp, len, msg)
    ensures len == 4 * |msg|
  {
  }

  /** A command with the next id. */
  method Start(m: Mailbox, ids: CommandIds, op: u32, body: Msg) returns (id: u32, cmd: Msg)
    requires ids.Valid() && InStep(m, ids) && |body| <= 1000
    modifies ids
    ensures ids.Valid() && InStep(m, ids) && id in ids.given && (old(ids.wrapped) ==> ids.wrapped)
    ensures cmd == Command(op, id, body) && cmd[1] == op && cmd[3] == id
    ensures !ids.wrapped ==> id !in old(ids.given) && old(ids.given) <= ids.given
    ensures m.honest && !ids.wrapped ==> Record(m.posted, ids.given) && Own(m.posted, cmd)
  {
    hide Record, Own, Command;
    var seed: u32 := *;
    id := ids.Next(seed);
    cmd := Command(op, id, body);
    CommandWords(op, id, body);
    if !ids.wrapped {
      ghost var before, given := old(ids.given), ids.given;
      assert given == before + [cmd[3]];
      if m.honest { Begun(m.posted, before, given, cmd); }
      assert forall i :: 0 <= i < |before| ==> before[i] == given[i] != given[|before|];
    }
  }

  lemma CallsBound(calls: nat, per: nat)
    requires calls <= 32
    ensures calls * per <= 32 * per
  {
  }

  /** The second half of fpga_mgmt_describe_cmd. A reload request that could not be passed
      on is not an error of the call: the failing inner code is not the one returned. */
  method Store(m: Mailbox, slotId: int, metrics: Metrics, info: ImageInfo) returns (ret: int)
    requires m.Valid()
    modifies m`r, m`shVersion, m`statusReads, m`acks, info
    ensures m.Valid() && m.statusReads <= old(m.statusReads) + 2
    ensures Described(info, metrics, ret)
  {
    info.status, info.statusQ := metrics.status, metrics.statusQ;
    info.afiId, info.dev := metrics.afiId, metrics.dev;
    var version;
    ret, version := GetShVersion(m, slotId);
    if ret != 0 { return; }
    info.shVersion := version;
    ret := *;
    if ret != 0 { return; }
    if metrics.status == STATUS_LOADING_RL {
      var attached: int := *;
      if attached != 0 { return; }
      ghost var cleared;
      var inner;
      inner, cleared := Reset(m);
      if inner != 0 { return; }
      inner := *;
      if inner != 0 { return; }
      info.status := STATUS_BUSY;
    }
  }

  // ---- Synchronous load and clear ------------------------------------------------------------

  /** One poll: what describe returned, and what the structure read after it. */
  datatype Poll = Poll(ret: int, status: int, statusQ: int, afiId: seq<u8>, stored: bool)

  /** How a synchronous operation ended. */
  datatype Ending =
    | NotStarted           // before the first poll
    | Reached              // the wanted status was seen, and the image is the one asked for
    | WrongImage           // ... but it is another image
    | TimedOut
    | Refused              // some other status, or a poll that failed

  /** The poll saw the wanted status. */
  predicate Saw(p: Poll, wanted: int) { p.ret == 0 && p.status == wanted }

  predicate Busy(p: Poll) { p.ret == 0 && p.status == STATUS_BUSY }

  /** The ending that a series of polls stands for. */
  ghost predicate Ended(polls: seq<Poll>, wanted: int, image: seq<u8>, checked: bool, limit: nat, ending: Ending) {
    && polls != [] && |polls| <= limit + 1
    && (forall i :: 0 <= i < |polls| - 1 ==> Busy(polls[i]))
    && var last := polls[|polls| - 1];
       match ending
       case NotStarted => false
       case Reached => Saw(last, wanted) && (checked ==> last.afiId == image)
       case WrongImage => Saw(last, wanted) && checked && last.afiId != image
       case TimedOut => Busy(last) && |polls| == limit + 1
       case Refused => !Saw(last, wanted) && !Busy(last)
  }

  /** The status qualifier that is left in the structure: that of the last poll that
      brought a response, or 0 if none did. */
  function LastQ(polls: seq<Poll>): int {
    if polls == [] then 0
    else if polls[|polls| - 1].stored then polls[|polls| - 1].statusQ
    else LastQ(polls[..|polls| - 1])
  }

  /** strncmp over the 64 bytes of an AFI id. */
  function Id64(s: seq<u8>): seq<u8> { if |s| <= 64 then s else s[..64] }

  /** The polling loop of fpga_mgmt_load_local_image_sync and fpga_mgmt_clear_local_image_sync. */
  method Await(m: Mailbox, ids: CommandIds, slotId: int, info: ImageInfo, wanted: int, checked: bool, image: seq<u8>, limit: nat)
    returns (ret: int, done: bool, ghost polls: seq<Poll>, ghost ending: Ending)
    requires m.Valid() && ids.Valid() && InStep(m, ids) && info.statusQ == 0 && wanted != STATUS_BUSY && wanted != STATUS_END
    modifies m`r, m`shVersion, m`statusReads, m`acks, m`posted, ids, info
    ensures m.Valid() && ids.Valid() && InStep(m, ids) && old(m.posted) <= m.posted && (old(ids.wrapped) ==> ids.wrapped)
    ensures !ids.wrapped ==> old(ids.given) <= ids.given
    ensures Ended(polls, wanted, Id64(image), checked, limit, ending)
    ensures done <==> ending.Reached?
    ensures ending.Reached? ==> ret == 0 && info.status == wanted && (checked ==> Id64(info.afiId) == Id64(image))
    ensures ending.Reached? && m.honest && !ids.wrapped ==>
              exists id: u32, metrics :: id !in old(ids.given) && Replied(metrics, m.posted, id) && Described(info, metrics, 0)
    ensures ending.WrongImage? ==> ret == FPGA_ERR_FAIL
    ensures ending.TimedOut? ==> ret == -ETIMEDOUT
    ensures ending.Refused? ==> ret == LastQ(polls)
  {
    hide Mailbox.Valid, CommandIds.Valid, Described, Replied, Reports, InStep, Record;
    var retries := 0;
    polls := [];
    while true
      invariant 0 <= retries == |polls| <= limit && m.Valid() && ids.Valid() && old(m.posted) <= m.posted
      invariant InStep(m, ids) && (old(ids.wrapped) ==> ids.wrapped)
      invariant !ids.wrapped ==> old(ids.given) <= ids.given
      invariant forall i :: 0 <= i < |polls| ==> Busy(polls[i])
      invariant info.statusQ == LastQ(polls)
      decreases limit - retries
    {
      ghost var before := polls;
      ghost var calls, stored, metrics;
      ret, calls, stored, metrics := DescribeCmd(m, ids, slotId, info);
      polls := polls + [Poll(ret, info.status, info.statusQ, Id64(info.afiId), stored)];
      assert polls[..|polls| - 1] == before;
      var status := if ret == 0 then info.status else STATUS_END;
      if status == wanted {
        if checked && Id64(image) != Id64(info.afiId) {
          ending := WrongImage;
          return FPGA_ERR_FAIL, false, polls, ending;
        }
        ending := Reached;
        return 0, true, polls, ending;
      } else if status == STATUS_BUSY {
        if retries >= limit {
          ending := TimedOut;
          return -ETIMEDOUT, false, polls, ending;
        }
        retries := retries + 1;
      } else {
        ending := Refused;
        return info.statusQ, false, polls, ending;
      }
    }
  }
}
