/** The AFI command layer: message headers, command ids, matching a response to the
    command it answers, and one exchange over the mailbox. */
module MboxCmd {
  import opened Bits
  import opened MboxHal
  import opened MboxDriver

  const AFI_CMD_DATA_LEN: nat := 4096
  const HDR_LEN: nat := 16
  const AFI_MAX_RETRIES: nat := 1
  const AFI_CMD_ERROR: u32 := 0
  const FPGA_ERR_AFI_CMD_API_VERSION_INVALID: int := 11
  const FPGA_ERR_SOFTWARE_PROBLEM: int := 24
  const EINVAL: int := 22

  // ---- Header words: 0 version, 1 opcode, 2 length and flags, 3 id ------------------------

  function MajorVersion(x: u32): nat { x % 0x1_0000 }
  function GetLen(lenFlags: u32): nat { lenFlags % 0x100_0000 }
  function GetFlags(lenFlags: u32): nat { lenFlags / 0x100_0000 }

  /** afi_cmd_hdr_set_len: (new word, return code). */
  function SetLen(lenFlags: u32, len: nat): (u32, int) {
    if len >= 0x100_0000 then (lenFlags, FPGA_ERR_SOFTWARE_PROBLEM) else (lenFlags - lenFlags % 0x100_0000 + len, 0)
  }

  /** afi_cmd_hdr_set_flags: the only flag there is marks a response. */
  function SetFlags(lenFlags: u32, flags: nat): (u32, int) {
    if flags > 1 then (lenFlags, FPGA_ERR_SOFTWARE_PROBLEM) else (lenFlags % 0x100_0000 + flags * 0x100_0000, 0)
  }

  /** Length and flags share a word without disturbing one another. */
  lemma HeaderWord(x: u32, len: nat, flags: nat)
    ensures SetLen(x, len).1 == 0 ==> GetLen(SetLen(x, len).0) == len && GetFlags(SetLen(x, len).0) == GetFlags(x)
    ensures SetFlags(x, flags).1 == 0 ==> GetFlags(SetFlags(x, flags).0) == flags && GetLen(SetFlags(x, flags).0) == GetLen(x)
    ensures SetLen(x, len).1 != 0 ==> SetLen(x, len).0 == x
    ensures SetFlags(x, flags).1 != 0 ==> SetFlags(x, flags).0 == x
  {
  }

  /** afi_get_next_id: a counter that is seeded at random whenever it stands at 0. */
  class CommandIds {
    var id: u32
    ghost var given: seq<u32>  // ids handed out since the counter was last seeded
    ghost var wrapped: bool    // was it seeded more than once?

    constructor ()
      ensures Valid() && given == [] && !wrapped
    {
      id, given, wrapped := 0, [], false;
    }

    /** Since the last seeding the ids were consecutive, so no two of them are equal. */
    ghost predicate Valid()
      reads this
    {
      && (forall i :: 0 <= i < |given| ==> given[i] == given[0] + i)
      && (given != [] ==> given[0] + |given| <= 0x1_0000_0000 && id == (given[0] + |given|) % 0x1_0000_0000)
      && (given == [] ==> id == 0)
    }

    method Next(seed: u32) returns (r: u32)
      requires Valid()
      modifies this
      ensures Valid()
      ensures given == if old(id) == 0 then [r] else old(given) + [r]
      ensures old(id) == 0 ==> r == seed
      ensures wrapped <==> old(wrapped) || (old(id) == 0 && old(given) != [])
      ensures forall i, j :: 0 <= i < j < |given| ==> given[i] != given[j]
    {
      if id == 0 { id, given, wrapped := seed, [], wrapped || given != []; }
      r := id;
      given := given + [r];
      id := (id + 1) % 0x1_0000_0000;
    }
  }

  // ---- Matching -----------------------------------------------------------------------------

  /** The code of an error response, an int32_t. */
  function ErrorCode(word: u32): int { if word < 0x8000_0000 then word else word - 0x1_0000_0000 }

  /** fpga_mgmt_handle_afi_cmd_error_rsp */
  function HandleError(rsp: Msg, len: nat): int
    requires |rsp| == WINDOW
  {
    if len < HDR_LEN + 4 then FPGA_ERR_AFI_CMD_MALFORMED
    else if ErrorCode(rsp[4]) == FPGA_ERR_AFI_CMD_API_VERSION_INVALID && len < HDR_LEN + 8 then FPGA_ERR_AFI_CMD_MALFORMED
    else ErrorCode(rsp[4])
  }

  /** fpga_mgmt_afi_validate_header, check by check. */
  function Validate(cmd: Msg, rsp: Msg, len: nat): int
    requires |cmd| >= 4 && |rsp| == WINDOW
  {
    if MajorVersion(cmd[0]) != MajorVersion(rsp[0]) then FPGA_ERR_AFI_CMD_MALFORMED
    else if cmd[1] != rsp[1] then (if rsp[1] == AFI_CMD_ERROR then HandleError(rsp, len) else -EAGAIN)
    else if cmd[3] != rsp[3] then -EAGAIN
    else if len < HDR_LEN then FPGA_ERR_AFI_CMD_MALFORMED
    else if GetLen(rsp[2]) + HDR_LEN > AFI_CMD_DATA_LEN then FPGA_ERR_AFI_CMD_MALFORMED
    else if GetFlags(rsp[2]) % 2 == 0 then FPGA_ERR_AFI_CMD_MALFORMED
    else 0
  }

  /** A response to this very command. */
  predicate Matches(cmd: Msg, rsp: Msg, len: nat)
    requires |cmd| >= 4 && |rsp| == WINDOW
  {
    && MajorVersion(cmd[0]) == MajorVersion(rsp[0]) && cmd[1] == rsp[1] && cmd[3] == rsp[3]
    && HDR_LEN <= len && GetLen(rsp[2]) + HDR_LEN <= AFI_CMD_DATA_LEN && GetFlags(rsp[2]) % 2 == 1
  }

  /** An error response, for any command, that reports no error. */
  predicate HollowError(cmd: Msg, rsp: Msg, len: nat)
    requires |cmd| >= 4 && |rsp| == WINDOW
  {
    && MajorVersion(cmd[0]) == MajorVersion(rsp[0]) && cmd[1] != AFI_CMD_ERROR == rsp[1]
    && HDR_LEN + 4 <= len && rsp[4] == 0
  }

  predicate Accepted(cmd: Msg, rsp: Msg, len: nat)
    requires |cmd| >= 4 && |rsp| == WINDOW
  {
    Matches(cmd, rsp, len) || HollowError(cmd, rsp, len)
  }

  /** What passes the check: responses to this command, and error responses with code 0,
      whose id and response flag are not looked at. */
  lemma ValidateAccepts(cmd: Msg, rsp: Msg, len: nat)
    requires |cmd| >= 4 && |rsp| == WINDOW
    ensures Validate(cmd, rsp, len) == 0 <==> Accepted(cmd, rsp, len)
  {
  }

  /** So an accepted answer is to this command if and only if it is not such a hollow one. */
  lemma AcceptedMatches(cmd: Msg, rsp: Msg, len: nat)
    requires |cmd| >= 4 && |rsp| == WINDOW && Validate(cmd, rsp, len) == 0
    ensures Matches(cmd, rsp, len) <==> !(rsp[1] == AFI_CMD_ERROR && cmd[1] != AFI_CMD_ERROR)
  {
  }

  /** A concrete case of the exception: the answer to command 7 is taken for that to 8. */
  lemma HollowErrorAccepted()
    ensures exists cmd: Msg, rsp: Msg :: |cmd| == 4 && |rsp| == WINDOW && cmd[3] != rsp[3] && Validate(cmd, rsp, 20) == 0
  {
    var cmd: Msg := [0x1_0002, 3, 4, 8];
    var rsp: Msg := [0x1_0002, 0, 0x100_0004, 7, 0] + seq(WINDOW - 5, i => 0);
    assert cmd[3] != rsp[3] && Validate(cmd, rsp, 20) == 0;
  }

  /** A request that comes back unchanged is never taken for its own answer. */
  lemma EchoRefused(cmd: Msg, rsp: Msg, len: nat)
    requires |cmd| >= 4 && |rsp| == WINDOW && rsp[..4] == cmd[..4] && GetFlags(cmd[2]) % 2 == 0
    ensures Validate(cmd, rsp, len) == FPGA_ERR_AFI_CMD_MALFORMED
  {
  }

  /** An error response is reported as an error of the current command whatever its id. */
  lemma ErrorsIgnoreIds(cmd: Msg, rsp: Msg, len: nat)
    requires |cmd| >= 4 && |rsp| == WINDOW && MajorVersion(cmd[0]) == MajorVersion(rsp[0])
    requires cmd[1] != AFI_CMD_ERROR == rsp[1] && len >= HDR_LEN + 8
    ensures Validate(cmd, rsp, len) == ErrorCode(rsp[4])
  {
  }

  /** The same command, perhaps posted again with another length. */
  predicate SameCommand(a: Msg, b: Msg) { |a| >= 4 && |b| >= 4 && a[..4] == b[..4] }

  /** Commands on record are well formed, none is an error message, and an id stands for
      one command. */
  ghost predicate Commands(posted: seq<Msg>) {
    && (forall i :: 0 <= i < |posted| ==> |posted[i]| >= 4 && posted[i][1] != AFI_CMD_ERROR)
    && (forall i, j :: 0 <= i < j < |posted| && posted[i][3] == posted[j][3] ==> SameCommand(posted[i], posted[j]))
  }

  /** No stale answer: what is accepted from a device that answers only what it was asked
      answers the last command posted, which may have been posted before, and no other. */
  lemma AcceptedIsCurrent(posted: seq<Msg>, rsp: Msg, msg: Msg, k: nat)
    requires Commands(posted) && k < |posted| && Answers(posted[k], msg)
    requires |rsp| == WINDOW && |msg| <= WINDOW && rsp[..|msg|] == msg
    requires Validate(posted[|posted| - 1], rsp, 4 * |msg|) == 0
    ensures SameCommand(posted[k], posted[|posted| - 1]) && Matches(posted[|posted| - 1], rsp, 4 * |msg|)
    ensures (forall i :: 0 <= i < |posted| - 1 ==> posted[i][3] != posted[|posted| - 1][3]) ==> k == |posted| - 1
  {
  }

  // ---- A run of commands -----------------------------------------------------------------------

  /** The record of a run: every id on it was handed out by the counter. */
  ghost predicate Record(posted: seq<Msg>, given: seq<u32>) {
    Commands(posted) && forall i :: 0 <= i < |posted| ==> posted[i][3] in given
  }

  /** Whatever on the record has the id of this command is this command. */
  ghost predicate Own(posted: seq<Msg>, cmd: Msg)
    requires |cmd| >= 4
  {
    forall i :: 0 <= i < |posted| && |posted[i]| >= 4 && posted[i][3] == cmd[3] ==> SameCommand(posted[i], cmd)
  }

  /** What every call keeps that takes its ids from the counter, until the counter wraps. */
  ghost predicate InStep(m: Mailbox, ids: CommandIds)
    reads m, ids
  {
    m.honest && !ids.wrapped ==> Record(m.posted, ids.given)
  }

  /** A new id belongs to no command on the record. */
  lemma NewCommand(posted: seq<Msg>, before: seq<u32>, cmd: Msg)
    requires Record(posted, before) && |cmd| >= 4 && cmd[3] !in before
    ensures Record(posted, before + [cmd[3]]) && Own(posted, cmd)
  {
  }

  /** Posting it, and posting it again, keeps the record. */
  lemma PostedAgain(posted: seq<Msg>, given: seq<u32>, cmd: Msg, n: nat)
    requires Record(posted, given) && |cmd| >= 4 && Own(posted, cmd) && cmd[3] in given
    requires cmd[1] != AFI_CMD_ERROR && 4 <= n <= |cmd|
    ensures Record(posted + [cmd[..n]], given) && Own(posted + [cmd[..n]], cmd)
  {
  }

  // ---- One exchange --------------------------------------------------------------------------

  /** The length of some message that was read. */
  ghost predicate ReadLen(m: Mailbox, len: nat) { CheckLen(len) == 0 && (m.honest ==> len >= HDR_LEN) }

  lemma ReadLenIs(m: Mailbox, at: Regs, msg: Msg, posted: seq<Msg>)
    requires Taken(at, msg, m.honest, posted)
    ensures ReadLen(m, 4 * |msg|)
  {
  }

  /** fpga_mgmt_send_cmd: post the command, then read until a response matches it, but
      drain at most one that does not. */
  method SendCmd(m: Mailbox, cmd: Msg, len: nat, rsp: array<u32>) returns (ret: int, rspLen: nat, ghost msg: Msg, ghost drained: nat)
    requires m.Valid() && |cmd| == WINDOW && rsp.Length == WINDOW
    modifies m`r, m`shVersion, m`statusReads, m`acks, m`posted, rsp
    ensures m.Valid() && m.statusReads <= old(m.statusReads) + 1 + 3 * m.timeout
    ensures drained <= AFI_MAX_RETRIES
    ensures ret != 0 ==> rspLen == len || ReadLen(m, rspLen)
    ensures ret == 0 ==>
              && CheckLen(len) == 0 && m.posted == old(m.posted) + [cmd[..len / 4]]
              && Validate(cmd, rsp[..], rspLen) == 0
              && 1 <= |msg| <= WINDOW && rspLen == 4 * |msg| && rsp[..|msg|] == msg
              && (m.honest ==> exists k :: 0 <= k < |m.posted| && Answers(m.posted[k], msg))
    ensures m.posted == old(m.posted) || (CheckLen(len) == 0 && m.posted == old(m.posted) + [cmd[..len / 4]])
  {
    hide Mailbox.Valid, Validate, Answers, Peer, ReadLen;
    rspLen, msg, drained := len, [], 0;
    ghost var taken;
    ret, taken := Write(m, cmd, len);
    if ret != 0 { return; }
    var retries := 0;
    while true
      invariant 0 <= retries == drained <= AFI_MAX_RETRIES && m.Valid()
      invariant rspLen == len || ReadLen(m, rspLen)
      invariant m.posted == old(m.posted) + [cmd[..len / 4]]
      invariant m.statusReads <= old(m.statusReads) + 1 + m.timeout + (if retries == 0 then 0 else m.timeout)
      decreases AFI_MAX_RETRIES - retries
    {
      ghost var at;
      ret, rspLen, msg, at := Read(m, rsp, rspLen);
      if ret != 0 { return; }
      ReadLenIs(m, at, msg, m.posted);
      ret := Validate(cmd, rsp[..], rspLen);
      if ret == 0 { return; }
      if ret != -EAGAIN { return; }
      if retries >= AFI_MAX_RETRIES { ret := -ETIMEDOUT; return; }
      retries, drained := retries + 1, drained + 1;
    }
  }

  /** fpga_mgmt_process_cmd: attach, which clears pending events, and exchange. With a
      timeout of t it reads the status register at most 3t + 2 times. When it returns 0
      and the device answers only what it is asked, the response answers this command and
      no other. The length is in and out: a failure leaves it, or the length last read. */
  method ProcessCmd(m: Mailbox, slotValid: bool, cmd: Msg, len: nat, rsp: array<u32>)
    returns (ret: int, rspLen: nat, ghost msg: Msg, ghost drained: nat)
    requires m.Valid() && |cmd| == WINDOW && rsp.Length == WINDOW
    modifies m`r, m`shVersion, m`statusReads, m`acks, m`posted, rsp
    ensures m.Valid() && m.statusReads <= old(m.statusReads) + 3 * m.timeout + 2
    ensures !slotValid ==> ret == -EINVAL && m.posted == old(m.posted)
    ensures drained <= AFI_MAX_RETRIES
    ensures m.posted == old(m.posted) || (CheckLen(len) == 0 && m.posted == old(m.posted) + [cmd[..len / 4]])
    ensures ret != 0 ==> rspLen == len || ReadLen(m, rspLen)
    ensures ret == 0 ==>
              && CheckLen(len) == 0 && m.posted == old(m.posted) + [cmd[..len / 4]]
              && Accepted(cmd, rsp[..], rspLen)
    ensures ret == 0 && m.honest && len >= HDR_LEN && Commands(m.posted) ==>
              && Matches(cmd, rsp[..], rspLen) && Answers(cmd[..len / 4], msg)
              && 1 <= |msg| <= WINDOW && rspLen == 4 * |msg| && rsp[..|msg|] == msg
              && forall k :: 0 <= k < |m.posted| && Answers(m.posted[k], msg) ==> SameCommand(m.posted[k], cmd)
  {
    hide Mailbox.Valid, Validate, Answers, Commands, Matches, HollowError, Accepted, ReadLen;
    rspLen, msg, drained := len, [], 0;
    if !slotValid { return -EINVAL, rspLen, msg, drained; }
    var attached: int := *;
    if attached != 0 { return attached, rspLen, msg, drained; }
    ghost var cleared;
    ret, cleared := Reset(m);
    if ret != 0 { return; }
    ret, rspLen, msg, drained := SendCmd(m, cmd, len, rsp);
    if ret == 0 {
      ValidateAccepts(cmd, rsp[..], rspLen);
      if m.honest && len >= HDR_LEN && Commands(m.posted) {
        Current(m.posted, cmd, len, rsp[..], msg);
      }
    }
  }

  lemma Current(posted: seq<Msg>, cmd: Msg, len: nat, rsp: Msg, msg: Msg)
    requires Commands(posted) && |cmd| == |rsp| == WINDOW && CheckLen(len) == 0 && len >= HDR_LEN
    requires posted != [] && posted[|posted| - 1] == cmd[..len / 4]
    requires exists k :: 0 <= k < |posted| && Answers(posted[k], msg)
    requires 1 <= |msg| <= WINDOW && rsp[..|msg|] == msg && Validate(cmd, rsp, 4 * |msg|) == 0
    ensures Matches(cmd, rsp, 4 * |msg|) && Answers(cmd[..len / 4], msg)
    ensures forall k :: 0 <= k < |posted| && Answers(posted[k], msg) ==> SameCommand(posted[k], cmd)
  {
    hide Commands, SameCommand, Answers, Matches;
    Shortened(cmd, len / 4, rsp, msg);
    forall k | 0 <= k < |posted| && Answers(posted[k], msg)
      ensures SameCommand(posted[k], cmd) && Answers(posted[|posted| - 1], msg) && Matches(cmd, rsp, 4 * |msg|)
    {
      AcceptedIsCurrent(posted, rsp, msg, k);
      SameAnswer(posted[k], posted[|posted| - 1], cmd, msg);
    }
  }

  lemma SameAnswer(a: Msg, b: Msg, c: Msg, msg: Msg)
    requires SameCommand(a, b) && SameCommand(b, c)
    ensures Answers(a, msg) <==> Answers(b, msg)
    ensures SameCommand(a, c)
  {
    assert a[..4][1] == b[..4][1] && a[..4][3] == b[..4][3];
  }

  lemma Shortened(cmd: Msg, n: nat, rsp: Msg, msg: Msg)
    requires 4 <= n <= |cmd| && |rsp| == WINDOW
    ensures SameCommand(cmd[..n], cmd)
    ensures Validate(cmd[..n], rsp, 4 * |msg|) == Validate(cmd, rsp, 4 * |msg|)
    ensures Matches(cmd[..n], rsp, 4 * |msg|) == Matches(cmd, rsp, 4 * |msg|)
  {
    assert cmd[..n][..4] == cmd[..4];
  }
}
