/** Synchronous load and clear: start the operation, poll until it ends, expose the new
    device to the operating system if need be, and only then report the image. */
module MgmtSync {
  import opened Bits
  import opened MboxHal
  import opened MboxCmd
  import opened MgmtImage

  /** The calls into the PCI library that the operations make. */
  class Pci {
    ghost var rescans: nat   // attempts to remove and rescan the application functions

    constructor ()
      ensures rescans == 0
    {
      rescans := 0;
    }

    /** fpga_pci_get_resource_map of the application function */
    method AppMap() returns (ret: int, dev: DevIds)
    {
      ret, dev := *, *;
    }

    /** fpga_pci_rescan_slot_app_pfs */
    method Rescan() returns (ret: int)
      modifies this
      ensures rescans == old(rescans) + 1
    {
      rescans := rescans + 1;
      ret := *;
    }

    method SlotSpec() returns (ret: int, spec: nat)
    {
      ret, spec := *, 0;
    }
  }

  /** What is known after the polls: was the new shell version read, and which is it? */
  datatype Shell = Unknown | Version(sh: u32)

  /** Is the device that sysfs shows no longer the one that is there? */
  predicate Changed(shell: Shell, prev: u32, dev: DevIds, sysfs: DevIds) {
    shell.Version? && (shell.sh != prev || dev != sysfs)
  }

  /** The last part of both operations. */
  method Finish(m: Mailbox, pci: Pci, slotId: int, prev: u32, sysfs: DevIds, tmp: ImageInfo, info: ImageInfo?)
    returns (ret: int, ghost shell: Shell)
    requires m.Valid() && tmp != info
    modifies m`r, m`shVersion, m`statusReads, m`acks, pci, tmp`spec, info
    ensures m.Valid()
    ensures pci.rescans == old(pci.rescans) + if Changed(shell, prev, tmp.dev, sysfs) then 1 else 0
    ensures ret != 0 && info != null ==> unchanged(info)
    ensures ret == 0 ==> shell.Version?
    ensures shell.Version? ==> shell.sh == m.shVersion
    ensures ret == 0 && info != null ==> Copied(info, tmp)
  {
    hide Mailbox.Valid;
    shell := Unknown;
    var version;
    ret, version := GetShVersion(m, slotId);
    if ret != 0 { return; }
    shell := Version(version);
    if version != prev || tmp.dev != sysfs {
      ret := pci.Rescan();
      if ret != 0 { return; }
    }
    var spec;
    ret, spec := pci.SlotSpec();
    if ret != 0 { return; }
    tmp.spec := spec;
    if info != null { info.CopyFrom(tmp); }
  }

  ghost predicate Copied(info: ImageInfo, tmp: ImageInfo)
    reads info, tmp
  {
    && info.status == tmp.status && info.statusQ == tmp.statusQ && info.afiId == tmp.afiId && info.dev == tmp.dev
    && info.shVersion == tmp.shVersion && info.spec == tmp.spec
  }

  function Max(a: nat, b: nat): nat { if a > b then a else b }

  predicate Unsupported(flags: nat) { flags / 0x8 % 4 != 0 || flags / 0x40 % 2 != 0 }
  predicate Prefetch(flags: nat) { flags / CMD_PREFETCH % 2 == 1 }

  /** What there is to know about a finished operation: the polls it made and how they
      ended, the code of its last part, the shell version before and after, the PCI ids
      of sysfs and those of the image. */
  datatype Report = Report(polls: seq<Poll>, ending: Ending, late: int, prev: u32, shell: Shell, sysfs: DevIds, dev: DevIds)

  const NOTHING: Report := Report([], NotStarted, 0, 0, Unknown, DevIds(0, 0, 0, 0), DevIds(0, 0, 0, 0))

  /** The result code, by the way the operation ended. */
  ghost predicate CodeFits(ret: int, rep: Report) {
    match rep.ending
    case NotStarted => ret != 0 && rep.polls == []
    case Reached => ret == rep.late
    case WrongImage => ret == FPGA_ERR_FAIL
    case TimedOut => ret == -ETIMEDOUT
    case Refused => ret == LastQ(rep.polls)
  }

  ghost predicate Outcome(ret: int, rep: Report, wanted: int, image: seq<u8>, checked: bool, timeout: nat) {
    && |rep.polls| <= Max(timeout, SYNC_TIMEOUT) + 1
    && (!rep.ending.NotStarted? ==> Ended(rep.polls, wanted, Id64(image), checked, Max(timeout, SYNC_TIMEOUT), rep.ending))
    && (!rep.ending.Reached? ==> rep.shell.Unknown?)
    && CodeFits(ret, rep)
  }

  /** The caller's structure afterwards: filled in only after the image was seen and all
      the rest succeeded, and then with what the last poll saw. */
  twostate predicate Reported(info: ImageInfo?, rep: Report, wanted: int, image: seq<u8>, checked: bool)
    reads info
  {
    info != null ==>
      if rep.ending.Reached? && rep.late == 0 then
        info.status == wanted && info.dev == rep.dev && (checked ==> Id64(info.afiId) == Id64(image))
      else unchanged(info)
  }

  /** Return code 0 means that the wanted image is there, except when the last poll was
      refused or failed and the status qualifier read last, if any, was 0. */
  lemma ZeroMeansReached(ret: int, rep: Report, wanted: int, image: seq<u8>, checked: bool, timeout: nat)
    requires Outcome(ret, rep, wanted, image, checked, timeout)
    ensures ret == 0 <==> (rep.ending.Reached? && rep.late == 0) || (rep.ending.Refused? && LastQ(rep.polls) == 0)
  {
  }

  /** The qualifier read last: 0 exactly if no poll stored one, or the last that did
      stored 0. */
  lemma {:induction false} LastQZero(polls: seq<Poll>)
    ensures LastQ(polls) == 0 <==>
              forall i :: 0 <= i < |polls| && polls[i].stored && (forall j :: i < j < |polls| ==> !polls[j].stored)
                          ==> polls[i].statusQ == 0
    decreases |polls|
  {
    if polls != [] && !polls[|polls| - 1].stored {
      var front := polls[..|polls| - 1];
      LastQZero(front);
      assert forall i :: 0 <= i < |front| ==> front[i] == polls[i];
    }
  }

  /** The exception, for all operations: one that a poll without any stored status ends
      returns 0. */
  lemma ZeroWithoutImage(ret: int, rep: Report, wanted: int, image: seq<u8>, checked: bool, timeout: nat)
    requires Outcome(ret, rep, wanted, image, checked, timeout) && rep.ending.Refused?
    requires forall i :: 0 <= i < |rep.polls| ==> !rep.polls[i].stored
    ensures ret == 0
  {
    LastQZero(rep.polls);
  }

  /** Such an outcome exists whatever the timeout: the first poll fails. */
  lemma FirstPollFails(timeout: nat)
    ensures var rep := NOTHING.(polls := [Poll(-ETIMEDOUT, 0, 0, [], false)], ending := Refused);
            Outcome(0, rep, STATUS_LOADED, [], true, timeout) && !rep.polls[0].stored
  {
    var polls := [Poll(-ETIMEDOUT, 0, 0, [], false)];
    assert polls[..0] == [];
    assert LastQ(polls) == LastQ([]) == 0;
  }

  /** The command was handed to the device, and perhaps others after it. */
  ghost predicate Sent(before: seq<Msg>, after: seq<Msg>, op: u32, body: Msg)
    requires |body| <= 1000
  {
    exists id: u32 :: before + [Command(op, id, body)[..4 + |body|]] <= after
  }

  lemma SentMore(before: seq<Msg>, mid: seq<Msg>, after: seq<Msg>, op: u32, body: Msg)
    requires |body| <= 1000 && Sent(before, mid, op, body) && mid <= after
    ensures Sent(before, after, op, body)
  {
    var id: u32 :| before + [Command(op, id, body)[..4 + |body|]] <= mid;
    assert before + [Command(op, id, body)[..4 + |body|]] <= after;
  }

  /** The first part of both operations: shell version and PCI ids as they are now, then
      the command itself. */
  method Begin(m: Mailbox, ids: CommandIds, pci: Pci, slotId: int, op: u32, body: Msg)
    returns (ret: int, prev: u32, sysfs: DevIds)
    requires m.Valid() && ids.Valid() && InStep(m, ids) && |body| <= 1000 && op != AFI_CMD_ERROR
    modifies m`r, m`shVersion, m`statusReads, m`acks, m`posted, ids
    ensures m.Valid() && ids.Valid() && InStep(m, ids) && (old(ids.wrapped) ==> ids.wrapped)
    ensures !ids.wrapped ==> old(ids.given) <= ids.given
    ensures slotId < 0 || slotId >= FPGA_SLOT_MAX ==> ret != 0
    ensures ret == 0 ==> Sent(old(m.posted), m.posted, op, body)
  {
    hide Mailbox.Valid, Matches, HollowError, Accepted, Answers, Command, Record, Own;
    prev, sysfs := 0, DevIds(0, 0, 0, 0);
    ret, prev := GetShVersion(m, slotId);
    if ret != 0 { return; }
    ret, sysfs := pci.AppMap();
    if ret != 0 { return; }
    if slotId < 0 || slotId >= FPGA_SLOT_MAX { return -EINVAL, prev, sysfs; }
    var id, cmd := Start(m, ids, op, body);
    ghost var before := m.posted;
    var rsp := new u32[WINDOW](i => 0);
    var rspLen;
    ghost var msg, drained;
    ret, rspLen, msg, drained := ProcessCmd(m, true, cmd, CommandLen(body), rsp);
    if m.honest && !ids.wrapped { Exchanged(before, m.posted, ids.given, cmd, CommandLen(body)); }
    assert CommandLen(body) / 4 == 4 + |body|;
  }

  /** The image that was seen is what the device answered to a describe command of this very
      call, and to no other command on record; and that is what the caller gets. */
  ghost predicate Seen(info: ImageInfo?, posted: seq<Msg>, before: seq<u32>, ret: int)
    reads info
  {
    exists id: u32, metrics: Metrics ::
      id !in before && Replied(metrics, posted, id) && (info != null && ret == 0 ==> Described(info, metrics, 0))
  }

  lemma SeenFor(info: ImageInfo?, tmp: ImageInfo, posted: seq<Msg>, before: seq<u32>, ret: int, id: u32, metrics: Metrics)
    requires id !in before && Replied(metrics, posted, id) && Described(tmp, metrics, 0)
    requires info != null && ret == 0 ==> Copied(info, tmp)
    ensures Seen(info, posted, before, ret)
  {
  }

  /** The polling and the last part, for either operation. */
  method Complete(m: Mailbox, ids: CommandIds, pci: Pci, slotId: int, op: u32, body: Msg, wanted: int, checked: bool,
                  image: seq<u8>, timeout: nat, info: ImageInfo?)
    returns (ret: int, ghost rep: Report)
    requires m.Valid() && ids.Valid() && InStep(m, ids) && |body| <= 1000 && op != AFI_CMD_ERROR
    requires wanted != STATUS_BUSY && wanted != STATUS_END
    modifies m`r, m`shVersion, m`statusReads, m`acks, m`posted, ids, pci, info
    ensures m.Valid() && ids.Valid() && InStep(m, ids) && (old(ids.wrapped) ==> ids.wrapped)
    ensures Outcome(ret, rep, wanted, image, checked, timeout)
    ensures slotId < 0 || slotId >= FPGA_SLOT_MAX ==> rep.ending.NotStarted?
    ensures !rep.ending.NotStarted? ==> Sent(old(m.posted), m.posted, op, body)
    ensures Reported(info, rep, wanted, image, checked)
    ensures rep.ending.Reached? && m.honest && !ids.wrapped ==> Seen(info, m.posted, old(ids.given), ret)
    ensures pci.rescans == old(pci.rescans) + if Changed(rep.shell, rep.prev, rep.dev, rep.sysfs) then 1 else 0
  {
    hide Mailbox.Valid, CommandIds.Valid, Ended, LastQ, Record, Replied;
    rep := NOTHING;
    var tmp := new ImageInfo();
    var prev, sysfs, done;
    ret, prev, sysfs := Begin(m, ids, pci, slotId, op, body);
    if ret != 0 { return; }
    ghost var polls, ending, mid, given := [], NotStarted, m.posted, ids.given;
    ret, done, polls, ending := Await(m, ids, slotId, tmp, wanted, checked, image, Max(timeout, SYNC_TIMEOUT));
    SentMore(old(m.posted), mid, m.posted, op, body);
    EndedBound(polls, wanted, Id64(image), checked, Max(timeout, SYNC_TIMEOUT), ending);
    rep := Report(polls, ending, 0, prev, Unknown, sysfs, tmp.dev);
    if !done { return; }
    ghost var id: u32, metrics: Metrics := 0, Metrics([], DevIds(0, 0, 0, 0), 0, 0);
    if m.honest && !ids.wrapped {
      id, metrics :| id !in given && Replied(metrics, m.posted, id) && Described(tmp, metrics, 0);
    }
    ghost var shell;
    ret, shell := Finish(m, pci, slotId, prev, sysfs, tmp, info);
    rep := rep.(late := ret, shell := shell);
    if m.honest && !ids.wrapped { SeenFor(info, tmp, m.posted, old(ids.given), ret, id, metrics); }
  }

  lemma EndedBound(polls: seq<Poll>, wanted: int, image: seq<u8>, checked: bool, limit: nat, ending: Ending)
    requires Ended(polls, wanted, image, checked, limit, ending)
    ensures |polls| <= limit + 1 && !ending.NotStarted?
  {
  }

  /** fpga_mgmt_load_local_image_sync_with_options */
  method LoadSync(m: Mailbox, ids: CommandIds, pci: Pci, initialized: bool, slotId: int, afiId: seq<u8>, flags: u32,
                  mains: seq<u32>, timeout: nat, info: ImageInfo?)
    returns (ret: int, ghost rep: Report)
    requires m.Valid() && ids.Valid() && InStep(m, ids) && |mains| == FPGA_MMCM_GROUP_MAX
    modifies m`r, m`shVersion, m`statusReads, m`acks, m`posted, ids, pci, info
    ensures m.Valid() && ids.Valid() && InStep(m, ids) && (old(ids.wrapped) ==> ids.wrapped)
    ensures Outcome(ret, rep, STATUS_LOADED, afiId, !Prefetch(flags), timeout)
    ensures !initialized || Unsupported(flags) || slotId < 0 || slotId >= FPGA_SLOT_MAX ==> rep.ending.NotStarted?
    ensures !rep.ending.NotStarted? ==> Sent(old(m.posted), m.posted, AFI_CMD_LOAD, LoadBody(afiId, flags, mains))
    ensures Reported(info, rep, STATUS_LOADED, afiId, !Prefetch(flags))
    ensures rep.ending.Reached? && m.honest && !ids.wrapped ==> Seen(info, m.posted, old(ids.given), ret)
    ensures pci.rescans == old(pci.rescans) + if Changed(rep.shell, rep.prev, rep.dev, rep.sysfs) then 1 else 0
  {
    hide Mailbox.Valid, CommandIds.Valid, Ended, Prefetch, Unsupported, InStep, Seen, LoadBody;
    rep := NOTHING;
    if !initialized { return FPGA_ERR_SOFTWARE_PROBLEM, rep; }
    if Unsupported(flags) { return FPGA_ERR_SOFTWARE_PROBLEM, rep; }
    if slotId >= FPGA_SLOT_MAX { return -EINVAL, rep; }
    var body := LoadBody(afiId, flags, mains);
    ret, rep := Complete(m, ids, pci, slotId, AFI_CMD_LOAD, body, STATUS_LOADED, !Prefetch(flags), afiId, timeout, info);
  }

  /** fpga_mgmt_clear_local_image_sync */
  method ClearSync(m: Mailbox, ids: CommandIds, pci: Pci, initialized: bool, slotId: int, timeout: nat, info: ImageInfo?)
    returns (ret: int, ghost rep: Report)
    requires m.Valid() && ids.Valid() && InStep(m, ids)
    modifies m`r, m`shVersion, m`statusReads, m`acks, m`posted, ids, pci, info
    ensures m.Valid() && ids.Valid() && InStep(m, ids) && (old(ids.wrapped) ==> ids.wrapped)
    ensures Outcome(ret, rep, STATUS_CLEARED, [], false, timeout)
    ensures !initialized || slotId < 0 || slotId >= FPGA_SLOT_MAX ==> rep.ending.NotStarted?
    ensures !rep.ending.NotStarted? ==> Sent(old(m.posted), m.posted, AFI_CMD_CLEAR, [0])
    ensures Reported(info, rep, STATUS_CLEARED, [], false)
    ensures rep.ending.Reached? && m.honest && !ids.wrapped ==> Seen(info, m.posted, old(ids.given), ret)
    ensures pci.rescans == old(pci.rescans) + if Changed(rep.shell, rep.prev, rep.dev, rep.sysfs) then 1 else 0
  {
    hide Mailbox.Valid, CommandIds.Valid, Ended, InStep, Seen;
    rep := NOTHING;
    if !initialized { return FPGA_ERR_SOFTWARE_PROBLEM, rep; }
    if slotId >= FPGA_SLOT_MAX { return -EINVAL, rep; }
    ret, rep := Complete(m, ids, pci, slotId, AFI_CMD_CLEAR, [0], STATUS_CLEARED, false, [], timeout, info);
  }
}
