/** The mailbox hardware: an auto-incrementing register window for each direction, event
    bits, and a device at the other end that acts on its own and may answer late. */
module MboxHal {
  import opened Bits

  const FPGA_MBOX_MSG_DATA_LEN: nat := 4096
  const WINDOW: nat := 1024
  const FPGA_ERR_AFI_CMD_MALFORMED: int := 21
  const EAGAIN: int := 11
  const ETIMEDOUT: int := 110

  /** A message, in 32-bit words. */
  type Msg = seq<u32>

  /** Registers of the mailbox. rx: a response waits; tx: the last command was taken. */
  datatype Regs = Regs(rx: bool, tx: bool, wrIndex: nat, wr: Msg, wrLen: u32, rdIndex: nat, rd: Msg, rdLen: u32)

  /** What the device may do between two accesses of the host. It never touches the
      command window, and leaves a response alone until it was acknowledged. */
  ghost predicate Peer(a: Regs, b: Regs) {
    && b.wrIndex == a.wrIndex && b.wr == a.wr && b.wrLen == a.wrLen && b.rdIndex == a.rdIndex
    && (a.tx ==> b.tx) && |b.rd| == |a.rd|
    && (a.rx ==> b.rx && b.rd == a.rd && b.rdLen == a.rdLen)
  }

  /** An answer of a well-behaved device: the id is copied, the response flag is set, and
      it is either of the command's kind or an error with a code other than zero. */
  predicate Answers(cmd: Msg, rsp: Msg) {
    && |cmd| >= 4 && |rsp| >= 4
    && rsp[3] == cmd[3] && rsp[2] / 0x100_0000 % 2 == 1
    && (rsp[1] == cmd[1] || (rsp[1] == 0 && |rsp| >= 5 && rsp[4] != 0))
  }

  /** The response that waits, if any, answers some command that was posted. */
  predicate Waiting(r: Regs, posted: seq<Msg>) {
    r.rx ==> r.rdLen <= |r.rd| && exists k :: 0 <= k < |posted| && Answers(posted[k], r.rd[..r.rdLen])
  }

  /** fpga_hal_mbox_check_len */
  function CheckLen(len: nat): int {
    if len < 4 || len % 4 != 0 || len > FPGA_MBOX_MSG_DATA_LEN then FPGA_ERR_AFI_CMD_MALFORMED else 0
  }

  class Mailbox {
    const honest: bool             // is the device known to answer only what was asked?
    const timeout: nat
    var r: Regs
    var shVersion: u32
    var posted: seq<Msg>           // commands handed to the device, oldest first
    ghost var statusReads: nat
    ghost var acks: nat            // attempts to acknowledge a response

    constructor (honest: bool, timeout: nat, r: Regs, shVersion: u32)
      requires |r.wr| == |r.rd| == WINDOW && (honest ==> !r.rx)
      ensures Valid() && this.honest == honest && this.timeout == timeout && posted == []
      ensures statusReads == acks == 0
    {
      this.honest, this.timeout, this.r, this.shVersion := honest, timeout, r, shVersion;
      posted, statusReads, acks := [], 0, 0;
    }

    ghost predicate Valid()
      reads this
    {
      |r.wr| == |r.rd| == WINDOW && (honest ==> Waiting(r, posted))
    }

    /** The device acts. */
    method Act()
      requires Valid()
      modifies this`r, this`shVersion
      ensures Valid() && Peer(old(r), r)
    {
      shVersion := *;
      var took: bool := *;
      if took { r := r.(tx := true); }
      var rd: Msg := *;
      var rdLen: u32 := *;
      var deposit: bool := *;
      if deposit && !r.rx && |rd| == WINDOW {
        var next := r.(rx := true, rd := rd, rdLen := rdLen);
        if !honest || Waiting(next, posted) { r := next; }
      }
    }

    // ---- Register accesses: the device acts, then the access takes effect or fails ----

    method PeekStatus() returns (ret: int, rx: bool, tx: bool)
      requires Valid()
      modifies this`r, this`shVersion, this`statusReads
      ensures Valid() && Peer(old(r), r) && statusReads == old(statusReads) + 1
      ensures ret == 0 ==> rx == r.rx && tx == r.tx
    {
      Act();
      statusReads := statusReads + 1;
      ret, rx, tx := *, r.rx, r.tx;
    }

    method PeekRdLen() returns (ret: int, len: u32)
      requires Valid()
      modifies this`r, this`shVersion
      ensures Valid() && Peer(old(r), r) && (ret == 0 ==> len == r.rdLen)
    {
      Act();
      ret, len := *, r.rdLen;
    }

    method PeekShVersion() returns (ret: int, version: u32)
      requires Valid()
      modifies this`r, this`shVersion
      ensures Valid() && Peer(old(r), r) && (ret == 0 ==> version == shVersion)
    {
      Act();
      ret, version := *, shVersion;
    }

    /** Reading the data register takes the word at the read index and moves the index on. */
    method PeekRdData() returns (ret: int, word: u32)
      requires Valid()
      modifies this`r, this`shVersion
      ensures Valid()
      ensures exists m :: Peer(old(r), m) && r == if ret == 0 then m.(rdIndex := m.rdIndex + 1) else m
      ensures ret == 0 && old(r.rdIndex) < WINDOW ==> word == r.rd[old(r.rdIndex)]
    {
      Act();
      word := 0;
      ret := *;
      if ret == 0 {
        if r.rdIndex < WINDOW { word := r.rd[r.rdIndex]; }
        r := r.(rdIndex := r.rdIndex + 1);
      }
    }

    method PokeRdIndex() returns (ret: int)
      requires Valid()
      modifies this`r, this`shVersion
      ensures Valid()
      ensures exists m :: Peer(old(r), m) && r == if ret == 0 then m.(rdIndex := 0) else m
    {
      Act();
      ret := *;
      if ret == 0 { r := r.(rdIndex := 0); }
    }

    method PokeWrIndex() returns (ret: int)
      requires Valid()
      modifies this`r, this`shVersion
      ensures Valid()
      ensures exists m :: Peer(old(r), m) && r == if ret == 0 then m.(wrIndex := 0) else m
    {
      Act();
      ret := *;
      if ret == 0 { r := r.(wrIndex := 0); }
    }

    /** Writing the data register stores at the write index and moves the index on. */
    method PokeWrData(word: u32) returns (ret: int)
      requires Valid() && r.wrIndex < WINDOW
      modifies this`r, this`shVersion
      ensures Valid()
      ensures exists m :: Peer(old(r), m) &&
                r == if ret == 0 then m.(wr := m.wr[m.wrIndex := word], wrIndex := m.wrIndex + 1) else m
    {
      Act();
      ret := *;
      if ret == 0 { r := r.(wr := r.wr[r.wrIndex := word], wrIndex := r.wrIndex + 1); }
    }

    /** Writing the length hands the command over. */
    method PokeWrLen(len: u32) returns (ret: int)
      requires Valid() && len <= WINDOW
      modifies this`r, this`shVersion, this`posted
      ensures Valid()
      ensures exists m :: Peer(old(r), m) && r == if ret == 0 then m.(wrLen := len) else m
      ensures posted == if ret == 0 then old(posted) + [r.wr[..len]] else old(posted)
    {
      Act();
      ret := *;
      if ret == 0 {
        ghost var before := posted;
        r := r.(wrLen := len);
        posted := posted + [r.wr[..len]];
        StillWaiting(r, before, posted);
      }
    }

    /** Acknowledging clears the event bit. */
    method AckRx() returns (ret: int)
      requires Valid()
      modifies this`r, this`shVersion, this`acks
      ensures Valid() && acks == old(acks) + 1
      ensures exists m :: Peer(old(r), m) && r == if ret == 0 then m.(rx := false) else m
    {
      Act();
      acks := acks + 1;
      ret := *;
      if ret == 0 { r := r.(rx := false); }
    }

    method AckTx() returns (ret: int)
      requires Valid()
      modifies this`r, this`shVersion
      ensures Valid()
      ensures exists m :: Peer(old(r), m) && r == if ret == 0 then m.(tx := false) else m
    {
      Act();
      ret := *;
      if ret == 0 { r := r.(tx := false); }
    }
  }

  lemma StillWaiting(r: Regs, before: seq<Msg>, after: seq<Msg>)
    requires before <= after
    ensures Waiting(r, before) ==> Waiting(r, after)
  {
  }
}
