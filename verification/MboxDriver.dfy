/** The host's side of the mailbox: asynchronous and bounded synchronous transfers. */
module MboxDriver {
  import opened Bits
  import opened MboxHal

  /** A response that was taken out of the window as it stood when the event was seen. */
  ghost predicate Taken(before: Regs, msg: Msg, honest: bool, posted: seq<Msg>) {
    && 1 <= |msg| <= WINDOW
    && (exists seen :: Peer(before, seen) && seen.rx && seen.rdLen == |msg| <= |seen.rd| && msg == seen.rd[..|msg|])
    && (honest ==> exists k :: 0 <= k < |posted| && Answers(posted[k], msg))
  }

  /** fpga_hal_mbox_reset: acknowledge whatever events are pending. */
  method Reset(m: Mailbox) returns (ret: int, ghost at: Regs)
    requires m.Valid()
    modifies m`r, m`shVersion, m`statusReads, m`acks
    ensures m.Valid() && m.statusReads == old(m.statusReads) + 1
    ensures ret == 0 || ret == -1
    ensures ret == 0 ==>
              && Peer(old(m.r), at) && m.acks == old(m.acks) + (if at.rx then 1 else 0)
              && (at.tx ==> !m.r.tx) && (at.rx && !at.tx ==> !m.r.rx)
    ensures m.r.wr == old(m.r.wr) && m.r.wrLen == old(m.r.wrLen)
  {
    var rx, tx;
    ret, rx, tx := m.PeekStatus();
    at := m.r;
    if ret != 0 { return -1, at; }
    if rx {
      ret := m.AckRx();
      if ret != 0 { return -1, at; }
    }
    if tx {
      ret := m.AckTx();
      if ret != 0 { return -1, at; }
    }
    ret := 0;
  }

  /** fpga_hal_mbox_read_async. `seen` records whether a response event was seen: every
      exit after that has tried to acknowledge it, every other exit has not. The length is
      written only on success. */
  method ReadAsync(m: Mailbox, buf: array<u32>, lenIn: nat) returns (ret: int, len: nat, ghost seen: bool, ghost msg: Msg)
    requires m.Valid() && buf.Length == WINDOW
    modifies m`r, m`shVersion, m`statusReads, m`acks, buf
    ensures m.Valid() && m.statusReads == old(m.statusReads) + 1
    ensures m.acks == old(m.acks) + if seen then 1 else 0
    ensures !seen ==> buf[..] == old(buf[..]) && ret != 0
    ensures ret != 0 ==> len == lenIn
    ensures ret == 0 ==> Taken(old(m.r), msg, m.honest, m.posted) && len == 4 * |msg| && buf[..] == msg + old(buf[..])[|msg|..]
    ensures m.r.wr == old(m.r.wr) && m.r.wrLen == old(m.r.wrLen)
  {
    len, seen, msg := lenIn, false, [];
    var rx, tx, rdLen;
    ret, rx, tx := m.PeekStatus();
    if ret != 0 { return; }
    if !rx { ret := -EAGAIN; return; }
    seen := true;
    ghost var s := m.r;
    ret, rdLen := m.PeekRdLen();
    if ret == 0 {
      ret := if rdLen > FPGA_MBOX_MSG_DATA_LEN / 4 then FPGA_ERR_AFI_CMD_MALFORMED else CheckLen(rdLen * 4);
    }
    if ret == 0 { ret := FetchWords(m, buf, rdLen); }
    if ret != 0 {
      var ret2 := m.AckRx();
      return;
    }
    msg := s.rd[..rdLen];
    TakenIs(old(m.r), s, msg, m.honest, m.posted);
    ret := m.AckRx();
    if ret == 0 { len := 4 * rdLen; }
  }

  /** Rewind the read index, then read n words. */
  method FetchWords(m: Mailbox, buf: array<u32>, n: u32) returns (ret: int)
    requires m.Valid() && buf.Length == WINDOW && m.r.rx && n == m.r.rdLen <= WINDOW
    modifies m`r, m`shVersion, buf
    ensures m.Valid() && m.r.rx && m.r.rd == old(m.r.rd) && m.r.rdLen == old(m.r.rdLen)
    ensures ret == 0 ==> buf[..] == m.r.rd[..n] + old(buf[..])[n..]
    ensures m.r.wr == old(m.r.wr) && m.r.wrLen == old(m.r.wrLen)
  {
    ret := m.PokeRdIndex();
    if ret != 0 { return; }
    ghost var tail := buf[..];
    var i := 0;
    while i < n
      invariant 0 <= i <= n && m.Valid() && m.r.rx && m.r.rd == old(m.r.rd) && m.r.rdLen == old(m.r.rdLen)
      invariant m.r.rdIndex == i && buf[..i] == m.r.rd[..i] && buf[i..] == tail[i..]
      invariant m.r.wr == old(m.r.wr) && m.r.wrLen == old(m.r.wrLen)
    {
      var word;
      ret, word := m.PeekRdData();
      if ret != 0 { return; }
      buf[i] := word;
      i := i + 1;
    }
    assert buf[..] == buf[..n] + buf[n..];
    ret := 0;
  }

  lemma TakenIs(before: Regs, seen: Regs, msg: Msg, honest: bool, posted: seq<Msg>)
    requires Peer(before, seen) && seen.rx && 1 <= seen.rdLen == |msg| <= WINDOW == |seen.rd| && msg == seen.rd[..|msg|]
    requires honest ==> Waiting(seen, posted)
    ensures Taken(before, msg, honest, posted)
  {
  }

  /** fpga_hal_mbox_write_async_tc_ack: test and clear the transmit event. */
  method TcAck(m: Mailbox) returns (ret: int, ack: bool, ghost at: Regs)
    requires m.Valid()
    modifies m`r, m`shVersion, m`statusReads
    ensures m.Valid() && m.statusReads == old(m.statusReads) + 1
    ensures m.r.wr == old(m.r.wr) && m.r.wrLen == old(m.r.wrLen) && ret in {0, -1}
    ensures ret == 0 ==> Peer(old(m.r), at) && ack == at.tx && (ack ==> !m.r.tx)
  {
    var rx, tx;
    ack := false;
    ret, rx, tx := m.PeekStatus();
    at := m.r;
    if ret != 0 { return -1, false, at; }
    if tx {
      ret := m.AckTx();
      if ret != 0 { return -1, false, at; }
      ack := true;
    }
    ret := 0;
  }

  /** fpga_hal_mbox_write_async: the command goes into the window from its start, then
      its length hands it over. */
  method WriteAsync(m: Mailbox, cmd: Msg, len: nat) returns (ret: int)
    requires m.Valid() && |cmd| == WINDOW
    modifies m`r, m`shVersion, m`statusReads, m`posted
    ensures m.Valid()
    ensures CheckLen(len) != 0 ==> ret == FPGA_ERR_AFI_CMD_MALFORMED && m.statusReads == old(m.statusReads)
    ensures m.statusReads <= old(m.statusReads) + 1
    ensures ret != 0 ==> m.posted == old(m.posted)
    ensures ret == 0 ==> CheckLen(len) == 0 && m.posted == old(m.posted) + [cmd[..len / 4]]
    ensures ret == 0 ==> m.r.wr[..len / 4] == cmd[..len / 4] && m.r.wrLen == len / 4
  {
    ret := CheckLen(len);
    if ret != 0 { return; }
    var ack;
    ghost var at;
    ret, ack, at := TcAck(m);
    if ret != 0 { return; }
    ret := m.PokeWrIndex();
    if ret != 0 { return; }
    var n := len / 4;
    var i := 0;
    while i < n
      invariant 0 <= i <= n <= WINDOW && m.Valid() && m.posted == old(m.posted)
      invariant m.r.wrIndex == i && m.r.wr[..i] == cmd[..i]
      invariant m.statusReads == old(m.statusReads) + 1
    {
      ret := m.PokeWrData(cmd[i]);
      if ret != 0 { return; }
      i := i + 1;
    }
    ret := m.PokeWrLen(n);
  }

  /** fpga_hal_mbox_read: retry while there is nothing to read. */
  method Read(m: Mailbox, buf: array<u32>, lenIn: nat) returns (ret: int, len: nat, ghost msg: Msg, ghost at: Regs)
    requires m.Valid() && buf.Length == WINDOW
    modifies m`r, m`shVersion, m`statusReads, m`acks, buf
    ensures m.Valid() && m.statusReads <= old(m.statusReads) + m.timeout
    ensures ret == 0 ==>
              Taken(at, msg, m.honest, m.posted) && len == 4 * |msg| && |buf[..]| == WINDOW && buf[..|msg|] == msg
    ensures ret != 0 ==> len == lenIn
    ensures m.r.wr == old(m.r.wr) && m.r.wrLen == old(m.r.wrLen)
  {
    hide Taken, Mailbox.Valid;
    var count := m.timeout;
    len, msg, at := lenIn, [], m.r;
    while count > 0
      invariant 0 <= count <= m.timeout && m.Valid() && len == lenIn
      invariant m.statusReads <= old(m.statusReads) + (m.timeout - count)
      invariant m.r.wr == old(m.r.wr) && m.r.wrLen == old(m.r.wrLen)
    {
      ghost var seen;
      at := m.r;
      ret, len, seen, msg := ReadAsync(m, buf, len);
      if ret == 0 { return; }
      if ret != -EAGAIN { return; }
      count := count - 1;
    }
    ret := -ETIMEDOUT;
  }

  /** fpga_hal_mbox_write: post, then wait until the device took the command. */
  method Write(m: Mailbox, cmd: Msg, len: nat) returns (ret: int, ghost at: Regs)
    requires m.Valid() && |cmd| == WINDOW
    modifies m`r, m`shVersion, m`statusReads, m`posted
    ensures m.Valid() && m.statusReads <= old(m.statusReads) + 1 + m.timeout
    ensures m.posted == old(m.posted) || (CheckLen(len) == 0 && m.posted == old(m.posted) + [cmd[..len / 4]])
    ensures ret == 0 ==> CheckLen(len) == 0 && m.posted == old(m.posted) + [cmd[..len / 4]]
    ensures ret == 0 ==> |at.wr| == WINDOW && at.tx && at.wr[..len / 4] == cmd[..len / 4] && at.wrLen == len / 4
  {
    ret := WriteAsync(m, cmd, len);
    at := m.r;
    if ret != 0 { return; }
    var count := m.timeout;
    while count > 0
      invariant 0 <= count <= m.timeout && m.Valid() && m.posted == old(m.posted) + [cmd[..len / 4]]
      invariant m.statusReads <= old(m.statusReads) + 1 + (m.timeout - count)
      invariant m.r.wr[..len / 4] == cmd[..len / 4] && m.r.wrLen == len / 4
    {
      var ack;
      ret, ack, at := TcAck(m);
      if ret != 0 { return; }
      if ack { return 0, at; }
      count := count - 1;
    }
    ret := -ETIMEDOUT;
  }

  /** Transport round trip: a device that echoes the command window, as it stands after a
      write, hands back word for word what was written. */
  method EchoRoundTrip(m: Mailbox, cmd: Msg, len: nat, buf: array<u32>) returns (wrote: int, ret: int, got: nat)
    requires m.Valid() && |cmd| == WINDOW && buf.Length == WINDOW && !m.honest
    modifies m, buf
    ensures CheckLen(len) != 0 ==> wrote != 0
    ensures wrote == 0 && ret == 0 ==> got == len && buf[..got / 4] == cmd[..len / 4]
  {
    ret, got := -1, 0;
    wrote := WriteAsync(m, cmd, len);
    if wrote != 0 { return; }
    m.r := m.r.(rd := m.r.wr, rdLen := m.r.wrLen, rx := true);
    ghost var seen, msg;
    ret, got, seen, msg := ReadAsync(m, buf, len);
  }
}
