/**
 * The DesignWare HDMI QP bridge as the driver's objects: the register map
 * behind its three register helpers, the DDC/I2C adapter state, and the
 * bridge itself. Every method does what the driver's function does, step by
 * step, and is proved to end where the specification function of the same
 * name says: the same return value, the same register accesses in the same
 * order, the same engine, buffer and link state.
 */
module HdmiQp {
  import opened Bits
  import opened Registers
  import opened DdcI2c
  import opened DdcI2cLemmas
  import opened LoopSteps
  import opened Infoframes
  import opened Admission
  import opened Link

  /** The register map behind the driver's write, read and masked-update
      helpers, kept as the record of every access in order. The register
      values are the initial ones with that record applied (`Regs`), so each
      helper's effect on them is `Step` (lemma `ApplyAppend`). */
  class RegisterMap {
    const init: map<Reg, Word>
    /** Every access so far, in order. */
    var log: seq<Access>

    /** The current register values. */
    function Regs(): map<Reg, Word>
      reads this
    {
      Apply(init, log)
    }

    constructor (init: map<Reg, Word>)
      ensures this.init == init && log == [] && Regs() == init
    {
      this.init := init;
      log := [];
    }

    method WriteReg(r: Reg, v: Word)
      modifies this
      ensures log == old(log) + [Write(r, v)]
    {
      log := log + [Write(r, v)];
    }

    /** The masked update; the value comes before the mask. */
    method Mod(r: Reg, data: Word, mask: Word)
      modifies this
      ensures log == old(log) + [Update(r, data, mask)]
    {
      log := log + [Update(r, data, mask)];
    }

    /** A read; `hw` is what the hardware returns, and the register file
        takes it. */
    method ReadReg(r: Reg, hw: Word) returns (v: Word)
      modifies this
      ensures v == hw && log == old(log) + [Read(r, hw)]
    {
      log := log + [Read(r, hw)];
      v := hw;
    }
  }

  /** The state of the DDC/I2C adapter. */
  class I2c {
    var st: I2cState
    constructor ()
      ensures State() == I2cState(0, 0, false, false)
    {
      st := I2cState(0, 0, false, false);
    }
    function State(): I2cState
      reads this
    {
      st
    }
  }

  /** An I2C message whose buffer lives in memory. */
  datatype MsgBuf = MsgBuf(addr: Addr16, isRead: bool, buf: array<Byte>)

  /** The buffers of a list of messages. */
  function Buffers(msgs: seq<MsgBuf>): set<array<Byte>> {
    set i | 0 <= i < |msgs| :: msgs[i].buf
  }

  /** No two messages share a buffer. */
  predicate Disjoint(msgs: seq<MsgBuf>)
    decreases |msgs|
  {
    |msgs| == 0 || ((forall k | 1 <= k < |msgs| :: msgs[k].buf != msgs[0].buf) && Disjoint(msgs[1..]))
  }

  /** In messages that share no buffer, the i-th buffer is no other
      message's. */
  lemma {:induction false} DisjointAt(msgs: seq<MsgBuf>, i: nat, j: nat)
    requires Disjoint(msgs) && i < |msgs| && j < |msgs| && i != j
    ensures msgs[i].buf != msgs[j].buf
    decreases |msgs|
  {
    if i != 0 && j != 0 {
      DisjointAt(msgs[1..], i - 1, j - 1);
    }
  }

  lemma OthersDistinct(msgs: seq<MsgBuf>, i: nat)
    requires Disjoint(msgs) && i < |msgs|
    ensures forall j | 0 <= j < |msgs| && j != i :: msgs[j].buf != msgs[i].buf
  {
    forall j | 0 <= j < |msgs| && j != i
      ensures msgs[j].buf != msgs[i].buf
    {
      DisjointAt(msgs, j, i);
    }
  }

  /** The messages, with their buffers' current contents. */
  function Contents(msgs: seq<MsgBuf>): (r: seq<Msg>)
    reads Buffers(msgs)
    ensures |r| == |msgs|
    ensures forall i | 0 <= i < |msgs| :: r[i] == Msg(msgs[i].addr, msgs[i].isRead, msgs[i].buf[..])
  {
    seq(|msgs|, i requires 0 <= i < |msgs| reads Buffers(msgs) => Msg(msgs[i].addr, msgs[i].isRead, msgs[i].buf[..]))
  }

  /** The current contents of the messages' buffers. */
  function Snapshot(msgs: seq<MsgBuf>): (r: seq<seq<Byte>>)
    reads Buffers(msgs)
    ensures |r| == |msgs| && forall i | 0 <= i < |msgs| :: r[i] == msgs[i].buf[..]
  {
    seq(|msgs|, i requires 0 <= i < |msgs| reads Buffers(msgs) => msgs[i].buf[..])
  }

  lemma SnapshotContents(msgs: seq<MsgBuf>)
    ensures Snapshot(msgs) == Bufs(Contents(msgs))
  {
  }

  /** Storing the next read byte into a buffer whose front holds the bytes
      read so far. */
  lemma StoreNext(data: seq<Byte>, orig: seq<Byte>, b: Byte)
    requires |data| < |orig|
    ensures (data + orig[|data|..])[|data| := b] == (data + [b]) + orig[|data| + 1..]
  {
  }

  class DwHdmiQp {
    const m: Masks
    const regm: RegisterMap
    const i2c: I2c

    /** The connector the bridge drives while enabled. */
    var connector: Option<Connector>
    var scrambEnabled: bool
    /** Whether the scrambling work is scheduled. */
    var pending: bool
    /** What the driver has told the sink over SCDC. */
    ghost var sink: Sink
    /** Whether the PHY has been started. */
    ghost var phyOn: bool

    ghost function LinkState(): State
      reads this
    {
      State(connector, scrambEnabled, pending, sink, phyOn)
    }

    /** The part of binding the model keeps: the PHY operation check, and a
        zeroed bridge. */
    constructor Bind(m: Masks, phyOps: Option<PhyOps>, init: map<Reg, Word>, sink: Sink)
      requires BindCheck(phyOps) == 0
      ensures this.m == m && fresh(regm) && fresh(i2c)
      ensures regm.Regs() == init && regm.log == [] && i2c.State() == I2cState(0, 0, false, false)
      ensures LinkState() == Initial(sink)
    {
      this.m := m;
      regm := new RegisterMap(init);
      i2c := new I2c();
      connector := None;
      scrambEnabled := false;
      pending := false;
      this.sink := sink;
      phyOn := false;
    }

    // -------------------------------------------------------------------
    // DDC/I2C

    /** One bus byte of a read: program the cursor, strobe, wait for the
        outcome `EventAt(env, k)`, and either fetch the byte or reset the
        engine. */
    method ReadByte(env: seq<Event>, k: nat) returns (ret: int, b: Byte)
      modifies regm, i2c
      ensures var e := EventAt(env, k);
              && ret == ByteRet(m, e) && (ret == 0 ==> b == Low8(e.rdData))
              && i2c.State() == After(old(i2c.State()), e)
              && regm.log == old(regm.log) + ReadByteOps(m, old(i2c.State()), e)
    {
      ghost var log0 := regm.log;
      var e := EventAt(env, k);
      var c := i2c.st.slaveReg;
      ghost var setup := [Update(I2cmInterfaceControl0, AddrField(c), m.i2cmAddr),
                          Update(I2cmInterfaceControl0, ReadStrobe(m, i2c.st.isSegment), m.i2cmWrMask)];
      i2c.st := i2c.st.(slaveReg := Inc8(c));
      regm.Mod(I2cmInterfaceControl0, AddrField(c), m.i2cmAddr);
      if i2c.st.isSegment {
        regm.Mod(I2cmInterfaceControl0, m.i2cmExtRead, m.i2cmWrMask);
      } else {
        regm.Mod(I2cmInterfaceControl0, m.i2cmFmRead, m.i2cmWrMask);
      }
      AppendTwo(log0, [], setup[0], setup[1]);
      assert log0 + [] == log0 && [] + [setup[0], setup[1]] == setup;
      if e.Timeout? {
        regm.WriteReg(I2cmControl0, I2CM_RESET);
        AppendOne(log0, setup, ResetOp());
        return -EAGAIN, 0;
      }
      // The interrupt handler latched the status before signalling.
      i2c.st := i2c.st.(stat := e.stat);
      if And(i2c.st.stat, m.i2cmNackRcvdIrq) != 0 {
        regm.WriteReg(I2cmControl0, I2CM_RESET);
        AppendOne(log0, setup, ResetOp());
        return -EIO, 0;
      }
      var v := regm.ReadReg(I2cmInterfaceRdData03, e.rdData);
      b := Low8(v);
      regm.Mod(I2cmInterfaceControl0, 0, m.i2cmWrMask);
      AppendTwo(log0, setup, Read(I2cmInterfaceRdData03, e.rdData), Update(I2cmInterfaceControl0, 0, m.i2cmWrMask));
      return 0, b;
    }

    /** A read message of `buf.Length` bytes into `buf`; the outcome of the
        j-th wait is `EventAt(env, k + j)`. */
    method I2cRead(buf: array<Byte>, env: seq<Event>, k: nat) returns (ret: int, next: nat)
      modifies regm, i2c, buf
      ensures var r := DdcI2c.I2cRead(m, old(i2c.State()), buf.Length, env, k);
              && ret == r.ret && next == r.next && i2c.State() == r.eng
              && regm.log == old(regm.log) + r.ops
              && buf[..] == Fill(old(buf[..]), r.data)
    {
      ReadMessage(m, i2c.State(), buf.Length, env, k, regm.log);
      if !i2c.st.isRegaddr {
        i2c.st := i2c.st.(slaveReg := 0, isRegaddr := true);
      }
      ghost var orig := buf[..];
      ghost var whole := ReadAcc(m, i2c.State(), buf.Length, env, k, regm.log, []);
      ghost var data: seq<Byte> := [];
      var i := 0;
      next := k;
      while i < buf.Length
        invariant 0 <= i <= buf.Length && |data| == i
        invariant buf[..] == data + orig[i..]
        invariant whole == ReadAcc(m, i2c.State(), buf.Length - i, env, next, regm.log, data)
      {
        ReadAccStep(m, i2c.State(), buf.Length - i, env, next, regm.log, data);
        var r, b := ReadByte(env, next);
        if r < 0 {
          assert buf[..] == Fill(orig, data);
          return r, next + 1;
        }
        ghost var before := buf[..];
        buf[i] := b;
        assert buf[..] == before[i := b];
        StoreNext(data, orig, b);
        data := data + [b];
        i := i + 1;
        next := next + 1;
      }
      assert buf[..] == Fill(orig, data);
      i2c.st := i2c.st.(isSegment := false);
      return 0, next;
    }

    /** One bus byte of a write: load the byte, program the cursor, strobe,
        wait for the outcome `EventAt(env, k)`, and either end the strobe or
        reset the engine. */
    method WriteByte(b: Byte, env: seq<Event>, k: nat) returns (ret: int)
      modifies regm, i2c
      ensures var e := EventAt(env, k);
              && ret == ByteRet(m, e)
              && i2c.State() == After(old(i2c.State()), e)
              && regm.log == old(regm.log) + WriteByteOps(m, old(i2c.State()), b, e)
    {
      ghost var log0 := regm.log;
      var e := EventAt(env, k);
      var c := i2c.st.slaveReg;
      ghost var setup := [Write(I2cmInterfaceWrData03, b),
                          Update(I2cmInterfaceControl0, AddrField(c), m.i2cmAddr),
                          Update(I2cmInterfaceControl0, m.i2cmFmWrite, m.i2cmWrMask)];
      regm.WriteReg(I2cmInterfaceWrData03, b);
      i2c.st := i2c.st.(slaveReg := Inc8(c));
      regm.Mod(I2cmInterfaceControl0, AddrField(c), m.i2cmAddr);
      regm.Mod(I2cmInterfaceControl0, m.i2cmFmWrite, m.i2cmWrMask);
      AppendTwo(log0, [setup[0]], setup[1], setup[2]);
      assert [setup[0]] + [setup[1], setup[2]] == setup;
      if e.Timeout? {
        regm.WriteReg(I2cmControl0, I2CM_RESET);
        AppendOne(log0, setup, ResetOp());
        return -EAGAIN;
      }
      i2c.st := i2c.st.(stat := e.stat);
      if And(i2c.st.stat, m.i2cmNackRcvdIrq) != 0 {
        regm.WriteReg(I2cmControl0, I2CM_RESET);
        AppendOne(log0, setup, ResetOp());
        return -EIO;
      }
      regm.Mod(I2cmInterfaceControl0, 0, m.i2cmWrMask);
      AppendOne(log0, setup, Update(I2cmInterfaceControl0, 0, m.i2cmWrMask));
      return 0;
    }

    /** A write message of the bytes of `buf`. */
    method I2cWrite(buf: seq<Byte>, env: seq<Event>, k: nat) returns (ret: int, next: nat)
      requires |buf| > 0
      modifies regm, i2c
      ensures var r := DdcI2c.I2cWrite(m, old(i2c.State()), buf, env, k);
              && ret == r.ret && next == r.next && i2c.State() == r.eng
              && regm.log == old(regm.log) + r.ops
    {
      WriteMessage(m, i2c.State(), buf, env, k, regm.log);
      var i := 0;
      if !i2c.st.isRegaddr {
        i2c.st := i2c.st.(slaveReg := buf[0], isRegaddr := true);
        i := 1;
      }
      ghost var whole := WriteAcc(m, i2c.State(), buf, i, env, k, regm.log);
      next := k;
      while i < |buf|
        invariant i <= |buf|
        invariant whole == WriteAcc(m, i2c.State(), buf, i, env, next, regm.log)
      {
        WriteAccStep(m, i2c.State(), buf, i, env, next, regm.log);
        var r := WriteByte(buf[i], env, next);
        if r < 0 {
          return r, next + 1;
        }
        i := i + 1;
        next := next + 1;
      }
      return 0, next;
    }

    /** One message of a transfer: a segment pointer sets up the extended
        read, any other message is read or written on the bus. */
    method XferMsg(msgs: seq<MsgBuf>, i: nat, env: seq<Event>, k: nat) returns (ret: int, next: nat)
      requires i < |msgs| && Disjoint(msgs) && msgs[i].buf.Length > 0
      modifies regm, i2c, msgs[i].buf
      ensures var r := MsgStep(m, old(i2c.State()), Msg(msgs[i].addr, msgs[i].isRead, old(msgs[i].buf[..])), env, k);
              && ret == r.ret && next == r.next && i2c.State() == r.eng
              && regm.log == old(regm.log) + r.ops
              && msgs[i].buf[..] == Fill(old(msgs[i].buf[..]), r.data)
      ensures Snapshot(msgs) == old(Snapshot(msgs))[i := msgs[i].buf[..]]
    {
      OthersDistinct(msgs, i);
      ghost var before := Snapshot(msgs);
      var msg := msgs[i];
      if msg.addr == DDC_SEGMENT_ADDR as int && msg.buf.Length == 1 {
        SetSegment(msg.buf[0]);
        assert msg.buf[..] == Fill(msg.buf[..], []);
        ret, next := 0, k;
      } else if msg.isRead {
        ret, next := I2cRead(msg.buf, env, k);
      } else {
        ret, next := I2cWrite(msg.buf[..], env, k);
      }
      assert forall j | 0 <= j < |msgs| && j != i :: msgs[j].buf[..] == before[j];
      assert Snapshot(msgs) == before[i := msgs[i].buf[..]];
    }

    /** A one-byte message to the segment address: the segment address and
        the pointer `ptr` are programmed, and the next read becomes an
        extended read. */
    method SetSegment(ptr: Byte)
      modifies regm, i2c
      ensures i2c.State() == old(i2c.State()).(isSegment := true)
      ensures regm.log == old(regm.log) + [Update(I2cmInterfaceControl1, DDC_SEGMENT_ADDR, m.i2cmSegAddr),
                                           Update(I2cmInterfaceControl1, SegPtrField(ptr), m.i2cmSegPtr)]
    {
      i2c.st := i2c.st.(isSegment := true);
      regm.Mod(I2cmInterfaceControl1, DDC_SEGMENT_ADDR, m.i2cmSegAddr);
      regm.Mod(I2cmInterfaceControl1, SegPtrField(ptr), m.i2cmSegPtr);
    }

    /** The checks a transfer passes before it touches the hardware: the
        first message is not for the DDC/CI address, and no message is
        empty. */
    method Refused(msgs: seq<MsgBuf>) returns (refused: bool)
      requires |msgs| > 0
      ensures refused == Rejected(Contents(msgs))
    {
      ghost var orig := Contents(msgs);
      if Truncate8(msgs[0].addr) == DDC_CI_ADDR {
        // The engine cannot do the multi-byte operations of DDC/CI.
        return true;
      }
      var i := 0;
      while i < |msgs|
        invariant i <= |msgs|
        invariant forall j | 0 <= j < i :: |orig[j].buf| > 0
      {
        if msgs[i].buf.Length == 0 {
          assert |orig[i].buf| == 0;
          return true;
        }
        i := i + 1;
      }
      return false;
    }

    /** The message loop of a transfer: each message in turn, until one
        fails. */
    method SendMessages(msgs: seq<MsgBuf>, ghost orig: seq<Msg>, env: seq<Event>) returns (ret: int)
      requires |msgs| > 0 && Disjoint(msgs) && orig == Contents(msgs) && NonEmpty(orig)
      modifies regm, i2c, Buffers(msgs)
      ensures var a := MsgAcc(m, old(i2c.State()), orig, 0, env, 0, old(regm.log), []);
              && ret == a.ret && i2c.State() == a.eng && regm.log == a.ops
              && Snapshot(msgs) == a.bufs
    {
      ghost var whole := MsgAcc(m, i2c.State(), orig, 0, env, 0, regm.log, []);
      ghost var done: seq<seq<Byte>> := [];
      ghost var cur := Bufs(orig);
      assert orig[0..] == orig && [] + cur == cur;
      var next := 0;
      ret := 0;
      var i := 0;
      while i < |msgs|
        invariant i <= |msgs| && |done| == i && ret == 0
        invariant whole == MsgAcc(m, i2c.State(), orig, i, env, next, regm.log, done)
        invariant cur == done + Bufs(orig[i..])
        invariant Snapshot(msgs) == cur
      {
        MsgAccStep(m, i2c.State(), orig, i, env, next, regm.log, done);
        assert msgs[i].buf in Buffers(msgs);
        assert orig[i] == Msg(msgs[i].addr, msgs[i].isRead, msgs[i].buf[..]);
        ret, next := XferMsg(msgs, i, env, next);
        FinishBuffer(done, orig, msgs[i].buf[..]);
        cur := cur[i := msgs[i].buf[..]];
        if ret < 0 {
          return;
        }
        done := done + [msgs[i].buf[..]];
        i := i + 1;
      }
      assert orig[i..] == [] && done + [] == done;
    }

    /** A multi-message transfer: refuse the DDC/CI address and empty
        messages, unmask the completion interrupts, program the slave
        address, send the messages in order until one fails, and mask the
        interrupts again. The buffers must be distinct. */
    method I2cXfer(msgs: seq<MsgBuf>, env: seq<Event>) returns (ret: int)
      requires |msgs| > 0 && Disjoint(msgs)
      modifies regm, i2c, Buffers(msgs)
      ensures var t := Xfer(m, old(i2c.State()), old(Contents(msgs)), env);
              && ret == t.ret && i2c.State() == t.eng
              && regm.log == old(regm.log) + t.ops
              && Snapshot(msgs) == t.bufs
    {
      var refused := Refused(msgs);
      if refused {
        assert regm.log == old(regm.log) + [];
        SnapshotContents(msgs);
        return -EOPNOTSUPP;
      }
      ret := Transfer(msgs, Contents(msgs), env);
    }

    /** The part of a transfer after its checks. */
    method Transfer(msgs: seq<MsgBuf>, ghost orig: seq<Msg>, env: seq<Event>) returns (ret: int)
      requires |msgs| > 0 && Disjoint(msgs) && orig == Contents(msgs) && !Rejected(orig)
      modifies regm, i2c, Buffers(msgs)
      ensures var t := Xfer(m, old(i2c.State()), orig, env);
              && ret == t.ret && i2c.State() == t.eng
              && regm.log == old(regm.log) + t.ops
              && Snapshot(msgs) == t.bufs
    {
      ghost var t := Xfer(m, i2c.State(), orig, env);
      ghost var a := MsgAcc(m, i2c.State().(isRegaddr := false, isSegment := false), orig, 0, env, 0, regm.log + XferPrologue(m, orig), []);
      XferMessages(m, i2c.State(), orig, env, regm.log);
      StartTransfer(msgs, orig);
      ret := SendMessages(msgs, orig, env);
      assert ret == a.ret && i2c.State() == t.eng && regm.log == a.ops;
      if ret == 0 {
        ret := |msgs|;
      }
      MaskDdcInterrupts(msgs);
    }

    /** The start of a transfer: unmask the completion interrupts, program
        the slave address (the EDID address when the first message is a
        one-byte segment pointer), and clear the register-address and
        segment flags. */
    method StartTransfer(msgs: seq<MsgBuf>, ghost orig: seq<Msg>)
      requires |msgs| > 0 && orig == Contents(msgs)
      modifies regm, i2c
      ensures regm.log == old(regm.log) + XferPrologue(m, orig)
      ensures i2c.State() == old(i2c.State()).(isRegaddr := false, isSegment := false)
      ensures orig == Contents(msgs)
    {
      ghost var log0 := regm.log;
      regm.Mod(Mainunit1IntMaskN, Or(m.i2cmNackRcvdMaskN, m.i2cmOpDoneMaskN), Or(m.i2cmNackRcvdMaskN, m.i2cmOpDoneMaskN));
      var addr := Truncate8(msgs[0].addr);
      if addr == DDC_SEGMENT_ADDR && msgs[0].buf.Length == 1 {
        addr := DDC_ADDR;
      }
      regm.Mod(I2cmInterfaceControl0, SlaveField(addr), m.i2cmSlvAddr);
      ghost var pre := XferPrologue(m, orig);
      AppendTwo(log0, [], pre[0], pre[1]);
      assert log0 + [] == log0 && [] + [pre[0], pre[1]] == pre;
      i2c.st := i2c.st.(isRegaddr := false, isSegment := false);
    }

    /** Masking the completion interrupts again at the end of a transfer;
        the message buffers are not touched. */
    method MaskDdcInterrupts(ghost msgs: seq<MsgBuf>)
      modifies regm
      ensures regm.log == old(regm.log) + [Update(Mainunit1IntMaskN, 0, Or(m.i2cmOpDoneMaskN, m.i2cmNackRcvdMaskN))]
      ensures Snapshot(msgs) == old(Snapshot(msgs))
    {
      regm.Mod(Mainunit1IntMaskN, 0, Or(m.i2cmOpDoneMaskN, m.i2cmNackRcvdMaskN));
    }

    // -------------------------------------------------------------------
    // Interrupts

    /** The main interrupt handler, for a MAINUNIT_1_INT_STATUS value `raw`:
        latch the DDC status bits, acknowledge them, and say whether the
        waiter is woken and whether the interrupt was the bridge's. */
    method MainHardirq(raw: Word) returns (ret: IrqReturn, signalled: bool)
      modifies regm, i2c
      ensures var h := Hardirq(m, raw);
              && ret == h.ret && signalled == h.signal
              && i2c.State() == old(i2c.State()).(stat := h.stat)
              && regm.log == old(regm.log) + h.ops
    {
      ghost var log0 := regm.log;
      var stat := regm.ReadReg(Mainunit1IntStatus, raw);
      // The status field is a byte.
      i2c.st := i2c.st.(stat := Low8(And(stat, Or(Or(m.i2cmOpDoneIrq, m.i2cmReadRequestIrq), m.i2cmNackRcvdIrq))));
      signalled := false;
      if i2c.st.stat != 0 {
        regm.WriteReg(Mainunit1IntClear, i2c.st.stat);
        signalled := true;
      } else {
        assert [Read(Mainunit1IntStatus, raw)] + [] == [Read(Mainunit1IntStatus, raw)];
      }
      if stat != 0 {
        return IrqHandled, signalled;
      }
      return IrqNone, signalled;
    }

    // -------------------------------------------------------------------
    // InfoFrames

    /** The inner loop of the AVI packer: bytes `4 * i .. 4 * i + 3` of the
        content (fewer for the last word) or-ed into one little-endian word.
        `val` is whatever the accumulator held before; the first lane
        overwrites it. */
    method AviWord(buffer: seq<Byte>, i: nat, val: Word) returns (r: Word)
      requires |buffer| == AVI_FRAME_SIZE && i < 4
      ensures r == PackWord(AviContent(buffer), i)
    {
      ghost var content := AviContent(buffer);
      r := val;
      var j := 0;
      while j < 4
        invariant j <= 4 && i * 4 + j <= AVI_CONTENT_BYTES
        invariant j > 0 ==> r == Prefix(content, 4 * i, j)
        invariant j > 0 && (j == 4 || i * 4 + j == AVI_CONTENT_BYTES) ==> r == PackWord(content, i)
      {
        if i * 4 + j >= 14 {
          break;
        }
        assert buffer[i * 4 + j + 3] == content[4 * i + j];
        AccumulateLane(content, i, j, r);
        if j == 0 {
          r := buffer[i * 4 + j + 3];
        }
        r := Or(r, Shl(buffer[i * 4 + j + 3], j));
        j := j + 1;
      }
    }

    /** Configuring the AVI InfoFrame in `buffer`: the version and length
        bytes go into the head register, and the 14 bytes from the checksum
        on are or-ed together four at a time, little-endian, into the
        content registers; then the field-rate bit is cleared and the AVI
        and GCP packets are enabled. */
    method ConfigAviInfoframe(buffer: seq<Byte>) returns (ret: int)
      modifies regm
      ensures var o := ConfigAvi(m, buffer);
              ret == o.ret && regm.log == old(regm.log) + o.ops
    {
      if |buffer| != AVI_FRAME_SIZE {
        assert regm.log == old(regm.log) + [];
        return -EINVAL;
      }
      ghost var content := AviContent(buffer);
      ghost var words := Pack(content);
      ghost var pre := regm.log + [Write(PktContents(Avi, 0), HeadWord(buffer[1], buffer[2]))];
      var val: Word := HeadWord(buffer[1], buffer[2]);
      regm.WriteReg(PktContents(Avi, 0), val);
      var i := 0;
      while i < 4
        invariant i <= 4
        invariant regm.log == pre + ContentWrites(Avi, words[..i])
      {
        val := AviWord(buffer, i, val);
        ContentWritesNext(Avi, words, i);
        regm.WriteReg(PktContents(Avi, 1 + i), val);
        i := i + 1;
      }
      assert words[..4] == words;
      ghost var body := [Write(PktContents(Avi, 0), HeadWord(buffer[1], buffer[2]))] + ContentWrites(Avi, words);
      Associative(old(regm.log), [Write(PktContents(Avi, 0), HeadWord(buffer[1], buffer[2]))], ContentWrites(Avi, words));
      assert regm.log == old(regm.log) + body;
      regm.Mod(PktschedPktConfig1, 0, m.aviFieldrate);
      regm.Mod(PktschedPktEn, Or(m.aviTxEn, m.gcpTxEn), Or(m.aviTxEn, m.gcpTxEn));
      AppendTwo(old(regm.log), body, Update(PktschedPktConfig1, 0, m.aviFieldrate), Update(PktschedPktEn, AviTxBits(m), AviTxBits(m)));
      assert ConfigAvi(m, buffer).ops == body + [Update(PktschedPktConfig1, 0, m.aviFieldrate), Update(PktschedPktEn, AviTxBits(m), AviTxBits(m))];
      return 0;
    }

    /** The content loop of the Dynamic Range and Mastering InfoFrame: byte
        `i` of the checksum and payload goes into lane `i % 4` of word
        `i / 4`, and a word is written when its last lane is filled or the
        bytes end. `val` is whatever the accumulator held before; the first
        lane overwrites it. */
    method WriteDrmContent(buffer: seq<Byte>, val: Word)
      requires |buffer| == DRM_FRAME_SIZE && buffer[2] <= DRM_FRAME_SIZE - 4
      modifies regm
      ensures regm.log == old(regm.log) + ContentWrites(Drmi, Pack(DrmContent(buffer)))
    {
      ghost var content := DrmContent(buffer);
      var acc: Word := val;
      var i := 0;
      while i <= buffer[2]
        invariant i <= buffer[2] + 1
        invariant i > 0 ==> acc == DrmVal(content, i)
        invariant regm.log == old(regm.log) + DrmWrites(content, i)
      {
        assert buffer[3 + i] == content[i];
        if i % 4 == 0 {
          acc := buffer[3 + i];
        }
        acc := Or(acc, Shl(buffer[3 + i], i % 4));
        if i % 4 == 3 || i == buffer[2] {
          AppendOne(old(regm.log), DrmWrites(content, i), Write(PktContents(Drmi, 1 + i / 4), acc));
          regm.WriteReg(PktContents(Drmi, 1 + i / 4), acc);
        } else {
          assert DrmWrites(content, i) + [] == DrmWrites(content, i);
        }
        i := i + 1;
      }
      DrmWritesPacked(content, i);
    }

    /** Configuring the Dynamic Range and Mastering InfoFrame in `buffer`:
        the packet is disabled, the version and length bytes go into the
        head register, and the checksum and the `buffer[2]` payload bytes
        are or-ed together four at a time, little-endian, into the content
        registers, a word being written when it is full or the bytes end;
        then the field-rate bit is cleared and the packet is enabled. The
        driver reads as many bytes as the length byte announces, so the
        length byte must fit in the buffer. */
    method ConfigDrmInfoframe(buffer: seq<Byte>) returns (ret: int)
      requires |buffer| == DRM_FRAME_SIZE ==> buffer[2] <= DRM_FRAME_SIZE - 4
      modifies regm
      ensures var o := ConfigDrm(m, buffer);
              ret == o.ret && regm.log == old(regm.log) + o.ops
    {
      if |buffer| != DRM_FRAME_SIZE {
        assert regm.log == old(regm.log) + [];
        return -EINVAL;
      }
      ghost var words := Pack(DrmContent(buffer));
      regm.Mod(PktschedPktEn, 0, m.drmiTxEn);
      var val: Word := HeadWord(buffer[1], buffer[2]);
      regm.WriteReg(PktContents(Drmi, 0), val);
      AppendTwo(old(regm.log), [], Update(PktschedPktEn, 0, m.drmiTxEn), Write(PktContents(Drmi, 0), val));
      assert old(regm.log) + [] == old(regm.log);
      WriteDrmContent(buffer, val);
      ghost var head := [Update(PktschedPktEn, 0, m.drmiTxEn), Write(PktContents(Drmi, 0), HeadWord(buffer[1], buffer[2]))];
      ghost var body := head + ContentWrites(Drmi, words);
      Associative(old(regm.log), head, ContentWrites(Drmi, words));
      assert regm.log == old(regm.log) + body;
      regm.Mod(PktschedPktConfig1, 0, m.drmiFieldrate);
      regm.Mod(PktschedPktEn, m.drmiTxEn, m.drmiTxEn);
      AppendTwo(old(regm.log), body, Update(PktschedPktConfig1, 0, m.drmiFieldrate), Update(PktschedPktEn, m.drmiTxEn, m.drmiTxEn));
      assert ConfigDrm(m, buffer).ops == body + [Update(PktschedPktConfig1, 0, m.drmiFieldrate), Update(PktschedPktEn, m.drmiTxEn, m.drmiTxEn)];
      return 0;
    }

    /** Stopping the transmission of InfoFrame type `t`. */
    method BridgeClearInfoframe(t: int) returns (ret: int)
      modifies regm
      ensures var o := ClearInfoframe(m, t);
              ret == o.ret && regm.log == old(regm.log) + o.ops
    {
      if t == HDMI_INFOFRAME_TYPE_AVI {
        regm.Mod(PktschedPktEn, 0, Or(m.aviTxEn, m.gcpTxEn));
      } else if t == HDMI_INFOFRAME_TYPE_DRM {
        regm.Mod(PktschedPktEn, 0, m.drmiTxEn);
      } else {
        assert regm.log == old(regm.log) + [];
      }
      return 0;
    }

    /** Sending InfoFrame type `t` from `buffer`: the type is cleared, then
        configured; other types are ignored. */
    method BridgeWriteInfoframe(t: int, buffer: seq<Byte>) returns (ret: int)
      requires t == HDMI_INFOFRAME_TYPE_DRM && |buffer| == DRM_FRAME_SIZE ==> buffer[2] <= DRM_FRAME_SIZE - 4
      modifies regm
      ensures var o := WriteInfoframe(m, t, buffer);
              ret == o.ret && regm.log == old(regm.log) + o.ops
    {
      var _ := BridgeClearInfoframe(t);
      ghost var log1 := regm.log;
      ghost var c := ClearInfoframe(m, t).ops;
      if t == HDMI_INFOFRAME_TYPE_AVI {
        ret := ConfigAviInfoframe(buffer);
        Associative(old(regm.log), c, ConfigAvi(m, buffer).ops);
      } else if t == HDMI_INFOFRAME_TYPE_DRM {
        ret := ConfigDrmInfoframe(buffer);
        Associative(old(regm.log), c, ConfigDrm(m, buffer).ops);
      } else {
        assert regm.log == log1 + [];
        return 0;
      }
    }

    // -------------------------------------------------------------------
    // Scrambling and the link

    /** Turning scrambling on at the sink (high TMDS clock ratio, then
        Scrambling_Enable) and scheduling the status poll. */
    method SetScramb()
      modifies this
      ensures LinkState() == Link.SetScramb(old(LinkState()))
      ensures regm.log == old(regm.log)
    {
      sink := sink.(highRatio := true);
      sink := sink.(scrambling := true);
      pending := true;
    }

    /** The scrambling work, run because it was scheduled; `sinkScrambling`
        is the sink's Scrambling_Status. */
    method RunScrambWork(sinkScrambling: bool)
      requires connector.Some?
      modifies this
      ensures LinkState() == ScrambWork(old(LinkState()), sinkScrambling)
      ensures regm.log == old(regm.log)
    {
      pending := false;
      if !sinkScrambling {
        SetScramb();
      }
    }

    /** Enabling scrambling; `ver` is the sink's SCDC Sink Version. */
    method EnableScramb(ver: Byte)
      requires connector.Some?
      modifies this, regm
      ensures var c := Link.EnableScramb(old(LinkState()), ver);
              LinkState() == c.s && regm.log == old(regm.log) + c.ops
    {
      if !SupportsScrambling(connector.value.info) {
        assert regm.log == old(regm.log) + [];
        return;
      }
      sink := sink.(sourceVersion := SourceVersion(ver));
      SetScramb();
      regm.WriteReg(ScrambConfig0, 1);
      scrambEnabled := true;
    }

    /** Disabling scrambling. */
    method DisableScramb()
      requires scrambEnabled ==> connector.Some?
      modifies this, regm
      ensures var c := Link.DisableScramb(old(LinkState()));
              LinkState() == c.s && regm.log == old(regm.log) + c.ops
    {
      if !scrambEnabled {
        assert regm.log == old(regm.log) + [];
        return;
      }
      scrambEnabled := false;
      pending := false;
      regm.WriteReg(ScrambConfig0, 0);
      if connector.value.status != Disconnected {
        sink := sink.(scrambling := false);
        sink := sink.(highRatio := false);
      }
    }

    /** Enabling the bridge for the connector `conn` of the new state, whose
        TMDS character rate is `rate`; `ver` is what the sink reports as its
        SCDC Sink Version should scrambling be enabled. */
    method AtomicEnable(conn: Option<Connector>, rate: Option<nat>, ver: Byte)
      modifies this, regm
      ensures var c := Link.AtomicEnable(m, old(LinkState()), conn, rate, ver);
              LinkState() == c.s && regm.log == old(regm.log) + c.ops
    {
      connector := conn;
      if conn.None? || rate.None? {
        assert regm.log == old(regm.log) + [];
        return;
      }
      var opMode: Word;
      if conn.value.info.isHdmi {
        opMode := 0;
        if NeedsScrambling(rate.value) {
          EnableScramb(ver);
        } else {
          assert regm.log == old(regm.log) + [];
        }
      } else {
        opMode := m.opmodeDvi;
        assert regm.log == old(regm.log) + [];
      }
      ghost var mid := regm.log;
      phyOn := true;
      regm.Mod(Hdcp2LogicConfig0, m.hdcp2Bypass, m.hdcp2Bypass);
      regm.Mod(LinkConfig0, opMode, m.opmodeDvi);
      ghost var e := mid[|old(regm.log)|..];
      assert mid == old(regm.log) + e;
      AppendTwo(old(regm.log), e, Update(Hdcp2LogicConfig0, m.hdcp2Bypass, m.hdcp2Bypass), Update(LinkConfig0, opMode, m.opmodeDvi));
    }

    /** Disabling the bridge: scrambling off, the connector released and the
        PHY stopped. */
    method AtomicDisable()
      requires scrambEnabled ==> connector.Some?
      modifies this, regm
      ensures var c := Link.AtomicDisable(old(LinkState()));
              LinkState() == c.s && regm.log == old(regm.log) + c.ops
    {
      DisableScramb();
      connector := None;
      phyOn := false;
    }

    /** Hot-plug detection: `hpd` is what the PHY reports, `edid` what
        reading the EDID over DDC gives, `sinkScrambling` the sink's
        Scrambling_Status. `resetLink` says whether the driver resets the
        link. */
    method Detect(hpd: Status, edid: Option<DisplayInfo>, sinkScrambling: bool) returns (status: Status, resetLink: bool)
      modifies this
      ensures var d := Link.Detect(old(LinkState()), hpd, edid, sinkScrambling);
              status == d.status && resetLink == d.resetLink && LinkState() == d.s
      ensures regm.log == old(regm.log)
    {
      status, resetLink := hpd, false;
      if scrambEnabled {
        pending := false;
      }
      // The probe helper records the returned status in the connector
      if connector.Some? {
        connector := Some(connector.value.(status := hpd));
      }
      if status == Disconnected || connector.None? {
        return;
      }
      connector := Some(connector.value.(info := EdidInfo(edid)));
      if edid.None? {
        return;
      }
      if !scrambEnabled {
        return;
      }
      if !SupportsScrambling(connector.value.info) {
        return;
      }
      if sinkScrambling {
        return;
      }
      resetLink := true;
    }
  }
}
