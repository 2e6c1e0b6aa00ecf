/**
 * The DDC/I2C transfer engine of the DesignWare HDMI QP transmitter and its
 * interrupt status latch, as specification functions over values.
 *
 * The engine emulates multi-message I2C transfers one byte at a time: every
 * bus byte programs the current register cursor into the I2CM_ADDR field,
 * issues a read or write strobe, waits for the interrupt handler to signal
 * completion (or for the wait to time out) and checks the latched status for
 * a NACK. The outcome of each wait is an input: `env[k]` is what the k-th
 * bus byte of the transfer sees, and once `env` is exhausted the hardware is
 * silent, so every later wait times out.
 */
module DdcI2c {
  import opened Bits
  import opened Registers

  /** A 16-bit I2C address field. */
  type Addr16 = a: int | 0 <= a < 0x1_0000

  /** I2C addresses of the E-DDC protocol (VESA Enhanced DDC). */
  const DDC_CI_ADDR: Byte := 0x37
  const DDC_SEGMENT_ADDR: Byte := 0x30
  const DDC_ADDR: Byte := 0x50

  /** Error numbers of the Linux errno table; functions return their negation. */
  const EIO: int := 5
  const EAGAIN: int := 11
  const EOPNOTSUPP: int := 95

  /** The software-reset command the driver writes to I2CM_CONTROL0. */
  const I2CM_RESET: Word := 0x01

  /** One I2C message: its 16-bit slave address, its direction, and its
      buffer (the message length is the buffer's length). */
  datatype Msg = Msg(addr: Addr16, isRead: bool, buf: seq<Byte>)

  /** The per-adapter state of the engine: the latched interrupt status,
      the register cursor, and the two per-transfer flags. */
  datatype I2cState = I2cState(stat: Byte, slaveReg: Byte, isRegaddr: bool, isSegment: bool)

  /** What one wait for completion sees: a timeout, or a completion with the
      status the interrupt handler latched and the value RDDATA then holds. */
  datatype Event = Timeout | Done(stat: Byte, rdData: Word)

  function EventAt(env: seq<Event>, k: nat): Event {
    if k < |env| then env[k] else Timeout
  }

  /** The result of part of a transfer: the return code, the register
      accesses in order, the bytes read, the engine state afterwards and the
      index of the next wait outcome. */
  datatype Run = Run(ret: int, ops: seq<Access>, data: seq<Byte>, eng: I2cState, next: nat)

  /** The result of a whole transfer; `bufs` are the message buffers afterwards. */
  datatype Batch = Batch(ret: int, ops: seq<Access>, bufs: seq<seq<Byte>>, eng: I2cState, next: nat)

  /** The low byte of an address, as a C cast to `u8` keeps it. */
  function Truncate8(a: Addr16): Byte {
    a % 0x100
  }

  /** The low byte of a register value, as a C cast to `u8` keeps it. */
  function Low8(w: Word): Byte {
    w % 0x100
  }

  /** The `u8` cursor incremented with wrap-around. */
  function Inc8(c: Byte): Byte {
    (c + 1) % 0x100
  }

  /** The value programmed into the I2CM_ADDR field for cursor `c`: `c << 12`. */
  function AddrField(c: Byte): Word {
    c * 0x1000
  }

  /** The value programmed into the I2CM_SLVADDR field for slave address `a`: `a << 5`. */
  function SlaveField(a: Byte): Word {
    a * 0x20
  }

  /** The value programmed into the I2CM_SEG_PTR field for segment `s`: `s << 7`. */
  function SegPtrField(s: Byte): Word {
    s * 0x80
  }

  predicate Nack(m: Masks, stat: Byte) {
    And(stat, m.i2cmNackRcvdIrq) != 0
  }

  /** A wait that completed without a NACK. */
  predicate Clean(m: Masks, e: Event) {
    e.Done? && !Nack(m, e.stat)
  }

  function ReadStrobe(m: Masks, isSegment: bool): Word {
    if isSegment then m.i2cmExtRead else m.i2cmFmRead
  }

  function ResetOp(): Access {
    Write(I2cmControl0, I2CM_RESET)
  }

  /** Every access addresses a register of the I2C master. */
  predicate OnlyI2cm(ops: seq<Access>) {
    forall i | 0 <= i < |ops| :: IsI2cmReg(ops[i].reg)
  }

  /** The properties every byte loop keeps: it returns 0, -EAGAIN or -EIO,
      and a failure ends with the software reset. */
  predicate LoopOutcome(r: Run) {
    && (r.ret == 0 || r.ret == -EAGAIN || r.ret == -EIO)
    && (r.ret < 0 ==> |r.ops| > 0 && r.ops[|r.ops| - 1] == ResetOp())
  }

  /** The read loop: `n` bytes, each at the current cursor, which advances
      by one (modulo 256) before the wait. */
  function ReadLoop(m: Masks, eng: I2cState, n: nat, env: seq<Event>, k: nat): (r: Run)
    ensures LoopOutcome(r)
    ensures k <= r.next <= k + n && (r.ret == 0 ==> r.next == k + n) && (r.ret != 0 ==> k < r.next)
    ensures |r.data| == (if r.ret == 0 then n else r.next - k - 1)
    ensures r.eng.isRegaddr == eng.isRegaddr && r.eng.isSegment == eng.isSegment
    decreases n
  {
    if n == 0 then Run(0, [], [], eng, k)
    else
      var pre := [Update(I2cmInterfaceControl0, AddrField(eng.slaveReg), m.i2cmAddr),
                  Update(I2cmInterfaceControl0, ReadStrobe(m, eng.isSegment), m.i2cmWrMask)];
      var eng1 := eng.(slaveReg := Inc8(eng.slaveReg));
      match EventAt(env, k)
      case Timeout => Run(-EAGAIN, pre + [ResetOp()], [], eng1, k + 1)
      case Done(stat, rd) =>
        var eng2 := eng1.(stat := stat);
        if Nack(m, stat) then Run(-EIO, pre + [ResetOp()], [], eng2, k + 1)
        else
          var rest := ReadLoop(m, eng2, n - 1, env, k + 1);
          var ops := pre + [Read(I2cmInterfaceRdData03, rd), Update(I2cmInterfaceControl0, 0, m.i2cmWrMask)] + rest.ops;
          assert rest.ret < 0 ==> ops[|ops| - 1] == rest.ops[|rest.ops| - 1];
          Run(rest.ret, ops, [Low8(rd)] + rest.data, rest.eng, rest.next)
  }

  /** A read message: without an established register address, the read
      starts at register 0; a completed read ends the extended-read mode. */
  function I2cRead(m: Masks, eng: I2cState, n: nat, env: seq<Event>, k: nat): (r: Run)
    ensures LoopOutcome(r)
    ensures k <= r.next <= k + n && (r.ret == 0 ==> r.next == k + n) && (r.ret != 0 ==> k < r.next)
    ensures |r.data| == (if r.ret == 0 then n else r.next - k - 1)
    ensures r.eng.isRegaddr
  {
    var eng0 := if !eng.isRegaddr then eng.(slaveReg := 0, isRegaddr := true) else eng;
    var r := ReadLoop(m, eng0, n, env, k);
    if r.ret < 0 then r else r.(eng := r.eng.(isSegment := false))
  }

  /** The write loop: one bus byte per element of `bytes`. */
  function WriteLoop(m: Masks, eng: I2cState, bytes: seq<Byte>, env: seq<Event>, k: nat): (r: Run)
    ensures LoopOutcome(r) && |r.data| == 0
    ensures k <= r.next <= k + |bytes| && (r.ret == 0 ==> r.next == k + |bytes|) && (r.ret != 0 ==> k < r.next)
    ensures r.eng.isRegaddr == eng.isRegaddr && r.eng.isSegment == eng.isSegment
    decreases |bytes|
  {
    if |bytes| == 0 then Run(0, [], [], eng, k)
    else
      var pre := [Write(I2cmInterfaceWrData03, bytes[0]),
                  Update(I2cmInterfaceControl0, AddrField(eng.slaveReg), m.i2cmAddr),
                  Update(I2cmInterfaceControl0, m.i2cmFmWrite, m.i2cmWrMask)];
      var eng1 := eng.(slaveReg := Inc8(eng.slaveReg));
      match EventAt(env, k)
      case Timeout => Run(-EAGAIN, pre + [ResetOp()], [], eng1, k + 1)
      case Done(stat, _) =>
        var eng2 := eng1.(stat := stat);
        if Nack(m, stat) then Run(-EIO, pre + [ResetOp()], [], eng2, k + 1)
        else
          var rest := WriteLoop(m, eng2, bytes[1..], env, k + 1);
          var ops := pre + [Update(I2cmInterfaceControl0, 0, m.i2cmWrMask)] + rest.ops;
          assert rest.ret < 0 ==> ops[|ops| - 1] == rest.ops[|rest.ops| - 1];
          Run(rest.ret, ops, [], rest.eng, rest.next)
  }

  /** A write message: without an established register address, its first
      byte becomes the register cursor and only the rest goes on the bus. */
  function I2cWrite(m: Masks, eng: I2cState, buf: seq<Byte>, env: seq<Event>, k: nat): (r: Run)
    requires |buf| > 0
    ensures LoopOutcome(r) && |r.data| == 0
    ensures k <= r.next
    ensures r.eng.isRegaddr && r.eng.isSegment == eng.isSegment
  {
    if !eng.isRegaddr then WriteLoop(m, eng.(slaveReg := buf[0], isRegaddr := true), buf[1..], env, k)
    else WriteLoop(m, eng, buf, env, k)
  }

  /** A one-byte message to the E-DDC segment-pointer address. */
  predicate SegmentMsg(msg: Msg) {
    msg.addr == DDC_SEGMENT_ADDR && |msg.buf| == 1
  }

  /** One message of a transfer. A segment-pointer message sets up the
      extended read instead of going on the bus. */
  function MsgStep(m: Masks, eng: I2cState, msg: Msg, env: seq<Event>, k: nat): (r: Run)
    requires |msg.buf| > 0
    ensures LoopOutcome(r) && |r.data| <= |msg.buf| && k <= r.next
    ensures !msg.isRead || SegmentMsg(msg) ==> |r.data| == 0
  {
    if SegmentMsg(msg) then
      Run(0, [Update(I2cmInterfaceControl1, DDC_SEGMENT_ADDR, m.i2cmSegAddr),
              Update(I2cmInterfaceControl1, SegPtrField(msg.buf[0]), m.i2cmSegPtr)],
          [], eng.(isSegment := true), k)
    else if msg.isRead then I2cRead(m, eng, |msg.buf|, env, k)
    else I2cWrite(m, eng, msg.buf, env, k)
  }

  /** The buffer of a read message after `data` has been stored from its start. */
  function Fill(buf: seq<Byte>, data: seq<Byte>): (r: seq<Byte>)
    requires |data| <= |buf|
    ensures |r| == |buf|
  {
    data + buf[|data|..]
  }

  function Bufs(msgs: seq<Msg>): (r: seq<seq<Byte>>)
    ensures |r| == |msgs|
  {
    seq(|msgs|, i requires 0 <= i < |msgs| => msgs[i].buf)
  }

  predicate NonEmpty(msgs: seq<Msg>) {
    forall i | 0 <= i < |msgs| :: |msgs[i].buf| > 0
  }

  /** The messages of a transfer in order, stopping at the first failure. */
  function MsgLoop(m: Masks, eng: I2cState, msgs: seq<Msg>, env: seq<Event>, k: nat): (b: Batch)
    requires NonEmpty(msgs)
    ensures b.ret == 0 || b.ret == -EAGAIN || b.ret == -EIO
    ensures b.ret < 0 ==> |b.ops| > 0 && b.ops[|b.ops| - 1] == ResetOp()
    ensures |b.bufs| == |msgs|
    decreases |msgs|
  {
    if |msgs| == 0 then Batch(0, [], [], eng, k)
    else
      var r := MsgStep(m, eng, msgs[0], env, k);
      var buf0 := Fill(msgs[0].buf, r.data);
      if r.ret < 0 then Batch(r.ret, r.ops, [buf0] + Bufs(msgs[1..]), r.eng, r.next)
      else
        var rest := MsgLoop(m, r.eng, msgs[1..], env, r.next);
        Batch(rest.ret, r.ops + rest.ops, [buf0] + rest.bufs, rest.eng, rest.next)
  }

  /** A transfer the engine refuses before touching anything: the first
      message is for the DDC/CI address, or some message is empty. */
  predicate Rejected(msgs: seq<Msg>)
    requires |msgs| > 0
  {
    Truncate8(msgs[0].addr) == DDC_CI_ADDR || !NonEmpty(msgs)
  }

  /** The slave address programmed for the transfer, taken from the first message. */
  function SlaveAddr(msgs: seq<Msg>): Byte
    requires |msgs| > 0
  {
    var a := Truncate8(msgs[0].addr);
    if a == DDC_SEGMENT_ADDR && |msgs[0].buf| == 1 then DDC_ADDR else a
  }

  /** The two interrupt-enable bits the engine unmasks around a transfer. */
  function IrqEnableBits(m: Masks): Word {
    Or(m.i2cmNackRcvdMaskN, m.i2cmOpDoneMaskN)
  }

  /** A whole multi-message transfer. */
  function Xfer(m: Masks, eng: I2cState, msgs: seq<Msg>, env: seq<Event>): (t: Batch)
    requires |msgs| > 0
    ensures |t.bufs| == |msgs|
    ensures Rejected(msgs) ==> t == Batch(-EOPNOTSUPP, [], Bufs(msgs), eng, 0)
    ensures !Rejected(msgs) ==>
      && (t.ret == |msgs| || t.ret == -EAGAIN || t.ret == -EIO)
      && |t.ops| >= 3
      && t.ops[0] == Update(Mainunit1IntMaskN, IrqEnableBits(m), IrqEnableBits(m))
      && t.ops[|t.ops| - 1] == Update(Mainunit1IntMaskN, 0, IrqEnableBits(m))
  {
    if Rejected(msgs) then Batch(-EOPNOTSUPP, [], Bufs(msgs), eng, 0)
    else
      var pre := [Update(Mainunit1IntMaskN, IrqEnableBits(m), IrqEnableBits(m)),
                  Update(I2cmInterfaceControl0, SlaveField(SlaveAddr(msgs)), m.i2cmSlvAddr)];
      var b := MsgLoop(m, eng.(isRegaddr := false, isSegment := false), msgs, env, 0);
      var ops := pre + b.ops + [Update(Mainunit1IntMaskN, 0, Or(m.i2cmOpDoneMaskN, m.i2cmNackRcvdMaskN))];
      OrCommutes(m.i2cmOpDoneMaskN, m.i2cmNackRcvdMaskN);
      Batch(if b.ret == 0 then |msgs| else b.ret, ops, b.bufs, b.eng, b.next)
  }

  // ---------------------------------------------------------------------
  // Interrupt status latch

  datatype IrqReturn = IrqNone | IrqHandled

  /** What one invocation of the hard interrupt handler does: the status it
      latches, its register accesses, whether it signals the waiter, and its
      return value. */
  datatype Irq = Irq(stat: Byte, ops: seq<Access>, signal: bool, ret: IrqReturn)

  function IrqBits(m: Masks): Word {
    Or(Or(m.i2cmOpDoneIrq, m.i2cmReadRequestIrq), m.i2cmNackRcvdIrq)
  }

  /** The handler for a MAINUNIT_1_INT_STATUS value `raw`. The latched status
      is stored in a byte, so only the low eight bits of the masked value are kept. */
  function Hardirq(m: Masks, raw: Word): (r: Irq)
    ensures 1 <= |r.ops| <= 2 && r.ops[0] == Read(Mainunit1IntStatus, raw)
    ensures r.signal <==> r.stat != 0
    ensures |r.ops| == 2 <==> r.signal
    ensures r.signal ==> r.ops[1] == Write(Mainunit1IntClear, r.stat)
    ensures r.ret == IrqHandled <==> raw != 0
  {
    var stat := Low8(And(raw, IrqBits(m)));
    Irq(stat,
        [Read(Mainunit1IntStatus, raw)] + (if stat != 0 then [Write(Mainunit1IntClear, stat)] else []),
        stat != 0,
        if raw != 0 then IrqHandled else IrqNone)
  }
}
