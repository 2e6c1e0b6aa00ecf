/**
 * The DDC/I2C loops of the engine, one iteration at a time. Each loop is
 * restated with accumulators (the accesses issued, the bytes read, the
 * buffers finished so far), in the shape the driver's `while` and `for`
 * loops walk it, and proved equal to the recursive definition.
 */
module LoopSteps {
  import opened Bits
  import opened Registers
  import opened DdcI2c
  import opened DdcI2cLemmas

  /** A run with the accesses and bytes of earlier steps in front. */
  function Prepend(ops: seq<Access>, data: seq<Byte>, r: Run): Run {
    Run(r.ret, ops + r.ops, data + r.data, r.eng, r.next)
  }

  /** The return code of one bus byte whose wait sees `e`. */
  function ByteRet(m: Masks, e: Event): int {
    if e.Timeout? then -EAGAIN else if Nack(m, e.stat) then -EIO else 0
  }

  /** The accesses of one read byte at the cursor of `eng` whose wait sees `e`. */
  function ReadByteOps(m: Masks, eng: I2cState, e: Event): seq<Access> {
    [Update(I2cmInterfaceControl0, AddrField(eng.slaveReg), m.i2cmAddr),
     Update(I2cmInterfaceControl0, ReadStrobe(m, eng.isSegment), m.i2cmWrMask)]
    + if Clean(m, e) then [Read(I2cmInterfaceRdData03, e.rdData), Update(I2cmInterfaceControl0, 0, m.i2cmWrMask)]
      else [ResetOp()]
  }

  /** The accesses of one write byte `b` at the cursor of `eng` whose wait sees `e`. */
  function WriteByteOps(m: Masks, eng: I2cState, b: Byte, e: Event): seq<Access> {
    [Write(I2cmInterfaceWrData03, b),
     Update(I2cmInterfaceControl0, AddrField(eng.slaveReg), m.i2cmAddr),
     Update(I2cmInterfaceControl0, m.i2cmFmWrite, m.i2cmWrMask)]
    + if Clean(m, e) then [Update(I2cmInterfaceControl0, 0, m.i2cmWrMask)] else [ResetOp()]
  }

  /** The read loop with `ops` and `data` already done. */
  function ReadAcc(m: Masks, eng: I2cState, n: nat, env: seq<Event>, k: nat, ops: seq<Access>, data: seq<Byte>): Run
    decreases n
  {
    if n == 0 then Run(0, ops, data, eng, k)
    else
      var e := EventAt(env, k);
      if !Clean(m, e) then Run(ByteRet(m, e), ops + ReadByteOps(m, eng, e), data, After(eng, e), k + 1)
      else ReadAcc(m, After(eng, e), n - 1, env, k + 1, ops + ReadByteOps(m, eng, e), data + [Low8(e.rdData)])
  }

  /** One iteration of the accumulating read loop. */
  lemma ReadAccStep(m: Masks, eng: I2cState, n: nat, env: seq<Event>, k: nat, ops: seq<Access>, data: seq<Byte>)
    requires n > 0
    ensures var e := EventAt(env, k);
            ReadAcc(m, eng, n, env, k, ops, data)
            == if !Clean(m, e) then Run(ByteRet(m, e), ops + ReadByteOps(m, eng, e), data, After(eng, e), k + 1)
               else ReadAcc(m, After(eng, e), n - 1, env, k + 1, ops + ReadByteOps(m, eng, e), data + [Low8(e.rdData)])
  {
  }

  /** The write loop over `buf[i..]` with `ops` already done. */
  function WriteAcc(m: Masks, eng: I2cState, buf: seq<Byte>, i: nat, env: seq<Event>, k: nat, ops: seq<Access>): Run
    requires i <= |buf|
    decreases |buf| - i
  {
    if i == |buf| then Run(0, ops, [], eng, k)
    else
      var e := EventAt(env, k);
      if !Clean(m, e) then Run(ByteRet(m, e), ops + WriteByteOps(m, eng, buf[i], e), [], After(eng, e), k + 1)
      else WriteAcc(m, After(eng, e), buf, i + 1, env, k + 1, ops + WriteByteOps(m, eng, buf[i], e))
  }

  /** One iteration of the accumulating write loop. */
  lemma WriteAccStep(m: Masks, eng: I2cState, buf: seq<Byte>, i: nat, env: seq<Event>, k: nat, ops: seq<Access>)
    requires i < |buf|
    ensures var e := EventAt(env, k);
            WriteAcc(m, eng, buf, i, env, k, ops)
            == if !Clean(m, e) then Run(ByteRet(m, e), ops + WriteByteOps(m, eng, buf[i], e), [], After(eng, e), k + 1)
               else WriteAcc(m, After(eng, e), buf, i + 1, env, k + 1, ops + WriteByteOps(m, eng, buf[i], e))
  {
  }

  /** The message loop over `msgs[i..]` with `ops` already issued and
      `bufs` already finished. */
  function MsgAcc(m: Masks, eng: I2cState, msgs: seq<Msg>, i: nat, env: seq<Event>, k: nat,
                  ops: seq<Access>, bufs: seq<seq<Byte>>): (b: Batch)
    requires i <= |msgs| && NonEmpty(msgs)
    ensures |b.bufs| == |bufs| + |msgs| - i
    decreases |msgs| - i
  {
    if i == |msgs| then Batch(0, ops, bufs, eng, k)
    else
      var r := MsgStep(m, eng, msgs[i], env, k);
      var buf := Fill(msgs[i].buf, r.data);
      if r.ret < 0 then Batch(r.ret, ops + r.ops, bufs + [buf] + Bufs(msgs[i + 1..]), r.eng, r.next)
      else MsgAcc(m, r.eng, msgs, i + 1, env, r.next, ops + r.ops, bufs + [buf])
  }

  // ---------------------------------------------------------------------
  // The accumulating loops are the recursive ones

  lemma ReadLoopFailStep(m: Masks, eng: I2cState, n: nat, env: seq<Event>, k: nat, ops: seq<Access>, data: seq<Byte>)
    requires n > 0 && !Clean(m, EventAt(env, k))
    ensures Prepend(ops, data, ReadLoop(m, eng, n, env, k))
            == Run(ByteRet(m, EventAt(env, k)), ops + ReadByteOps(m, eng, EventAt(env, k)), data, After(eng, EventAt(env, k)), k + 1)
  {
    assert data + [] == data;
  }

  lemma ReadLoopCleanStep(m: Masks, eng: I2cState, n: nat, env: seq<Event>, k: nat, ops: seq<Access>, data: seq<Byte>)
    requires n > 0 && Clean(m, EventAt(env, k))
    ensures Prepend(ops, data, ReadLoop(m, eng, n, env, k))
            == Prepend(ops + ReadByteOps(m, eng, EventAt(env, k)), data + [Low8(EventAt(env, k).rdData)],
                       ReadLoop(m, After(eng, EventAt(env, k)), n - 1, env, k + 1))
  {
    var e := EventAt(env, k);
    var r := ReadLoop(m, eng, n, env, k);
    var rest := ReadLoop(m, After(eng, e), n - 1, env, k + 1);
    var mid := ReadByteOps(m, eng, e);
    assert r == Run(rest.ret, mid + rest.ops, [Low8(e.rdData)] + rest.data, rest.eng, rest.next);
    assert ops + (mid + rest.ops) == (ops + mid) + rest.ops;
    assert data + ([Low8(e.rdData)] + rest.data) == (data + [Low8(e.rdData)]) + rest.data;
  }

  /** Reading `n` bytes with `ops` and `data` done is the read loop with
      those in front. */
  lemma {:induction false} ReadAccIsLoop(m: Masks, eng: I2cState, n: nat, env: seq<Event>, k: nat, ops: seq<Access>, data: seq<Byte>)
    ensures ReadAcc(m, eng, n, env, k, ops, data) == Prepend(ops, data, ReadLoop(m, eng, n, env, k))
    decreases n
  {
    var e := EventAt(env, k);
    if n == 0 {
      assert ops + [] == ops && data + [] == data;
    } else if !Clean(m, e) {
      ReadLoopFailStep(m, eng, n, env, k, ops, data);
    } else {
      ReadLoopCleanStep(m, eng, n, env, k, ops, data);
      ReadAccIsLoop(m, After(eng, e), n - 1, env, k + 1, ops + ReadByteOps(m, eng, e), data + [Low8(e.rdData)]);
    }
  }

  /** The engine state a read message starts from: without an established
      register address, the cursor restarts at 0. */
  function ReadStart(eng: I2cState): I2cState {
    if !eng.isRegaddr then eng.(slaveReg := 0, isRegaddr := true) else eng
  }

  /** A read message, as the accumulating loop walks it after `log`. */
  lemma ReadMessage(m: Masks, eng: I2cState, n: nat, env: seq<Event>, k: nat, log: seq<Access>)
    ensures var r := I2cRead(m, eng, n, env, k);
            var a := ReadAcc(m, ReadStart(eng), n, env, k, log, []);
            && r.ret == a.ret && r.next == a.next && a.ops == log + r.ops && r.data == a.data
            && r.eng == (if a.ret < 0 then a.eng else a.eng.(isSegment := false))
  {
    ReadAccIsLoop(m, ReadStart(eng), n, env, k, log, []);
    var loop := ReadLoop(m, ReadStart(eng), n, env, k);
    assert [] + loop.data == loop.data;
  }

  lemma WriteLoopFailStep(m: Masks, eng: I2cState, buf: seq<Byte>, i: nat, env: seq<Event>, k: nat, ops: seq<Access>)
    requires i < |buf| && !Clean(m, EventAt(env, k))
    ensures Prepend(ops, [], WriteLoop(m, eng, buf[i..], env, k))
            == Run(ByteRet(m, EventAt(env, k)), ops + WriteByteOps(m, eng, buf[i], EventAt(env, k)), [], After(eng, EventAt(env, k)), k + 1)
  {
    assert buf[i..][0] == buf[i];
  }

  lemma WriteLoopCleanStep(m: Masks, eng: I2cState, buf: seq<Byte>, i: nat, env: seq<Event>, k: nat, ops: seq<Access>)
    requires i < |buf| && Clean(m, EventAt(env, k))
    ensures Prepend(ops, [], WriteLoop(m, eng, buf[i..], env, k))
            == Prepend(ops + WriteByteOps(m, eng, buf[i], EventAt(env, k)), [],
                       WriteLoop(m, After(eng, EventAt(env, k)), buf[i + 1..], env, k + 1))
  {
    var e := EventAt(env, k);
    assert buf[i..][0] == buf[i] && buf[i..][1..] == buf[i + 1..];
    var r := WriteLoop(m, eng, buf[i..], env, k);
    var rest := WriteLoop(m, After(eng, e), buf[i + 1..], env, k + 1);
    var mid := WriteByteOps(m, eng, buf[i], e);
    assert r == Run(rest.ret, mid + rest.ops, [], rest.eng, rest.next);
    assert ops + (mid + rest.ops) == (ops + mid) + rest.ops;
  }

  /** Writing `buf[i..]` with `ops` done is the write loop with those in front. */
  lemma {:induction false} WriteAccIsLoop(m: Masks, eng: I2cState, buf: seq<Byte>, i: nat, env: seq<Event>, k: nat, ops: seq<Access>)
    requires i <= |buf|
    ensures WriteAcc(m, eng, buf, i, env, k, ops) == Prepend(ops, [], WriteLoop(m, eng, buf[i..], env, k))
    decreases |buf| - i
  {
    var e := EventAt(env, k);
    if i == |buf| {
      assert ops + [] == ops && buf[i..] == [];
    } else if !Clean(m, e) {
      WriteLoopFailStep(m, eng, buf, i, env, k, ops);
    } else {
      WriteLoopCleanStep(m, eng, buf, i, env, k, ops);
      WriteAccIsLoop(m, After(eng, e), buf, i + 1, env, k + 1, ops + WriteByteOps(m, eng, buf[i], e));
    }
  }

  /** A write message, as the accumulating loop walks it after `log`: the
      loop starts at the first byte, or at the second when the first is the
      register address. */
  lemma WriteMessage(m: Masks, eng: I2cState, buf: seq<Byte>, env: seq<Event>, k: nat, log: seq<Access>)
    requires |buf| > 0
    ensures var r := I2cWrite(m, eng, buf, env, k);
            var a := if !eng.isRegaddr then WriteAcc(m, eng.(slaveReg := buf[0], isRegaddr := true), buf, 1, env, k, log)
                     else WriteAcc(m, eng, buf, 0, env, k, log);
            r.ret == a.ret && r.next == a.next && a.ops == log + r.ops && r.eng == a.eng
  {
    if !eng.isRegaddr {
      WriteAccIsLoop(m, eng.(slaveReg := buf[0], isRegaddr := true), buf, 1, env, k, log);
    } else {
      assert buf[0..] == buf;
      WriteAccIsLoop(m, eng, buf, 0, env, k, log);
    }
  }

  /** The message loop over `msgs[i..]` with `ops` and `bufs` in front. */
  function PrependBatch(ops: seq<Access>, bufs: seq<seq<Byte>>, b: Batch): Batch {
    Batch(b.ret, ops + b.ops, bufs + b.bufs, b.eng, b.next)
  }

  lemma MsgLoopStep(m: Masks, eng: I2cState, msgs: seq<Msg>, i: nat, env: seq<Event>, k: nat,
                    ops: seq<Access>, bufs: seq<seq<Byte>>)
    requires i < |msgs| && NonEmpty(msgs)
    ensures NonEmpty(msgs[i..]) && NonEmpty(msgs[i + 1..])
    ensures var r := MsgStep(m, eng, msgs[i], env, k);
            var buf := Fill(msgs[i].buf, r.data);
            PrependBatch(ops, bufs, MsgLoop(m, eng, msgs[i..], env, k))
            == if r.ret < 0 then Batch(r.ret, ops + r.ops, bufs + [buf] + Bufs(msgs[i + 1..]), r.eng, r.next)
               else PrependBatch(ops + r.ops, bufs + [buf], MsgLoop(m, r.eng, msgs[i + 1..], env, r.next))
  {
    var tail := msgs[i..];
    assert tail[0] == msgs[i] && tail[1..] == msgs[i + 1..];
    assert NonEmpty(tail) by {
      forall j | 0 <= j < |tail| ensures |tail[j].buf| > 0 {
        assert tail[j] == msgs[i + j];
      }
    }
    var after := msgs[i + 1..];
    assert NonEmpty(after) by {
      forall j | 0 <= j < |after| ensures |after[j].buf| > 0 {
        assert after[j] == msgs[i + 1 + j];
      }
    }
    var r := MsgStep(m, eng, msgs[i], env, k);
    var buf := Fill(msgs[i].buf, r.data);
    if r.ret < 0 {
      assert ops + r.ops + [] == ops + r.ops;
      assert bufs + ([buf] + Bufs(msgs[i + 1..])) == bufs + [buf] + Bufs(msgs[i + 1..]);
    } else {
      var rest := MsgLoop(m, r.eng, msgs[i + 1..], env, r.next);
      assert ops + (r.ops + rest.ops) == (ops + r.ops) + rest.ops;
      assert bufs + ([buf] + rest.bufs) == (bufs + [buf]) + rest.bufs;
    }
  }

  /** Sending `msgs[i..]` with `ops` and `bufs` done is the message loop
      with those in front. */
  lemma {:induction false} MsgAccIsLoop(m: Masks, eng: I2cState, msgs: seq<Msg>, i: nat, env: seq<Event>, k: nat,
                                        ops: seq<Access>, bufs: seq<seq<Byte>>)
    requires i <= |msgs| && NonEmpty(msgs)
    ensures NonEmpty(msgs[i..])
    ensures MsgAcc(m, eng, msgs, i, env, k, ops, bufs) == PrependBatch(ops, bufs, MsgLoop(m, eng, msgs[i..], env, k))
    decreases |msgs| - i
  {
    if i == |msgs| {
      assert msgs[i..] == [];
      assert ops + [] == ops && bufs + [] == bufs;
    } else {
      MsgLoopStep(m, eng, msgs, i, env, k, ops, bufs);
      var r := MsgStep(m, eng, msgs[i], env, k);
      if r.ret >= 0 {
        MsgAccIsLoop(m, r.eng, msgs, i + 1, env, r.next, ops + r.ops, bufs + [Fill(msgs[i].buf, r.data)]);
      }
    }
  }

  /** One iteration of the accumulating message loop. */
  lemma MsgAccStep(m: Masks, eng: I2cState, msgs: seq<Msg>, i: nat, env: seq<Event>, k: nat,
                   ops: seq<Access>, bufs: seq<seq<Byte>>)
    requires i < |msgs| && NonEmpty(msgs)
    ensures var r := MsgStep(m, eng, msgs[i], env, k);
            var buf := Fill(msgs[i].buf, r.data);
            MsgAcc(m, eng, msgs, i, env, k, ops, bufs)
            == if r.ret < 0 then Batch(r.ret, ops + r.ops, bufs + [buf] + Bufs(msgs[i + 1..]), r.eng, r.next)
               else MsgAcc(m, r.eng, msgs, i + 1, env, r.next, ops + r.ops, bufs + [buf])
  {
  }

  /** The buffers of a transfer in progress: those of the first `|done|`
      messages are finished, the others untouched. Finishing the next one
      replaces its entry. */
  lemma FinishBuffer(done: seq<seq<Byte>>, msgs: seq<Msg>, buf: seq<Byte>)
    requires |done| < |msgs|
    ensures (done + Bufs(msgs[|done|..]))[|done| := buf] == (done + [buf]) + Bufs(msgs[|done| + 1..])
  {
    var i := |done|;
    var lhs := (done + Bufs(msgs[i..]))[i := buf];
    var rhs := (done + [buf]) + Bufs(msgs[i + 1..]);
    forall j | 0 <= j < |lhs| ensures lhs[j] == rhs[j] {
      if j > i {
        assert Bufs(msgs[i..])[j - i] == msgs[j].buf;
        assert Bufs(msgs[i + 1..])[j - i - 1] == msgs[j].buf;
      }
    }
  }

  /** The accesses a transfer issues before its first message: the
      interrupt unmask and the slave address. */
  function XferPrologue(m: Masks, msgs: seq<Msg>): seq<Access>
    requires |msgs| > 0
  {
    [Update(Mainunit1IntMaskN, IrqEnableBits(m), IrqEnableBits(m)),
     Update(I2cmInterfaceControl0, SlaveField(SlaveAddr(msgs)), m.i2cmSlvAddr)]
  }

  /** A transfer the engine accepts, as the accumulating message loop walks
      it after `log` and the prologue. */
  lemma XferMessages(m: Masks, eng: I2cState, msgs: seq<Msg>, env: seq<Event>, log: seq<Access>)
    requires |msgs| > 0 && !Rejected(msgs)
    ensures var t := Xfer(m, eng, msgs, env);
            var a := MsgAcc(m, eng.(isRegaddr := false, isSegment := false), msgs, 0, env, 0, log + XferPrologue(m, msgs), []);
            && t.ret == (if a.ret == 0 then |msgs| else a.ret)
            && log + t.ops == a.ops + [Update(Mainunit1IntMaskN, 0, Or(m.i2cmOpDoneMaskN, m.i2cmNackRcvdMaskN))]
            && t.bufs == a.bufs && t.eng == a.eng
  {
    var e0 := eng.(isRegaddr := false, isSegment := false);
    var pre := XferPrologue(m, msgs);
    MsgAccIsLoop(m, e0, msgs, 0, env, 0, log + pre, []);
    assert msgs[0..] == msgs;
    var b := MsgLoop(m, e0, msgs, env, 0);
    var fin := Update(Mainunit1IntMaskN, 0, Or(m.i2cmOpDoneMaskN, m.i2cmNackRcvdMaskN));
    assert [] + b.bufs == b.bufs;
    assert log + (pre + b.ops + [fin]) == (log + pre + b.ops) + [fin];
  }
}
