/**
 * Properties of the DDC/I2C transfer engine and of the interrupt status
 * latch, stated over the specification functions of module DdcI2c.
 */
module DdcI2cLemmas {
  import opened Bits
  import opened Registers
  import opened DdcI2c

  // ---------------------------------------------------------------------
  // The cursor and the wait outcomes

  /** The cursor after `t` increments of the byte-wide counter. */
  function Advance(c: Byte, t: nat): Byte
    decreases t
  {
    if t == 0 then c else Advance(Inc8(c), t - 1)
  }

  /** Incrementing the byte-wide cursor is addition modulo 256. */
  lemma {:induction false} AdvanceWraps(c: Byte, t: nat)
    ensures Advance(c, t) == (c + t) % 0x100
    decreases t
  {
    if t > 0 {
      AdvanceWraps(Inc8(c), t - 1);
      assert (Inc8(c) + (t - 1)) % 0x100 == (c + t) % 0x100;
    }
  }

  /** The `n` wait outcomes from position `k` on all complete without a NACK. */
  predicate AllClean(m: Masks, env: seq<Event>, k: nat, n: nat) {
    forall i | k <= i < k + n :: Clean(m, EventAt(env, i))
  }

  lemma AllCleanStep(m: Masks, env: seq<Event>, k: nat, n: nat)
    requires n > 0
    ensures AllClean(m, env, k, n) <==> Clean(m, EventAt(env, k)) && AllClean(m, env, k + 1, n - 1)
  {
  }

  /** The engine state after the wait of one bus byte: the cursor has
      advanced, and a completion has latched its status. */
  function After(eng: I2cState, e: Event): I2cState {
    eng.(slaveReg := Inc8(eng.slaveReg), stat := if e.Done? then e.stat else eng.stat)
  }

  // ---------------------------------------------------------------------
  // The accesses of each bus byte
  //
  // Every bus byte of a loop takes four register accesses, except a
  // failing read byte, which takes three; since a failing byte is the last
  // one, the accesses of the j-th bus byte of a loop start at position 4 * j.

  /** The first two accesses of the j-th bus byte of a read loop that
      started at cursor `c`: the cursor advanced j times goes into the
      I2CM_ADDR field, then the read strobe `s` into the I2CM_WR_MASK field. */
  predicate ReadByteAt(m: Masks, ops: seq<Access>, j: nat, c: Byte, s: Word) {
    && 4 * j + 1 < |ops|
    && ops[4 * j] == Update(I2cmInterfaceControl0, AddrField(Advance(c, j)), m.i2cmAddr)
    && ops[4 * j + 1] == Update(I2cmInterfaceControl0, s, m.i2cmWrMask)
  }

  /** The last two accesses of the j-th read byte when its wait was clean:
      the wait `env[k + j]` completed, the RDDATA value it saw is read back,
      its low byte is the j-th byte stored, and the strobe is cleared. */
  predicate ReadBackAt(m: Masks, ops: seq<Access>, data: seq<Byte>, j: nat, env: seq<Event>, k: nat) {
    && 4 * j + 3 < |ops| && j < |data| && EventAt(env, k + j).Done?
    && ops[4 * j + 2] == Read(I2cmInterfaceRdData03, EventAt(env, k + j).rdData)
    && ops[4 * j + 3] == Update(I2cmInterfaceControl0, 0, m.i2cmWrMask)
    && data[j] == Low8(EventAt(env, k + j).rdData)
  }

  /** The first three accesses of the j-th bus byte of a write loop that
      started at cursor `c`: the data byte `b` goes into WRDATA, the cursor
      advanced j times into the I2CM_ADDR field, and the write strobe into
      the I2CM_WR_MASK field. */
  predicate WriteByteAt(m: Masks, ops: seq<Access>, j: nat, c: Byte, b: Byte) {
    && 4 * j + 2 < |ops|
    && ops[4 * j] == Write(I2cmInterfaceWrData03, b)
    && ops[4 * j + 1] == Update(I2cmInterfaceControl0, AddrField(Advance(c, j)), m.i2cmAddr)
    && ops[4 * j + 2] == Update(I2cmInterfaceControl0, m.i2cmFmWrite, m.i2cmWrMask)
  }

  /** The last access of the j-th write byte when its wait was clean: the
      strobe is cleared. */
  predicate ClearAt(m: Masks, ops: seq<Access>, j: nat) {
    4 * j + 3 < |ops| && ops[4 * j + 3] == Update(I2cmInterfaceControl0, 0, m.i2cmWrMask)
  }

  // ---------------------------------------------------------------------
  // Extending the per-byte facts by one byte in front

  /** The cursor advanced `t + 1` times from `c` is the cursor advanced `t`
      times from `c + 1`. */
  lemma AdvanceSucc(c: Byte, t: nat)
    ensures Advance(c, t + 1) == Advance(Inc8(c), t)
  {
  }

  /** A read byte at cursor `c` with strobe `s`, in front of `t` read bytes
      that start at cursor `c + 1`, gives `t + 1` read bytes from `c`. */
  lemma ReadBytesCons(m: Masks, ops: seq<Access>, rest: seq<Access>, t: nat, c: Byte, c2: Byte, s: Word, s2: Word)
    requires |ops| >= 4 && ops[4..] == rest && c2 == Inc8(c) && s2 == s
    requires ops[0] == Update(I2cmInterfaceControl0, AddrField(c), m.i2cmAddr)
    requires ops[1] == Update(I2cmInterfaceControl0, s, m.i2cmWrMask)
    requires forall j | 0 <= j < t :: ReadByteAt(m, rest, j, c2, s2)
    ensures forall j | 0 <= j < t + 1 :: ReadByteAt(m, ops, j, c, s)
  {
    forall j | 0 <= j < t + 1
      ensures ReadByteAt(m, ops, j, c, s)
    {
      if j > 0 {
        assert ReadByteAt(m, rest, j - 1, c2, s2);
        AdvanceSucc(c, j - 1);
        assert ops[4 * j] == rest[4 * (j - 1)] && ops[4 * j + 1] == rest[4 * (j - 1) + 1];
      }
    }
  }

  /** A clean read byte in front of read-backs that start at wait `k + 1`
      gives read-backs that start at wait `k`. */
  lemma ReadBacksCons(m: Masks, ops: seq<Access>, rest: seq<Access>, data: seq<Byte>, restData: seq<Byte>, env: seq<Event>, k: nat, k1: nat)
    requires |ops| >= 4 && ops[4..] == rest && |data| >= 1 && data[1..] == restData && k1 == k + 1
    requires EventAt(env, k).Done?
    requires ops[2] == Read(I2cmInterfaceRdData03, EventAt(env, k).rdData)
    requires ops[3] == Update(I2cmInterfaceControl0, 0, m.i2cmWrMask)
    requires data[0] == Low8(EventAt(env, k).rdData)
    requires forall j | 0 <= j < |restData| :: ReadBackAt(m, rest, restData, j, env, k1)
    ensures forall j | 0 <= j < |data| :: ReadBackAt(m, ops, data, j, env, k)
  {
    forall j | 0 <= j < |data|
      ensures ReadBackAt(m, ops, data, j, env, k)
    {
      if j > 0 {
        assert ReadBackAt(m, rest, restData, j - 1, env, k1);
        assert k1 + (j - 1) == k + j;
        assert ops[4 * j + 2] == rest[4 * (j - 1) + 2] && ops[4 * j + 3] == rest[4 * (j - 1) + 3];
        assert data[j] == restData[j - 1];
      }
    }
  }

  /** A write byte `b` at cursor `c` in front of write bytes of `tail` that
      start at cursor `c + 1` gives write bytes of `[b] + tail` from `c`. */
  lemma WriteBytesCons(m: Masks, ops: seq<Access>, rest: seq<Access>, bytes: seq<Byte>, tail: seq<Byte>, t: nat, c: Byte, c2: Byte)
    requires |ops| >= 4 && ops[4..] == rest && c2 == Inc8(c)
    requires t + 1 <= |bytes| && bytes[1..] == tail
    requires ops[0] == Write(I2cmInterfaceWrData03, bytes[0])
    requires ops[1] == Update(I2cmInterfaceControl0, AddrField(c), m.i2cmAddr)
    requires ops[2] == Update(I2cmInterfaceControl0, m.i2cmFmWrite, m.i2cmWrMask)
    requires forall j | 0 <= j < t :: WriteByteAt(m, rest, j, c2, tail[j])
    ensures forall j | 0 <= j < t + 1 :: WriteByteAt(m, ops, j, c, bytes[j])
  {
    forall j | 0 <= j < t + 1
      ensures WriteByteAt(m, ops, j, c, bytes[j])
    {
      if j > 0 {
        assert WriteByteAt(m, rest, j - 1, c2, tail[j - 1]);
        AdvanceSucc(c, j - 1);
        assert ops[4 * j] == rest[4 * (j - 1)] && ops[4 * j + 1] == rest[4 * (j - 1) + 1];
        assert ops[4 * j + 2] == rest[4 * (j - 1) + 2];
      }
    }
  }

  /** A clean write byte in front of `u` strobe clears gives `u + 1`. */
  lemma ClearsCons(m: Masks, ops: seq<Access>, rest: seq<Access>, u: nat)
    requires |ops| >= 4 && ops[4..] == rest
    requires ops[3] == Update(I2cmInterfaceControl0, 0, m.i2cmWrMask)
    requires forall j | 0 <= j < u :: ClearAt(m, rest, j)
    ensures forall j | 0 <= j < u + 1 :: ClearAt(m, ops, j)
  {
    forall j | 0 <= j < u + 1
      ensures ClearAt(m, ops, j)
    {
      if j > 0 {
        assert ClearAt(m, rest, j - 1);
        assert ops[4 * j + 3] == rest[4 * (j - 1) + 3];
      }
    }
  }

  // ---------------------------------------------------------------------
  // Read loops

  /** The read loop when the wait of its first bus byte is not clean: the
      byte's two accesses and the reset, and nothing more. */
  lemma ReadLoopFails(m: Masks, eng: I2cState, n: nat, env: seq<Event>, k: nat)
    requires n > 0 && !Clean(m, EventAt(env, k))
    ensures var r := ReadLoop(m, eng, n, env, k);
            var e := EventAt(env, k);
            && |r.ops| == 3
            && r.ops[0] == Update(I2cmInterfaceControl0, AddrField(eng.slaveReg), m.i2cmAddr)
            && r.ops[1] == Update(I2cmInterfaceControl0, ReadStrobe(m, eng.isSegment), m.i2cmWrMask)
            && r.ops[2] == ResetOp()
            && r.ret == (if e.Timeout? then -EAGAIN else -EIO)
            && |r.data| == 0 && r.next == k + 1 && r.eng == After(eng, e)
  {
  }

  /** The read loop when the wait of its first bus byte is clean: the
      byte's four accesses, followed by those of the rest of the loop. */
  lemma ReadLoopCleanOps(m: Masks, eng: I2cState, n: nat, env: seq<Event>, k: nat)
    requires n > 0 && Clean(m, EventAt(env, k))
    ensures var r := ReadLoop(m, eng, n, env, k);
            var e := EventAt(env, k);
            var rest := ReadLoop(m, After(eng, e), n - 1, env, k + 1);
            && |r.ops| >= 4
            && r.ops[0] == Update(I2cmInterfaceControl0, AddrField(eng.slaveReg), m.i2cmAddr)
            && r.ops[1] == Update(I2cmInterfaceControl0, ReadStrobe(m, eng.isSegment), m.i2cmWrMask)
            && r.ops[2] == Read(I2cmInterfaceRdData03, e.rdData)
            && r.ops[3] == Update(I2cmInterfaceControl0, 0, m.i2cmWrMask)
            && r.ops[4..] == rest.ops
            && r.ret == rest.ret && r.next == rest.next
  {
  }

  /** The same for the bytes stored and the state afterwards: the byte's
      data byte comes first, and the rest of the loop decides everything else. */
  lemma ReadLoopCleanRest(m: Masks, eng: I2cState, n: nat, env: seq<Event>, k: nat)
    requires n > 0 && Clean(m, EventAt(env, k))
    ensures var r := ReadLoop(m, eng, n, env, k);
            var e := EventAt(env, k);
            var rest := ReadLoop(m, After(eng, e), n - 1, env, k + 1);
            && |r.data| >= 1 && r.data[0] == Low8(e.rdData) && r.data[1..] == rest.data
            && r.ret == rest.ret && r.next == rest.next && r.eng == rest.eng
  {
  }

  /** The same for the state afterwards alone. */
  lemma ReadLoopCleanEnd(m: Masks, eng: I2cState, n: nat, env: seq<Event>, k: nat)
    requires n > 0 && Clean(m, EventAt(env, k))
    ensures var r := ReadLoop(m, eng, n, env, k);
            var rest := ReadLoop(m, After(eng, EventAt(env, k)), n - 1, env, k + 1);
            r.ret == rest.ret && r.next == rest.next && r.eng == rest.eng
  {
  }

  /** Four accesses in front of a run of `4 * t - d` accesses that ends at
      wait `next` make four accesses per wait from `k` on, less `d`. */
  lemma LengthCons(ops: seq<Access>, rest: seq<Access>, k: nat, next: nat, d: int)
    requires |ops| >= 4 && ops[4..] == rest && k + 1 <= next && |rest| == 4 * (next - (k + 1)) - d
    ensures |ops| == 4 * (next - k) - d
  {
  }

  /** A read loop takes four accesses per attempted bus byte, one fewer when
      it fails. */
  lemma {:induction false} ReadLoopLength(m: Masks, eng: I2cState, n: nat, env: seq<Event>, k: nat)
    ensures var r := ReadLoop(m, eng, n, env, k);
            |r.ops| == (if r.ret == 0 then 4 * (r.next - k) else 4 * (r.next - k) - 1)
    decreases n, 1
  {
    if n > 0 {
      if Clean(m, EventAt(env, k)) {
        ReadLoopLengthStep(m, eng, n, env, k);
      } else {
        ReadLoopFails(m, eng, n, env, k);
      }
    }
  }

  /** The inductive step of ReadLoopLength, for a clean first wait. */
  lemma {:induction false} ReadLoopLengthStep(m: Masks, eng: I2cState, n: nat, env: seq<Event>, k: nat)
    requires n > 0 && Clean(m, EventAt(env, k))
    ensures var r := ReadLoop(m, eng, n, env, k);
            |r.ops| == (if r.ret == 0 then 4 * (r.next - k) else 4 * (r.next - k) - 1)
    decreases n, 0
  {
    var e := EventAt(env, k);
    var rest := ReadLoop(m, After(eng, e), n - 1, env, k + 1);
    ReadLoopCleanOps(m, eng, n, env, k);
    ReadLoopLength(m, After(eng, e), n - 1, env, k + 1);
    LengthCons(ReadLoop(m, eng, n, env, k).ops, rest.ops, k, rest.next, if rest.ret == 0 then 0 else 1);
  }

  /** Every attempted bus byte of a read loop programs the cursor advanced
      once per earlier byte, and issues the strobe of the loop's mode. */
  lemma {:induction false} ReadLoopBytes(m: Masks, eng: I2cState, n: nat, env: seq<Event>, k: nat)
    ensures var r := ReadLoop(m, eng, n, env, k);
            forall j | 0 <= j < r.next - k :: ReadByteAt(m, r.ops, j, eng.slaveReg, ReadStrobe(m, eng.isSegment))
    decreases n, 1
  {
    if n > 0 {
      if Clean(m, EventAt(env, k)) {
        ReadLoopBytesStep(m, eng, n, env, k);
      } else {
        var r := ReadLoop(m, eng, n, env, k);
        ReadLoopFails(m, eng, n, env, k);
        assert ReadByteAt(m, r.ops, 0, eng.slaveReg, ReadStrobe(m, eng.isSegment));
      }
    }
  }

  /** The inductive step of ReadLoopBytes, for a clean first wait. */
  lemma {:induction false} ReadLoopBytesStep(m: Masks, eng: I2cState, n: nat, env: seq<Event>, k: nat)
    requires n > 0 && Clean(m, EventAt(env, k))
    ensures var r := ReadLoop(m, eng, n, env, k);
            forall j | 0 <= j < r.next - k :: ReadByteAt(m, r.ops, j, eng.slaveReg, ReadStrobe(m, eng.isSegment))
    decreases n, 0
  {
    var e := EventAt(env, k);
    var r := ReadLoop(m, eng, n, env, k);
    var eng2 := After(eng, e);
    var rest := ReadLoop(m, eng2, n - 1, env, k + 1);
    ReadLoopCleanOps(m, eng, n, env, k);
    ReadLoopBytes(m, eng2, n - 1, env, k + 1);
    ReadBytesCons(m, r.ops, rest.ops, rest.next - (k + 1), eng.slaveReg, eng2.slaveReg,
                  ReadStrobe(m, eng.isSegment), ReadStrobe(m, eng2.isSegment));
  }

  /** Every byte a read loop stores is the low byte of RDDATA after the
      wait of its bus byte, which the loop reads back before clearing the
      strobe. */
  lemma {:induction false} ReadLoopReadBacks(m: Masks, eng: I2cState, n: nat, env: seq<Event>, k: nat)
    ensures var r := ReadLoop(m, eng, n, env, k);
            forall j | 0 <= j < |r.data| :: ReadBackAt(m, r.ops, r.data, j, env, k)
    decreases n, 1
  {
    if n > 0 {
      if Clean(m, EventAt(env, k)) {
        ReadLoopReadBacksStep(m, eng, n, env, k);
      } else {
        ReadLoopFails(m, eng, n, env, k);
      }
    }
  }

  /** The inductive step of ReadLoopReadBacks, for a clean first wait. */
  lemma {:induction false} ReadLoopReadBacksStep(m: Masks, eng: I2cState, n: nat, env: seq<Event>, k: nat)
    requires n > 0 && Clean(m, EventAt(env, k))
    ensures var r := ReadLoop(m, eng, n, env, k);
            forall j | 0 <= j < |r.data| :: ReadBackAt(m, r.ops, r.data, j, env, k)
    decreases n, 0
  {
    var r := ReadLoop(m, eng, n, env, k);
    var eng2 := After(eng, EventAt(env, k));
    var rest := ReadLoop(m, eng2, n - 1, env, k + 1);
    ReadLoopCleanOps(m, eng, n, env, k);
    ReadLoopCleanRest(m, eng, n, env, k);
    ReadLoopReadBacks(m, eng2, n - 1, env, k + 1);
    ReadBacksCons(m, r.ops, rest.ops, r.data, rest.data, env, k, k + 1);
  }

  /** A cursor that ends advanced `next - (k + 1)` times from `c + 1` ends
      advanced `next - k` times from `c`. */
  lemma CursorCons(c: Byte, c2: Byte, k: nat, next: nat, end: Byte)
    requires c2 == Inc8(c) && k + 1 <= next && end == Advance(c2, next - (k + 1))
    ensures end == Advance(c, next - k)
  {
    AdvanceSucc(c, next - (k + 1));
  }

  /** The cursor ends advanced once per attempted bus byte. */
  lemma {:induction false} ReadLoopCursorEnd(m: Masks, eng: I2cState, n: nat, env: seq<Event>, k: nat)
    ensures var r := ReadLoop(m, eng, n, env, k);
            r.eng.slaveReg == Advance(eng.slaveReg, r.next - k)
    decreases n, 1
  {
    if n > 0 {
      if Clean(m, EventAt(env, k)) {
        ReadLoopCursorEndStep(m, eng, n, env, k);
      } else {
        ReadLoopFails(m, eng, n, env, k);
        AdvanceSucc(eng.slaveReg, 0);
      }
    }
  }

  /** The inductive step of ReadLoopCursorEnd, for a clean first wait. */
  lemma {:induction false} ReadLoopCursorEndStep(m: Masks, eng: I2cState, n: nat, env: seq<Event>, k: nat)
    requires n > 0 && Clean(m, EventAt(env, k))
    ensures var r := ReadLoop(m, eng, n, env, k);
            r.eng.slaveReg == Advance(eng.slaveReg, r.next - k)
    decreases n, 0
  {
    var e := EventAt(env, k);
    var eng2 := After(eng, e);
    var rest := ReadLoop(m, eng2, n - 1, env, k + 1);
    ReadLoopCleanEnd(m, eng, n, env, k);
    ReadLoopCursorEnd(m, eng2, n - 1, env, k + 1);
    CursorCons(eng.slaveReg, eng2.slaveReg, k, rest.next, rest.eng.slaveReg);
  }

  /** A byte loop of `n` bytes that attempted `t` bus bytes succeeds
      exactly when all `n` waits complete without a NACK; otherwise it fails
      at its last attempted byte, the first whose wait is not clean, with
      -EAGAIN for a timeout and -EIO for a NACK. */
  predicate LoopVerdict(m: Masks, env: seq<Event>, k: nat, n: nat, ret: int, t: int) {
    && (ret == 0 <==> AllClean(m, env, k, n))
    && (ret != 0 ==> 0 < t <= n && AllClean(m, env, k, t - 1) && !Clean(m, EventAt(env, k + t - 1))
                     && (ret == -EAGAIN <==> EventAt(env, k + t - 1).Timeout?))
  }

  /** A clean wait in front of a loop verdict from wait `k + 1` on. */
  lemma VerdictCons(m: Masks, env: seq<Event>, k: nat, n: nat, ret: int, t: int, t1: int)
    requires n > 0 && Clean(m, EventAt(env, k)) && t1 == t - 1
    requires LoopVerdict(m, env, k + 1, n - 1, ret, t1)
    ensures LoopVerdict(m, env, k, n, ret, t)
  {
    AllCleanStep(m, env, k, n);
    if ret != 0 {
      AllCleanStep(m, env, k, t);
      assert k + t - 1 == (k + 1) + t1 - 1;
    }
  }

  /** The verdict of a read loop is decided by its first wait that is not clean. */
  lemma {:induction false} ReadLoopOutcome(m: Masks, eng: I2cState, n: nat, env: seq<Event>, k: nat)
    ensures var r := ReadLoop(m, eng, n, env, k);
            LoopVerdict(m, env, k, n, r.ret, r.next - k)
    decreases n, 1
  {
    if n > 0 {
      if Clean(m, EventAt(env, k)) {
        ReadLoopOutcomeStep(m, eng, n, env, k);
      } else {
        AllCleanStep(m, env, k, n);
        ReadLoopFails(m, eng, n, env, k);
      }
    }
  }

  /** The inductive step of ReadLoopOutcome, for a clean first wait. */
  lemma {:induction false} ReadLoopOutcomeStep(m: Masks, eng: I2cState, n: nat, env: seq<Event>, k: nat)
    requires n > 0 && Clean(m, EventAt(env, k))
    ensures var r := ReadLoop(m, eng, n, env, k);
            LoopVerdict(m, env, k, n, r.ret, r.next - k)
    decreases n, 0
  {
    var e := EventAt(env, k);
    ReadLoopCleanEnd(m, eng, n, env, k);
    var eng2 := After(eng, e);
    var rest := ReadLoop(m, eng2, n - 1, env, k + 1);
    ReadLoopOutcome(m, eng2, n - 1, env, k + 1);
    VerdictCons(m, env, k, n, rest.ret, rest.next - k, rest.next - (k + 1));
  }

  // ---------------------------------------------------------------------
  // Write loops

  /** The write loop when the wait of its first bus byte is not clean: the
      byte's three accesses and the reset, and nothing more. */
  lemma WriteLoopFails(m: Masks, eng: I2cState, bytes: seq<Byte>, env: seq<Event>, k: nat)
    requires |bytes| > 0 && !Clean(m, EventAt(env, k))
    ensures var r := WriteLoop(m, eng, bytes, env, k);
            var e := EventAt(env, k);
            && |r.ops| == 4
            && r.ops[0] == Write(I2cmInterfaceWrData03, bytes[0])
            && r.ops[1] == Update(I2cmInterfaceControl0, AddrField(eng.slaveReg), m.i2cmAddr)
            && r.ops[2] == Update(I2cmInterfaceControl0, m.i2cmFmWrite, m.i2cmWrMask)
            && r.ops[3] == ResetOp()
            && r.ret == (if e.Timeout? then -EAGAIN else -EIO)
            && r.next == k + 1 && r.eng == After(eng, e)
  {
  }

  /** The write loop when the wait of its first bus byte is clean: the
      byte's four accesses, followed by the rest of the loop. */
  lemma WriteLoopClean(m: Masks, eng: I2cState, bytes: seq<Byte>, env: seq<Event>, k: nat)
    requires |bytes| > 0 && Clean(m, EventAt(env, k))
    ensures var r := WriteLoop(m, eng, bytes, env, k);
            var rest := WriteLoop(m, After(eng, EventAt(env, k)), bytes[1..], env, k + 1);
            && |r.ops| >= 4
            && r.ops[0] == Write(I2cmInterfaceWrData03, bytes[0])
            && r.ops[1] == Update(I2cmInterfaceControl0, AddrField(eng.slaveReg), m.i2cmAddr)
            && r.ops[2] == Update(I2cmInterfaceControl0, m.i2cmFmWrite, m.i2cmWrMask)
            && r.ops[3] == Update(I2cmInterfaceControl0, 0, m.i2cmWrMask)
            && r.ops[4..] == rest.ops
            && r.ret == rest.ret && r.next == rest.next && r.eng == rest.eng
  {
  }

  /** A write loop takes four accesses per attempted bus byte. */
  lemma {:induction false} WriteLoopLength(m: Masks, eng: I2cState, bytes: seq<Byte>, env: seq<Event>, k: nat)
    ensures var r := WriteLoop(m, eng, bytes, env, k);
            |r.ops| == 4 * (r.next - k)
    decreases |bytes|, 1
  {
    if |bytes| > 0 {
      if Clean(m, EventAt(env, k)) {
        WriteLoopLengthStep(m, eng, bytes, env, k);
      } else {
        WriteLoopFails(m, eng, bytes, env, k);
      }
    }
  }

  /** The inductive step of WriteLoopLength, for a clean first wait. */
  lemma {:induction false} WriteLoopLengthStep(m: Masks, eng: I2cState, bytes: seq<Byte>, env: seq<Event>, k: nat)
    requires |bytes| > 0 && Clean(m, EventAt(env, k))
    ensures var r := WriteLoop(m, eng, bytes, env, k);
            |r.ops| == 4 * (r.next - k)
    decreases |bytes|, 0
  {
    var e := EventAt(env, k);
    var rest := WriteLoop(m, After(eng, e), bytes[1..], env, k + 1);
    WriteLoopClean(m, eng, bytes, env, k);
    WriteLoopLength(m, After(eng, e), bytes[1..], env, k + 1);
    LengthCons(WriteLoop(m, eng, bytes, env, k).ops, rest.ops, k, rest.next, 0);
  }

  /** The j-th attempted bus byte of a write loop puts the j-th byte on the
      bus at the cursor advanced once per earlier byte. */
  lemma {:induction false} WriteLoopBytes(m: Masks, eng: I2cState, bytes: seq<Byte>, env: seq<Event>, k: nat)
    ensures var r := WriteLoop(m, eng, bytes, env, k);
            forall j | 0 <= j < r.next - k :: WriteByteAt(m, r.ops, j, eng.slaveReg, bytes[j])
    decreases |bytes|, 1
  {
    if |bytes| > 0 {
      if Clean(m, EventAt(env, k)) {
        WriteLoopBytesStep(m, eng, bytes, env, k);
      } else {
        var r := WriteLoop(m, eng, bytes, env, k);
        WriteLoopFails(m, eng, bytes, env, k);
        assert WriteByteAt(m, r.ops, 0, eng.slaveReg, bytes[0]);
      }
    }
  }

  /** The inductive step of WriteLoopBytes, for a clean first wait. */
  lemma {:induction false} WriteLoopBytesStep(m: Masks, eng: I2cState, bytes: seq<Byte>, env: seq<Event>, k: nat)
    requires |bytes| > 0 && Clean(m, EventAt(env, k))
    ensures var r := WriteLoop(m, eng, bytes, env, k);
            forall j | 0 <= j < r.next - k :: WriteByteAt(m, r.ops, j, eng.slaveReg, bytes[j])
    decreases |bytes|, 0
  {
    var e := EventAt(env, k);
    var r := WriteLoop(m, eng, bytes, env, k);
    var eng2 := After(eng, e);
    var rest := WriteLoop(m, eng2, bytes[1..], env, k + 1);
    WriteLoopClean(m, eng, bytes, env, k);
    WriteLoopBytes(m, eng2, bytes[1..], env, k + 1);
    WriteBytesCons(m, r.ops, rest.ops, bytes, bytes[1..], rest.next - (k + 1), eng.slaveReg, eng2.slaveReg);
  }

  /** Every bus byte of a write loop but a failing last one ends by clearing
      the strobe. */
  lemma {:induction false} WriteLoopClears(m: Masks, eng: I2cState, bytes: seq<Byte>, env: seq<Event>, k: nat)
    ensures var r := WriteLoop(m, eng, bytes, env, k);
            forall j | 0 <= j < (if r.ret == 0 then r.next - k else r.next - k - 1) :: ClearAt(m, r.ops, j)
    decreases |bytes|, 1
  {
    if |bytes| > 0 {
      if Clean(m, EventAt(env, k)) {
        WriteLoopClearsStep(m, eng, bytes, env, k);
      } else {
        var r := WriteLoop(m, eng, bytes, env, k);
        WriteLoopFails(m, eng, bytes, env, k);
      }
    }
  }

  /** The inductive step of WriteLoopClears, for a clean first wait. */
  lemma {:induction false} WriteLoopClearsStep(m: Masks, eng: I2cState, bytes: seq<Byte>, env: seq<Event>, k: nat)
    requires |bytes| > 0 && Clean(m, EventAt(env, k))
    ensures var r := WriteLoop(m, eng, bytes, env, k);
            forall j | 0 <= j < (if r.ret == 0 then r.next - k else r.next - k - 1) :: ClearAt(m, r.ops, j)
    decreases |bytes|, 0
  {
    var e := EventAt(env, k);
    var r := WriteLoop(m, eng, bytes, env, k);
    var eng2 := After(eng, e);
    var rest := WriteLoop(m, eng2, bytes[1..], env, k + 1);
    WriteLoopClean(m, eng, bytes, env, k);
    WriteLoopClears(m, eng2, bytes[1..], env, k + 1);
    ClearsCons(m, r.ops, rest.ops, if rest.ret == 0 then rest.next - (k + 1) else rest.next - (k + 1) - 1);
  }

  /** The cursor ends advanced once per attempted bus byte. */
  lemma {:induction false} WriteLoopCursorEnd(m: Masks, eng: I2cState, bytes: seq<Byte>, env: seq<Event>, k: nat)
    ensures var r := WriteLoop(m, eng, bytes, env, k);
            r.eng.slaveReg == Advance(eng.slaveReg, r.next - k)
    decreases |bytes|, 1
  {
    if |bytes| > 0 {
      if Clean(m, EventAt(env, k)) {
        WriteLoopCursorEndStep(m, eng, bytes, env, k);
      } else {
        WriteLoopFails(m, eng, bytes, env, k);
        AdvanceSucc(eng.slaveReg, 0);
      }
    }
  }

  /** The inductive step of WriteLoopCursorEnd, for a clean first wait. */
  lemma {:induction false} WriteLoopCursorEndStep(m: Masks, eng: I2cState, bytes: seq<Byte>, env: seq<Event>, k: nat)
    requires |bytes| > 0 && Clean(m, EventAt(env, k))
    ensures var r := WriteLoop(m, eng, bytes, env, k);
            r.eng.slaveReg == Advance(eng.slaveReg, r.next - k)
    decreases |bytes|, 0
  {
    var e := EventAt(env, k);
    var eng2 := After(eng, e);
    var rest := WriteLoop(m, eng2, bytes[1..], env, k + 1);
    WriteLoopClean(m, eng, bytes, env, k);
    WriteLoopCursorEnd(m, eng2, bytes[1..], env, k + 1);
    CursorCons(eng.slaveReg, eng2.slaveReg, k, rest.next, rest.eng.slaveReg);
  }

  /** The verdict of a write loop is decided by its first wait that is not clean. */
  lemma {:induction false} WriteLoopOutcome(m: Masks, eng: I2cState, bytes: seq<Byte>, env: seq<Event>, k: nat)
    ensures var r := WriteLoop(m, eng, bytes, env, k);
            LoopVerdict(m, env, k, |bytes|, r.ret, r.next - k)
    decreases |bytes|, 1
  {
    if |bytes| > 0 {
      if Clean(m, EventAt(env, k)) {
        WriteLoopOutcomeStep(m, eng, bytes, env, k);
      } else {
        AllCleanStep(m, env, k, |bytes|);
        WriteLoopFails(m, eng, bytes, env, k);
      }
    }
  }

  /** The inductive step of WriteLoopOutcome, for a clean first wait. */
  lemma {:induction false} WriteLoopOutcomeStep(m: Masks, eng: I2cState, bytes: seq<Byte>, env: seq<Event>, k: nat)
    requires |bytes| > 0 && Clean(m, EventAt(env, k))
    ensures var r := WriteLoop(m, eng, bytes, env, k);
            LoopVerdict(m, env, k, |bytes|, r.ret, r.next - k)
    decreases |bytes|, 0
  {
    var e := EventAt(env, k);
    WriteLoopClean(m, eng, bytes, env, k);
    var eng2 := After(eng, e);
    var rest := WriteLoop(m, eng2, bytes[1..], env, k + 1);
    WriteLoopOutcome(m, eng2, bytes[1..], env, k + 1);
    VerdictCons(m, env, k, |bytes|, rest.ret, rest.next - k, rest.next - (k + 1));
  }

  // ---------------------------------------------------------------------
  // Messages

  /** A read message without an established register address starts at
      register 0; with one it continues at the cursor. Every bus byte of it
      uses the extended-read strobe exactly when a segment pointer was set up
      before it. A completed read leaves the register address established
      and the extended-read mode off; a failed one leaves the mode as it was. */
  lemma ReadMsgCursor(m: Masks, eng: I2cState, n: nat, env: seq<Event>, k: nat)
    ensures var r := I2cRead(m, eng, n, env, k);
            var start := if eng.isRegaddr then eng.slaveReg else 0;
            && (forall j | 0 <= j < r.next - k :: ReadByteAt(m, r.ops, j, start, ReadStrobe(m, eng.isSegment)))
            && (forall j | 0 <= j < |r.data| :: ReadBackAt(m, r.ops, r.data, j, env, k))
            && r.eng.slaveReg == Advance(start, r.next - k)
            && (r.ret == 0 ==> !r.eng.isSegment)
            && (r.ret != 0 ==> r.eng.isSegment == eng.isSegment)
  {
    var eng0 := if !eng.isRegaddr then eng.(slaveReg := 0, isRegaddr := true) else eng;
    ReadLoopBytes(m, eng0, n, env, k);
    ReadLoopReadBacks(m, eng0, n, env, k);
    ReadLoopCursorEnd(m, eng0, n, env, k);
  }

  /** A write message without an established register address uses its
      first byte as the cursor and sends only the remaining `len - 1` bytes;
      with one, all its bytes are data, starting at the cursor. */
  lemma WriteMsgCursor(m: Masks, eng: I2cState, buf: seq<Byte>, env: seq<Event>, k: nat)
    requires |buf| > 0
    ensures var r := I2cWrite(m, eng, buf, env, k);
            var start := if eng.isRegaddr then eng.slaveReg else buf[0];
            var data := if eng.isRegaddr then buf else buf[1..];
            && r.next - k <= |data|
            && (forall j | 0 <= j < r.next - k :: WriteByteAt(m, r.ops, j, start, data[j]))
            && r.eng.slaveReg == Advance(start, r.next - k)
  {
    var e := if !eng.isRegaddr then eng.(slaveReg := buf[0], isRegaddr := true) else eng;
    var data := if eng.isRegaddr then buf else buf[1..];
    WriteLoopBytes(m, e, data, env, k);
    WriteLoopCursorEnd(m, e, data, env, k);
  }

  /** A segment-pointer message puts nothing on the bus: it writes the
      segment address and the pointer into I2CM_INTERFACE_CONTROL1 and turns
      the extended-read mode on. */
  lemma SegmentMsgSetsPointer(m: Masks, eng: I2cState, msg: Msg, env: seq<Event>, k: nat)
    requires SegmentMsg(msg)
    ensures var r := MsgStep(m, eng, msg, env, k);
            && r.ret == 0 && r.next == k && |r.data| == 0
            && |r.ops| == 2
            && r.ops[0] == Update(I2cmInterfaceControl1, DDC_SEGMENT_ADDR, m.i2cmSegAddr)
            && r.ops[1] == Update(I2cmInterfaceControl1, SegPtrField(msg.buf[0]), m.i2cmSegPtr)
            && r.eng == eng.(isSegment := true)
  {
  }

  // ---------------------------------------------------------------------
  // Register footprint

  lemma OnlyI2cmConcat(a: seq<Access>, b: seq<Access>)
    requires OnlyI2cm(a) && OnlyI2cm(b)
    ensures OnlyI2cm(a + b)
  {
    forall i | 0 <= i < |a + b| ensures IsI2cmReg((a + b)[i].reg) {
      if i >= |a| {
        assert (a + b)[i] == b[i - |a|];
      }
    }
  }

  /** A read loop touches only the registers of the I2C master. */
  lemma {:induction false} ReadLoopOnlyI2cm(m: Masks, eng: I2cState, n: nat, env: seq<Event>, k: nat)
    ensures OnlyI2cm(ReadLoop(m, eng, n, env, k).ops)
    decreases n
  {
    if n > 0 && Clean(m, EventAt(env, k)) {
      var eng2 := eng.(slaveReg := Inc8(eng.slaveReg), stat := EventAt(env, k).stat);
      ReadLoopOnlyI2cm(m, eng2, n - 1, env, k + 1);
      var pre := [Update(I2cmInterfaceControl0, AddrField(eng.slaveReg), m.i2cmAddr),
                  Update(I2cmInterfaceControl0, ReadStrobe(m, eng.isSegment), m.i2cmWrMask),
                  Read(I2cmInterfaceRdData03, EventAt(env, k).rdData),
                  Update(I2cmInterfaceControl0, 0, m.i2cmWrMask)];
      OnlyI2cmConcat(pre, ReadLoop(m, eng2, n - 1, env, k + 1).ops);
    }
  }

  /** A write loop touches only the registers of the I2C master. */
  lemma {:induction false} WriteLoopOnlyI2cm(m: Masks, eng: I2cState, bytes: seq<Byte>, env: seq<Event>, k: nat)
    ensures OnlyI2cm(WriteLoop(m, eng, bytes, env, k).ops)
    decreases |bytes|
  {
    if |bytes| > 0 && Clean(m, EventAt(env, k)) {
      var eng2 := eng.(slaveReg := Inc8(eng.slaveReg), stat := EventAt(env, k).stat);
      WriteLoopOnlyI2cm(m, eng2, bytes[1..], env, k + 1);
      var pre := [Write(I2cmInterfaceWrData03, bytes[0]),
                  Update(I2cmInterfaceControl0, AddrField(eng.slaveReg), m.i2cmAddr),
                  Update(I2cmInterfaceControl0, m.i2cmFmWrite, m.i2cmWrMask),
                  Update(I2cmInterfaceControl0, 0, m.i2cmWrMask)];
      OnlyI2cmConcat(pre, WriteLoop(m, eng2, bytes[1..], env, k + 1).ops);
    }
  }

  lemma MsgStepOnlyI2cm(m: Masks, eng: I2cState, msg: Msg, env: seq<Event>, k: nat)
    requires |msg.buf| > 0
    ensures OnlyI2cm(MsgStep(m, eng, msg, env, k).ops)
  {
    if SegmentMsg(msg) {
    } else if msg.isRead {
      var eng0 := if !eng.isRegaddr then eng.(slaveReg := 0, isRegaddr := true) else eng;
      ReadLoopOnlyI2cm(m, eng0, |msg.buf|, env, k);
    } else if !eng.isRegaddr {
      WriteLoopOnlyI2cm(m, eng.(slaveReg := msg.buf[0], isRegaddr := true), msg.buf[1..], env, k);
    } else {
      WriteLoopOnlyI2cm(m, eng, msg.buf, env, k);
    }
  }

  /** The messages of a transfer touch only the registers of the I2C master. */
  lemma {:induction false} MsgLoopOnlyI2cm(m: Masks, eng: I2cState, msgs: seq<Msg>, env: seq<Event>, k: nat)
    requires NonEmpty(msgs)
    ensures OnlyI2cm(MsgLoop(m, eng, msgs, env, k).ops)
    decreases |msgs|
  {
    if msgs != [] {
      var r := MsgStep(m, eng, msgs[0], env, k);
      MsgStepOnlyI2cm(m, eng, msgs[0], env, k);
      if r.ret >= 0 {
        MsgLoopOnlyI2cm(m, r.eng, msgs[1..], env, r.next);
        OnlyI2cmConcat(r.ops, MsgLoop(m, r.eng, msgs[1..], env, r.next).ops);
      }
    }
  }

  /** Between unmasking and masking its interrupts, a transfer never
      touches MAINUNIT_1_INT_MASK_N. */
  lemma XferLeavesMaskAlone(m: Masks, eng: I2cState, msgs: seq<Msg>, env: seq<Event>)
    requires |msgs| > 0 && !Rejected(msgs)
    ensures var t := Xfer(m, eng, msgs, env);
            Untouched(t.ops[1..|t.ops| - 1], Mainunit1IntMaskN)
  {
    var e0 := eng.(isRegaddr := false, isSegment := false);
    var b := MsgLoop(m, e0, msgs, env, 0);
    MsgLoopOnlyI2cm(m, e0, msgs, env, 0);
    XferFrame(m, eng, msgs, env);
    var t := Xfer(m, eng, msgs, env);
    assert t.ops[1..|t.ops| - 1] == [Update(I2cmInterfaceControl0, SlaveField(SlaveAddr(msgs)), m.i2cmSlvAddr)] + b.ops;
  }

  /** The buffers after a transfer's messages: every buffer keeps its
      length, and only read messages (not segment pointers) change theirs. */
  lemma {:induction false} MsgLoopBufs(m: Masks, eng: I2cState, msgs: seq<Msg>, env: seq<Event>, k: nat, i: nat)
    requires NonEmpty(msgs) && i < |msgs|
    ensures var b := MsgLoop(m, eng, msgs, env, k);
            && |b.bufs[i]| == |msgs[i].buf|
            && (!msgs[i].isRead || SegmentMsg(msgs[i]) ==> b.bufs[i] == msgs[i].buf)
    decreases |msgs|
  {
    var r := MsgStep(m, eng, msgs[0], env, k);
    if i > 0 {
      if r.ret >= 0 {
        MsgLoopBufs(m, r.eng, msgs[1..], env, r.next, i - 1);
      } else {
        assert Bufs(msgs[1..])[i - 1] == msgs[1..][i - 1].buf;
      }
    }
  }

  // ---------------------------------------------------------------------
  // Transfers

  lemma NonEmptyConcat(a: seq<Msg>, b: seq<Msg>)
    requires NonEmpty(a) && NonEmpty(b)
    ensures NonEmpty(a + b)
  {
    forall i | 0 <= i < |a + b| ensures |(a + b)[i].buf| > 0 {
      if i >= |a| {
        assert (a + b)[i] == b[i - |a|];
      }
    }
  }

  lemma BufsConcat(a: seq<Msg>, b: seq<Msg>)
    ensures Bufs(a + b) == Bufs(a) + Bufs(b)
  {
    assert forall i | 0 <= i < |a + b| :: Bufs(a + b)[i] == (Bufs(a) + Bufs(b))[i];
  }

  lemma ConsConcat<T>(x: T, a: seq<T>, b: seq<T>, c: seq<T>)
    requires c == a + b
    ensures [x] + c == ([x] + a) + b
  {
  }

  /** A transfer stops at its first failing message: appending further
      messages to a failing batch changes neither its return value nor its
      register accesses, and leaves the appended buffers as they were. */
  lemma {:induction false} MsgLoopStopsAtFailure(m: Masks, eng: I2cState, msgs: seq<Msg>, more: seq<Msg>, env: seq<Event>, k: nat)
    requires NonEmpty(msgs) && NonEmpty(more)
    requires MsgLoop(m, eng, msgs, env, k).ret < 0
    ensures NonEmpty(msgs + more)
    ensures var b := MsgLoop(m, eng, msgs, env, k);
            var b' := MsgLoop(m, eng, msgs + more, env, k);
            b'.ret == b.ret && b'.ops == b.ops && b'.bufs == b.bufs + Bufs(more) && b'.eng == b.eng
    decreases |msgs|
  {
    var all := msgs + more;
    NonEmptyConcat(msgs, more);
    assert all[0] == msgs[0];
    assert all[1..] == msgs[1..] + more;
    var r := MsgStep(m, eng, msgs[0], env, k);
    var buf0 := Fill(msgs[0].buf, r.data);
    if r.ret < 0 {
      BufsConcat(msgs[1..], more);
      ConsConcat(buf0, Bufs(msgs[1..]), Bufs(more), Bufs(all[1..]));
    } else {
      MsgLoopStopsAtFailure(m, r.eng, msgs[1..], more, env, r.next);
      var rest := MsgLoop(m, r.eng, msgs[1..], env, r.next);
      var rest' := MsgLoop(m, r.eng, all[1..], env, r.next);
      ConsConcat(buf0, rest.bufs, Bufs(more), rest'.bufs);
    }
  }

  /** The same for whole transfers. */
  lemma XferStopsAtFailure(m: Masks, eng: I2cState, msgs: seq<Msg>, more: seq<Msg>, env: seq<Event>)
    requires |msgs| > 0 && NonEmpty(more)
    requires Xfer(m, eng, msgs, env).ret == -EAGAIN || Xfer(m, eng, msgs, env).ret == -EIO
    ensures var t := Xfer(m, eng, msgs, env);
            var t' := Xfer(m, eng, msgs + more, env);
            t'.ret == t.ret && t'.ops == t.ops && t'.bufs == t.bufs + Bufs(more)
  {
    var all := msgs + more;
    assert all[0] == msgs[0];
    assert !Rejected(msgs);
    MsgLoopStopsAtFailure(m, eng.(isRegaddr := false, isSegment := false), msgs, more, env, 0);
    assert !Rejected(all);
  }

  /** After any accepted transfer, on every path, the OP_DONE and NACK
      interrupt-enable bits of MAINUNIT_1_INT_MASK_N are clear again and its
      other bits are as before. */
  lemma XferMasksInterruptsAfter(m: Masks, eng: I2cState, msgs: seq<Msg>, env: seq<Event>, regs: map<Reg, Word>)
    requires |msgs| > 0 && !Rejected(msgs)
    ensures var after := Value(Apply(regs, Xfer(m, eng, msgs, env).ops), Mainunit1IntMaskN);
            && And(after, IrqEnableBits(m)) == 0
            && Clear(after, IrqEnableBits(m)) == Clear(Value(regs, Mainunit1IntMaskN), IrqEnableBits(m))
  {
    var ops := Xfer(m, eng, msgs, env).ops;
    XferLeavesMaskAlone(m, eng, msgs, env);
    var bits := IrqEnableBits(m);
    var mid := ops[1..|ops| - 1];
    assert ops == [ops[0]] + mid + [ops[|ops| - 1]];
    ApplyConcat(regs, [ops[0]] + mid, [ops[|ops| - 1]]);
    ApplyConcat(regs, [ops[0]], mid);
    ApplyAppend(regs, [], ops[0]);
    ApplyAppend(Apply(regs, [ops[0]] + mid), [], ops[|ops| - 1]);
    assert [] + [ops[0]] == [ops[0]] && [] + [ops[|ops| - 1]] == [ops[|ops| - 1]];
    ApplyUntouched(Step(regs, ops[0]), mid, Mainunit1IntMaskN);
    var v1 := Masked(Value(regs, Mainunit1IntMaskN), bits, bits);
    MaskedFields(Value(regs, Mainunit1IntMaskN), bits, bits);
    MaskedFields(v1, 0, bits);
    AndZero(bits);
  }

  /** A transfer's outcome does not depend on the cursor or the flags left
      behind by earlier transfers: both flags are reset at its start. */
  lemma XferIgnoresPriorState(m: Masks, e1: I2cState, e2: I2cState, msgs: seq<Msg>, env: seq<Event>)
    requires |msgs| > 0
    ensures var t1 := Xfer(m, e1, msgs, env);
            var t2 := Xfer(m, e2, msgs, env);
            t1.ret == t2.ret && t1.ops == t2.ops && t1.bufs == t2.bufs
  {
    if !Rejected(msgs) {
      MsgLoopCongruent(m, e1.(isRegaddr := false, isSegment := false), e2.(isRegaddr := false, isSegment := false), msgs, env, 0);
    }
  }

  /** Two engine states that agree on everything a message can observe. */
  predicate Similar(a: I2cState, b: I2cState) {
    a.isRegaddr == b.isRegaddr && a.isSegment == b.isSegment && (a.isRegaddr ==> a.slaveReg == b.slaveReg)
  }

  predicate SameRun(r1: Run, r2: Run) {
    r1.ret == r2.ret && r1.ops == r2.ops && r1.data == r2.data && r1.next == r2.next && r1.eng.(stat := 0) == r2.eng.(stat := 0)
  }

  lemma {:induction false} ReadLoopCongruent(m: Masks, e1: I2cState, e2: I2cState, n: nat, env: seq<Event>, k: nat)
    requires e1.(stat := 0) == e2.(stat := 0)
    ensures SameRun(ReadLoop(m, e1, n, env, k), ReadLoop(m, e2, n, env, k))
    decreases n
  {
    if n > 0 {
      match EventAt(env, k)
      case Timeout =>
      case Done(stat, rd) =>
        ReadLoopCongruent(m, e1.(slaveReg := Inc8(e1.slaveReg), stat := stat), e2.(slaveReg := Inc8(e2.slaveReg), stat := stat), n - 1, env, k + 1);
    }
  }

  lemma {:induction false} WriteLoopCongruent(m: Masks, e1: I2cState, e2: I2cState, bytes: seq<Byte>, env: seq<Event>, k: nat)
    requires e1.(stat := 0) == e2.(stat := 0)
    ensures SameRun(WriteLoop(m, e1, bytes, env, k), WriteLoop(m, e2, bytes, env, k))
    decreases |bytes|
  {
    if |bytes| > 0 {
      match EventAt(env, k)
      case Timeout =>
      case Done(stat, _) =>
        WriteLoopCongruent(m, e1.(slaveReg := Inc8(e1.slaveReg), stat := stat), e2.(slaveReg := Inc8(e2.slaveReg), stat := stat), bytes[1..], env, k + 1);
    }
  }

  lemma MsgStepCongruent(m: Masks, e1: I2cState, e2: I2cState, msg: Msg, env: seq<Event>, k: nat)
    requires |msg.buf| > 0 && Similar(e1, e2)
    ensures var r1 := MsgStep(m, e1, msg, env, k);
            var r2 := MsgStep(m, e2, msg, env, k);
            r1.ret == r2.ret && r1.ops == r2.ops && r1.data == r2.data && r1.next == r2.next && Similar(r1.eng, r2.eng)
  {
    if SegmentMsg(msg) {
    } else if msg.isRead {
      var a1 := if !e1.isRegaddr then e1.(slaveReg := 0, isRegaddr := true) else e1;
      var a2 := if !e2.isRegaddr then e2.(slaveReg := 0, isRegaddr := true) else e2;
      ReadLoopCongruent(m, a1, a2, |msg.buf|, env, k);
    } else if !e1.isRegaddr {
      WriteLoopCongruent(m, e1.(slaveReg := msg.buf[0], isRegaddr := true), e2.(slaveReg := msg.buf[0], isRegaddr := true), msg.buf[1..], env, k);
    } else {
      WriteLoopCongruent(m, e1, e2, msg.buf, env, k);
    }
  }

  lemma {:induction false} MsgLoopCongruent(m: Masks, e1: I2cState, e2: I2cState, msgs: seq<Msg>, env: seq<Event>, k: nat)
    requires NonEmpty(msgs) && Similar(e1, e2)
    ensures var b1 := MsgLoop(m, e1, msgs, env, k);
            var b2 := MsgLoop(m, e2, msgs, env, k);
            b1.ret == b2.ret && b1.ops == b2.ops && b1.bufs == b2.bufs && b1.next == b2.next
    decreases |msgs|
  {
    if msgs != [] {
      MsgStepCongruent(m, e1, e2, msgs[0], env, k);
      var r1 := MsgStep(m, e1, msgs[0], env, k);
      var r2 := MsgStep(m, e2, msgs[0], env, k);
      if r1.ret >= 0 {
        MsgLoopCongruent(m, r1.eng, r2.eng, msgs[1..], env, r1.next);
      }
    }
  }

  // ---------------------------------------------------------------------
  // E-DDC transfers

  /** The accesses of an accepted transfer around those of its messages. */
  lemma XferFrame(m: Masks, eng: I2cState, msgs: seq<Msg>, env: seq<Event>)
    requires |msgs| > 0 && !Rejected(msgs)
    ensures var b := MsgLoop(m, eng.(isRegaddr := false, isSegment := false), msgs, env, 0);
            var t := Xfer(m, eng, msgs, env);
            && t.ops == [Update(Mainunit1IntMaskN, IrqEnableBits(m), IrqEnableBits(m)),
                         Update(I2cmInterfaceControl0, SlaveField(SlaveAddr(msgs)), m.i2cmSlvAddr)]
                        + b.ops + [Update(Mainunit1IntMaskN, 0, Or(m.i2cmOpDoneMaskN, m.i2cmNackRcvdMaskN))]
            && t.ret == (if b.ret == 0 then |msgs| else b.ret)
            && t.bufs == b.bufs && t.eng == b.eng
  {
  }

  /** A one-byte write message that is not a segment pointer puts nothing on
      the bus: its byte only sets the register cursor, and the transfer succeeds
      with no access besides the interrupt unmask, the slave address and the
      interrupt mask. */
  lemma SingleByteWriteSetsCursor(m: Masks, eng: I2cState, a: Addr16, b: Byte, env: seq<Event>)
    requires Truncate8(a) != DDC_CI_ADDR && Truncate8(a) != DDC_SEGMENT_ADDR
    ensures var t := Xfer(m, eng, [Msg(a, false, [b])], env);
            && t.ret == 1 && |t.ops| == 3
            && t.ops[1] == Update(I2cmInterfaceControl0, SlaveField(Truncate8(a)), m.i2cmSlvAddr)
            && t.eng.slaveReg == b && t.eng.isRegaddr
  {
    var msgs := [Msg(a, false, [b])];
    var e0 := eng.(isRegaddr := false, isSegment := false);
    var r := MsgStep(m, e0, msgs[0], env, 0);
    assert r == Run(0, [], [], e0.(slaveReg := b, isRegaddr := true), 0);
    assert msgs[1..] == [];
    XferFrame(m, eng, msgs, env);
  }

  /** A one-byte read that never completes fails with -EAGAIN and leaves
      the software-reset command in I2CM_CONTROL0. */
  lemma SingleByteReadTimesOut(m: Masks, eng: I2cState, a: Addr16, b: Byte, regs: map<Reg, Word>)
    requires Truncate8(a) != DDC_CI_ADDR && a != DDC_SEGMENT_ADDR
    ensures var t := Xfer(m, eng, [Msg(a, true, [b])], []);
            t.ret == -EAGAIN && Value(Apply(regs, t.ops), I2cmControl0) == I2CM_RESET
  {
    var msgs := [Msg(a, true, [b])];
    var t := Xfer(m, eng, msgs, []);
    var e0 := eng.(isRegaddr := false, isSegment := false);
    var r := MsgStep(m, e0, msgs[0], [], 0);
    assert r.ret == -EAGAIN && r.ops[|r.ops| - 1] == ResetOp();
    XferFrame(m, eng, msgs, []);
    var n := |t.ops|;
    assert t.ops[n - 2] == ResetOp();
    assert t.ops == t.ops[..n - 2] + [t.ops[n - 2]] + [t.ops[n - 1]];
    ApplyConcat(regs, t.ops[..n - 2] + [t.ops[n - 2]], [t.ops[n - 1]]);
    ApplyAppend(regs, t.ops[..n - 2], t.ops[n - 2]);
    ApplyAppend(Apply(regs, t.ops[..n - 2] + [t.ops[n - 2]]), [], t.ops[n - 1]);
    assert [] + [t.ops[n - 1]] == [t.ops[n - 1]];
  }

  /** The first two messages of an E-DDC block read: the segment pointer
      and a one-byte register offset, which put nothing on the bus. */
  lemma SegmentThenOffset(m: Masks, e0: I2cState, seg: Byte, offset: Byte, env: seq<Event>)
    requires !e0.isRegaddr
    ensures var r0 := MsgStep(m, e0, Msg(0x30, false, [seg]), env, 0);
            var r1 := MsgStep(m, r0.eng, Msg(0x50, false, [offset]), env, 0);
            && r0.ret == 0 && r0.next == 0 && r1.ret == 0 && r1.next == 0 && |r1.ops| == 0 && |r1.data| == 0
            && |r0.ops| == 2
            && r0.ops[0] == Update(I2cmInterfaceControl1, DDC_SEGMENT_ADDR, m.i2cmSegAddr)
            && r0.ops[1] == Update(I2cmInterfaceControl1, SegPtrField(seg), m.i2cmSegPtr)
            && r1.eng.slaveReg == offset && r1.eng.isRegaddr && r1.eng.isSegment
  {
    SegmentMsgSetsPointer(m, e0, Msg(0x30, false, [seg]), env, 0);
  }

  /** The message loop of an E-DDC block read. */
  lemma BlockReadLoop(m: Masks, e0: I2cState, seg: Byte, offset: Byte, buf: seq<Byte>, env: seq<Event>)
    requires |buf| > 0 && !e0.isRegaddr
    requires AllClean(m, env, 0, |buf|)
    ensures var msgs := [Msg(0x30, false, [seg]), Msg(0x50, false, [offset]), Msg(0x50, true, buf)];
            var r0 := MsgStep(m, e0, msgs[0], env, 0);
            var r1 := MsgStep(m, r0.eng, msgs[1], env, 0);
            var r2 := MsgStep(m, r1.eng, msgs[2], env, 0);
            var b := MsgLoop(m, e0, msgs, env, 0);
            && r2.ret == 0 && |r2.data| == |buf| && r2.next == |buf|
            && b.ret == 0 && b.ops == r0.ops + r2.ops && b.bufs[2] == r2.data && b.eng == r2.eng
  {
    var msgs := [Msg(0x30, false, [seg]), Msg(0x50, false, [offset]), Msg(0x50, true, buf)];
    SegmentThenOffset(m, e0, seg, offset, env);
    var r0 := MsgStep(m, e0, msgs[0], env, 0);
    var r1 := MsgStep(m, r0.eng, msgs[1], env, 0);
    var r2 := MsgStep(m, r1.eng, msgs[2], env, 0);
    ReadLoopOutcome(m, r1.eng, |buf|, env, 0);
    assert r2.ret == 0 && |r2.data| == |buf|;
    assert msgs[1..][1..] == msgs[2..] && msgs[2..][1..] == [];
    assert Fill(buf, r2.data) == r2.data;
    var l2 := MsgLoop(m, r2.eng, [], env, r2.next);
    assert l2 == Batch(0, [], [], r2.eng, r2.next);
    var l1 := MsgLoop(m, r1.eng, msgs[2..], env, r1.next);
    assert l1.ret == 0 && l1.ops == r2.ops + [] && l1.bufs == [r2.data] && l1.eng == r2.eng;
    var l0 := MsgLoop(m, r0.eng, msgs[1..], env, r0.next);
    assert l0.ret == 0 && l0.ops == [] + r2.ops && l0.bufs[1] == r2.data && l0.eng == r2.eng;
  }

  /** The accesses of an E-DDC block read that follow the four set-up
      accesses are those of its read message, and then the interrupt mask. */
  lemma BlockReadBody(m: Masks, eng: I2cState, seg: Byte, offset: Byte, buf: seq<Byte>, env: seq<Event>)
    requires |buf| > 0
    requires AllClean(m, env, 0, |buf|)
    ensures var msgs := [Msg(0x30, false, [seg]), Msg(0x50, false, [offset]), Msg(0x50, true, buf)];
            var e0 := eng.(isRegaddr := false, isSegment := false);
            var r0 := MsgStep(m, e0, msgs[0], env, 0);
            var r1 := MsgStep(m, r0.eng, msgs[1], env, 0);
            var r2 := MsgStep(m, r1.eng, msgs[2], env, 0);
            var t := Xfer(m, eng, msgs, env);
            && t.ret == 3 && |t.ops| == 5 + |r2.ops|
            && t.ops[1] == Update(I2cmInterfaceControl0, SlaveField(DDC_ADDR), m.i2cmSlvAddr)
            && t.ops[2] == r0.ops[0] && t.ops[3] == r0.ops[1]
            && (forall i | 0 <= i < |r2.ops| :: t.ops[4 + i] == r2.ops[i])
            && t.bufs[2] == r2.data && t.eng == r2.eng
  {
    var msgs := [Msg(0x30, false, [seg]), Msg(0x50, false, [offset]), Msg(0x50, true, buf)];
    var e0 := eng.(isRegaddr := false, isSegment := false);
    BlockReadLoop(m, e0, seg, offset, buf, env);
    SegmentThenOffset(m, e0, seg, offset, env);
    XferFrame(m, eng, msgs, env);
  }

  /** An E-DDC block read: a segment pointer, a one-byte register offset and
      a read of `buf`. The slave address is rewritten to the DDC address, the
      segment registers are programmed before any bus byte, the j-th bus byte
      (at position 4 + 4 * j) programs the cursor the offset advanced j times
      and uses the extended-read strobe, the read bytes land in the buffer,
      the extended-read mode ends, and the transfer returns 3. */
  lemma SegmentedBlockRead(m: Masks, eng: I2cState, seg: Byte, offset: Byte, buf: seq<Byte>, env: seq<Event>)
    requires |buf| > 0
    requires AllClean(m, env, 0, |buf|)
    ensures var msgs := [Msg(0x30, false, [seg]), Msg(0x50, false, [offset]), Msg(0x50, true, buf)];
            var t := Xfer(m, eng, msgs, env);
            && t.ret == 3 && |t.ops| == 4 + 4 * |buf| + 1
            && t.ops[1] == Update(I2cmInterfaceControl0, SlaveField(DDC_ADDR), m.i2cmSlvAddr)
            && t.ops[2] == Update(I2cmInterfaceControl1, DDC_SEGMENT_ADDR, m.i2cmSegAddr)
            && t.ops[3] == Update(I2cmInterfaceControl1, SegPtrField(seg), m.i2cmSegPtr)
            && (forall j | 0 <= j < |buf| :: ReadByteAt(m, t.ops[4..], j, offset, m.i2cmExtRead))
            && (forall j | 0 <= j < |buf| :: ReadBackAt(m, t.ops[4..], t.bufs[2], j, env, 0))
            && !t.eng.isSegment
  {
    var msgs := [Msg(0x30, false, [seg]), Msg(0x50, false, [offset]), Msg(0x50, true, buf)];
    var e0 := eng.(isRegaddr := false, isSegment := false);
    BlockReadLoop(m, e0, seg, offset, buf, env);
    SegmentThenOffset(m, e0, seg, offset, env);
    BlockReadBody(m, eng, seg, offset, buf, env);
    var r0 := MsgStep(m, e0, msgs[0], env, 0);
    var r1 := MsgStep(m, r0.eng, msgs[1], env, 0);
    var r2 := MsgStep(m, r1.eng, msgs[2], env, 0);
    var t := Xfer(m, eng, msgs, env);
    ReadMsgCursor(m, r1.eng, |buf|, env, 0);
    ReadLoopLength(m, r1.eng, |buf|, env, 0);
    var body := t.ops[4..];
    forall j | 0 <= j < |buf|
      ensures ReadByteAt(m, body, j, offset, m.i2cmExtRead)
      ensures ReadBackAt(m, body, t.bufs[2], j, env, 0)
    {
      assert ReadByteAt(m, r2.ops, j, offset, m.i2cmExtRead);
      assert ReadBackAt(m, r2.ops, r2.data, j, env, 0);
      assert body[4 * j] == r2.ops[4 * j] && body[4 * j + 1] == r2.ops[4 * j + 1];
      assert body[4 * j + 2] == r2.ops[4 * j + 2] && body[4 * j + 3] == r2.ops[4 * j + 3];
    }
  }


  // ---------------------------------------------------------------------
  // Interrupt status latch

  /** When the three I2C event bits fit in the latched byte (the status
      field is a `u8`), the handler latches exactly the recognised events of
      the raw status and acknowledges only those; it signals the waiter
      exactly when one is pending, and reports the line handled exactly when
      the raw status is non-zero, even when no I2C event is pending. */
  lemma HardirqAcksOwnBits(m: Masks, raw: Word)
    requires IrqBits(m) < 0x100
    ensures var h := Hardirq(m, raw);
            && h.stat == And(raw, IrqBits(m))
            && Clear(h.stat, IrqBits(m)) == 0 && And(h.stat, raw) == h.stat
            && h.ops[0] == Read(Mainunit1IntStatus, raw)
            && (h.signal <==> h.stat != 0) && (h.signal <==> |h.ops| == 2)
            && (h.signal ==> h.ops[1] == Write(Mainunit1IntClear, h.stat))
            && (h.ret == IrqHandled <==> raw != 0)
  {
    AndInside(raw, IrqBits(m));
    AndWithin(raw, IrqBits(m));
    BitwiseCommutes(AndOp, And(raw, IrqBits(m)), raw);
  }

  /** The latched status carries the NACK event exactly when the raw status does. */
  lemma HardirqNack(m: Masks, raw: Word)
    requires IrqBits(m) < 0x100
    ensures Nack(m, Hardirq(m, raw).stat) <==> And(raw, m.i2cmNackRcvdIrq) != 0
  {
    var n := m.i2cmNackRcvdIrq;
    AndAssociates(raw, IrqBits(m), n);
    AndOrAbsorbs(Or(m.i2cmOpDoneIrq, m.i2cmReadRequestIrq), n);
  }

  /** A byte whose wait is woken by the handler fails with -EIO exactly when
      the raw status it latched carries the NACK event. */
  lemma NackLatchFailsByte(m: Masks, raw: Word, rd: Word, eng: I2cState, n: nat, k: nat)
    requires n > 0 && IrqBits(m) < 0x100
    ensures var env := seq(k, _ => Timeout) + [Done(Hardirq(m, raw).stat, rd)];
            ReadLoop(m, eng, n, env, k).ret == -EIO <==> And(raw, m.i2cmNackRcvdIrq) != 0
  {
    var env := seq(k, _ => Timeout) + [Done(Hardirq(m, raw).stat, rd)];
    assert EventAt(env, k) == Done(Hardirq(m, raw).stat, rd);
    HardirqNack(m, raw);
    var eng2 := eng.(slaveReg := Inc8(eng.slaveReg), stat := Hardirq(m, raw).stat);
    if n > 1 && !Nack(m, Hardirq(m, raw).stat) {
      assert EventAt(env, k + 1) == Timeout;
      assert ReadLoop(m, eng2, n - 1, env, k + 1).ret == -EAGAIN;
    }
  }
}
