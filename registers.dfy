/**
 * The register interface of the DesignWare HDMI QP transmitter, as the driver
 * sees it through its three helpers (write, read, masked update): a flat file
 * of 32-bit registers, addressed by name. The concrete offsets and bit masks
 * live in a header that is not part of this model, so registers are the
 * constructors of `Reg` (distinct by construction) and masks are the fields of
 * a `Masks` record.
 */
module Registers {

  import opened Bits

  /** The two packet kinds whose content registers the driver fills. */
  datatype Packet = Avi | Drmi

  /** The registers the modelled core touches. `PktContents(p, 0)` is
      PKT_<p>_CONTENTS0 and `PktContents(p, 1 + i)` is PKT_<p>_CONTENTS1 + 4 * i. */
  datatype Reg =
    | I2cmInterfaceControl0
    | I2cmInterfaceControl1
    | I2cmControl0
    | I2cmInterfaceWrData03
    | I2cmInterfaceRdData03
    | Mainunit1IntMaskN
    | Mainunit1IntStatus
    | Mainunit1IntClear
    | PktContents(pkt: Packet, index: nat)
    | PktschedPktConfig1
    | PktschedPktEn
    | ScrambConfig0
    | Hdcp2LogicConfig0
    | LinkConfig0

  /** The registers of the I2C master (the DDC engine) and nothing else. */
  predicate IsI2cmReg(r: Reg) {
    r.I2cmInterfaceControl0? || r.I2cmInterfaceControl1? || r.I2cmControl0?
    || r.I2cmInterfaceWrData03? || r.I2cmInterfaceRdData03?
  }

  /** The bit masks of the driver's header. */
  datatype Masks = Masks(
    i2cmAddr: Word, i2cmSlvAddr: Word, i2cmWrMask: Word,
    i2cmExtRead: Word, i2cmFmRead: Word, i2cmFmWrite: Word,
    i2cmSegAddr: Word, i2cmSegPtr: Word,
    i2cmOpDoneMaskN: Word, i2cmNackRcvdMaskN: Word,
    i2cmOpDoneIrq: Word, i2cmReadRequestIrq: Word, i2cmNackRcvdIrq: Word,
    aviFieldrate: Word, drmiFieldrate: Word,
    aviTxEn: Word, gcpTxEn: Word, drmiTxEn: Word,
    hdcp2Bypass: Word, opmodeDvi: Word)

  /** One register access by the driver. `Update(reg, data, mask)` is the
      masked read-modify-write (value first, mask second, as in the driver's
      helper); `Read(reg, val)` records that the hardware returned `val`. */
  datatype Access =
    | Write(reg: Reg, val: Word)
    | Update(reg: Reg, data: Word, mask: Word)
    | Read(reg: Reg, val: Word)

  /** Registers the model has never seen hold 0. */
  function Value(regs: map<Reg, Word>, r: Reg): Word {
    if r in regs then regs[r] else 0
  }

  function Step(regs: map<Reg, Word>, a: Access): map<Reg, Word> {
    match a
    case Write(r, v) => regs[r := v]
    case Update(r, d, mask) => regs[r := Masked(Value(regs, r), d, mask)]
    case Read(r, v) => regs[r := v]
  }

  /** The register file after a sequence of accesses, applied in order. */
  function Apply(regs: map<Reg, Word>, ops: seq<Access>): map<Reg, Word>
    decreases |ops|
  {
    if |ops| == 0 then regs else Step(Apply(regs, ops[..|ops| - 1]), ops[|ops| - 1])
  }

  /** No access in `ops` addresses register `r`. */
  predicate Untouched(ops: seq<Access>, r: Reg) {
    forall i | 0 <= i < |ops| :: ops[i].reg != r
  }

  lemma ApplyAppend(regs: map<Reg, Word>, ops: seq<Access>, a: Access)
    ensures Apply(regs, ops + [a]) == Step(Apply(regs, ops), a)
  {
    assert (ops + [a])[..|ops|] == ops;
  }

  lemma ApplyTwo(regs: map<Reg, Word>, a: Access, b: Access)
    ensures Apply(regs, [a]) == Step(regs, a)
    ensures Apply(regs, [a, b]) == Step(Step(regs, a), b)
  {
    assert [a, b][..1] == [a];
    assert [a][..0] == [];
  }

  /** Appending a run of accesses to a log. */
  lemma Associative(a: seq<Access>, b: seq<Access>, c: seq<Access>)
    ensures (a + b) + c == a + (b + c)
  {
  }

  /** Appending one access, and then another, to a log that ends with `s`. */
  lemma AppendOne(log: seq<Access>, s: seq<Access>, a: Access)
    ensures (log + s) + [a] == log + (s + [a])
  {
  }

  lemma AppendTwo(log: seq<Access>, s: seq<Access>, a: Access, b: Access)
    ensures (log + s) + [a] + [b] == log + (s + [a, b])
  {
    AppendOne(log, s, a);
    AppendOne(log, s + [a], b);
    assert s + [a] + [b] == s + [a, b];
  }

  /** Applying two runs of accesses is applying their concatenation. */
  lemma {:induction false} ApplyConcat(regs: map<Reg, Word>, a: seq<Access>, b: seq<Access>)
    ensures Apply(regs, a + b) == Apply(Apply(regs, a), b)
    decreases |b|
  {
    if b == [] {
      assert a + b == a;
    } else {
      var b' := b[..|b| - 1];
      assert a + b == (a + b') + [b[|b| - 1]];
      assert b == b' + [b[|b| - 1]];
      ApplyAppend(regs, a + b', b[|b| - 1]);
      ApplyConcat(regs, a, b');
      ApplyAppend(Apply(regs, a), b', b[|b| - 1]);
    }
  }

  /** A register no access addresses keeps its value. */
  lemma {:induction false} ApplyUntouched(regs: map<Reg, Word>, ops: seq<Access>, r: Reg)
    requires Untouched(ops, r)
    ensures Value(Apply(regs, ops), r) == Value(regs, r)
    decreases |ops|
  {
    if ops != [] {
      ApplyUntouched(regs, ops[..|ops| - 1], r);
    }
  }

  /** A register only the last access addresses ends with the value that
      access gives it. */
  lemma LastAccess(regs: map<Reg, Word>, ops: seq<Access>, a: Access)
    ensures Value(Apply(regs, ops + [a]), a.reg) == Value(Step(Apply(regs, ops), a), a.reg)
    ensures forall r | r != a.reg :: Value(Apply(regs, ops + [a]), r) == Value(Apply(regs, ops), r)
  {
    ApplyAppend(regs, ops, a);
  }

  /** Repeating a masked update changes nothing more. */
  lemma UpdateIdempotent(regs: map<Reg, Word>, r: Reg, data: Word, mask: Word)
    ensures Step(Step(regs, Update(r, data, mask)), Update(r, data, mask)) == Step(regs, Update(r, data, mask))
  {
    var v := Masked(Value(regs, r), data, mask);
    MaskedTwice(Value(regs, r), data, mask);
    assert Value(Step(regs, Update(r, data, mask)), r) == v;
  }
}
