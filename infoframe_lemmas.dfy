/**
 * What configuring, clearing and writing an InfoFrame does to the register
 * file: the content registers read back as the frame's bytes, the field-rate
 * and transmit-enable bits of the packet kind end up cleared or set, and no
 * other bit or register changes.
 */
module InfoframeLemmas {
  import opened Bits
  import opened Registers
  import opened Infoframes

  /** The content words 0..n-1 of packet `p` held by a register file. */
  function ContentWords(regs: map<Reg, Word>, p: Packet, n: nat): (r: seq<Word>)
    ensures |r| == n
    ensures forall i | 0 <= i < n :: r[i] == Value(regs, PktContents(p, 1 + i))
  {
    seq(n, i requires 0 <= i < n => Value(regs, PktContents(p, 1 + i)))
  }

  /** `r` is the head register or one of the first `n` content registers of `p`. */
  predicate IsPacketReg(p: Packet, n: nat, r: Reg) {
    r.PktContents? && r.pkt == p && r.index <= n
  }

  // ---------------------------------------------------------------------
  // Content writes

  /** Writing the content words of `p` leaves word `i` in content register
      `i` and changes no other register. */
  lemma {:induction false} ContentWritesEffect(regs: map<Reg, Word>, p: Packet, words: seq<Word>)
    ensures forall i | 0 <= i < |words| :: Value(Apply(regs, ContentWrites(p, words)), PktContents(p, 1 + i)) == words[i]
    ensures forall r: Reg | !(r.PktContents? && r.pkt == p && 1 <= r.index <= |words|) ::
              Value(Apply(regs, ContentWrites(p, words)), r) == Value(regs, r)
    decreases |words|
  {
    if words != [] {
      var n := |words| - 1;
      var front := words[..n];
      var last := Write(PktContents(p, 1 + n), words[n]);
      assert ContentWrites(p, words) == ContentWrites(p, front) + [last];
      ContentWritesEffect(regs, p, front);
      ApplyAppend(regs, ContentWrites(p, front), last);
    }
  }

  /** After the content writes the content registers hold exactly `words`. */
  lemma ContentWritesWords(regs: map<Reg, Word>, p: Packet, words: seq<Word>)
    ensures ContentWords(Apply(regs, ContentWrites(p, words)), p, |words|) == words
  {
    ContentWritesEffect(regs, p, words);
  }

  // ---------------------------------------------------------------------
  // Configuring the AVI InfoFrame

  /** The register file after configuring a well-sized AVI InfoFrame, one
      stage at a time. */
  lemma ConfigAviStages(m: Masks, buffer: seq<Byte>, regs: map<Reg, Word>)
    requires |buffer| == AVI_FRAME_SIZE
    ensures var r1 := Apply(regs[PktContents(Avi, 0) := HeadWord(buffer[1], buffer[2])], ContentWrites(Avi, Pack(AviContent(buffer))));
            Apply(regs, ConfigAvi(m, buffer).ops)
            == Step(Step(r1, Update(PktschedPktConfig1, 0, m.aviFieldrate)), Update(PktschedPktEn, AviTxBits(m), AviTxBits(m)))
  {
    var words := Pack(AviContent(buffer));
    var head := Write(PktContents(Avi, 0), HeadWord(buffer[1], buffer[2]));
    var u1 := Update(PktschedPktConfig1, 0, m.aviFieldrate);
    var u2 := Update(PktschedPktEn, AviTxBits(m), AviTxBits(m));
    assert ConfigAvi(m, buffer).ops == ([head] + ContentWrites(Avi, words)) + [u1, u2];
    ApplyConcat(regs, [head] + ContentWrites(Avi, words), [u1, u2]);
    ApplyConcat(regs, [head], ContentWrites(Avi, words));
    ApplyTwo(regs, head, head);
    ApplyTwo(Apply(regs, [head] + ContentWrites(Avi, words)), u1, u2);
  }

  /** Configuring a well-sized AVI InfoFrame succeeds and leaves its version
      and length bytes in the head register and the 14 bytes from the
      checksum on in the four content registers, readable back byte for
      byte, with the top two bytes of the last word zero. */
  lemma ConfigAviContents(m: Masks, buffer: seq<Byte>, regs: map<Reg, Word>)
    requires |buffer| == AVI_FRAME_SIZE
    ensures ConfigAvi(m, buffer).ret == 0
    ensures var after := Apply(regs, ConfigAvi(m, buffer).ops);
            && Value(after, PktContents(Avi, 0)) == buffer[1] as int * 0x100 + buffer[2] as int * 0x1_0000
            && LaneOf(Value(after, PktContents(Avi, 0)), 1) == buffer[1]
            && LaneOf(Value(after, PktContents(Avi, 0)), 2) == buffer[2]
            && ContentWords(after, Avi, 4) == Pack(buffer[3..])
            && Unpack(ContentWords(after, Avi, 4), AVI_CONTENT_BYTES) == buffer[3..]
            && Value(after, PktContents(Avi, 4)) < 0x1_0000
  {
    var content := AviContent(buffer);
    var words := Pack(content);
    var r0 := regs[PktContents(Avi, 0) := HeadWord(buffer[1], buffer[2])];
    var r1 := Apply(r0, ContentWrites(Avi, words));
    ConfigAviStages(m, buffer, regs);
    ContentWritesEffect(r0, Avi, words);
    ContentWritesWords(r0, Avi, words);
    HeadWordLanes(buffer[1], buffer[2]);
    UnpackPack(content);
    assert Radix(2) == 0x1_0000;
    LanesBelow(content, 12, 0, 2);
  }

  /** The two scheduling updates that close a configuration: clear the
      field-rate bits, then set the transmit bits. */
  lemma ScheduleUpdates(r1: map<Reg, Word>, fieldrate: Word, tx: Word)
    ensures var after := Step(Step(r1, Update(PktschedPktConfig1, 0, fieldrate)), Update(PktschedPktEn, tx, tx));
            && And(Value(after, PktschedPktConfig1), fieldrate) == 0
            && Clear(Value(after, PktschedPktConfig1), fieldrate) == Clear(Value(r1, PktschedPktConfig1), fieldrate)
            && And(Value(after, PktschedPktEn), tx) == tx
            && Clear(Value(after, PktschedPktEn), tx) == Clear(Value(r1, PktschedPktEn), tx)
            && (forall r | r != PktschedPktConfig1 && r != PktschedPktEn :: Value(after, r) == Value(r1, r))
  {
    MaskedSetsAndClears(Value(r1, PktschedPktConfig1), fieldrate);
    MaskedSetsAndClears(Value(r1, PktschedPktEn), tx);
  }

  /** The content writes of `p` keep every register outside its content
      registers. */
  lemma ContentWritesKeep(regs: map<Reg, Word>, p: Packet, words: seq<Word>, r: Reg)
    requires !(r.PktContents? && r.pkt == p && 1 <= r.index <= |words|)
    ensures Value(Apply(regs, ContentWrites(p, words)), r) == Value(regs, r)
  {
    ContentWritesEffect(regs, p, words);
  }

  /** Configuring a well-sized AVI InfoFrame clears the AVI field-rate bit
      and sets the AVI and GCP transmit bits, keeps every other bit of those
      two registers, and changes no register outside the packet's. */
  lemma ConfigAviScheduling(m: Masks, buffer: seq<Byte>, regs: map<Reg, Word>)
    requires |buffer| == AVI_FRAME_SIZE
    ensures var after := Apply(regs, ConfigAvi(m, buffer).ops);
            && And(Value(after, PktschedPktConfig1), m.aviFieldrate) == 0
            && Clear(Value(after, PktschedPktConfig1), m.aviFieldrate) == Clear(Value(regs, PktschedPktConfig1), m.aviFieldrate)
            && And(Value(after, PktschedPktEn), AviTxBits(m)) == AviTxBits(m)
            && Clear(Value(after, PktschedPktEn), AviTxBits(m)) == Clear(Value(regs, PktschedPktEn), AviTxBits(m))
            && (forall r | !IsPacketReg(Avi, 4, r) && r != PktschedPktConfig1 && r != PktschedPktEn ::
                  Value(after, r) == Value(regs, r))
  {
    var words := Pack(AviContent(buffer));
    var r0 := regs[PktContents(Avi, 0) := HeadWord(buffer[1], buffer[2])];
    var r1 := Apply(r0, ContentWrites(Avi, words));
    ConfigAviStages(m, buffer, regs);
    ScheduleUpdates(r1, m.aviFieldrate, AviTxBits(m));
    ContentWritesKeep(r0, Avi, words, PktschedPktConfig1);
    ContentWritesKeep(r0, Avi, words, PktschedPktEn);
    forall r | !IsPacketReg(Avi, 4, r)
      ensures Value(r1, r) == Value(regs, r)
    {
      ContentWritesKeep(r0, Avi, words, r);
    }
  }

  // ---------------------------------------------------------------------
  // Configuring the Dynamic Range and Mastering InfoFrame

  /** The register file after configuring a well-sized Dynamic Range and
      Mastering InfoFrame, one stage at a time. */
  lemma ConfigDrmStages(m: Masks, buffer: seq<Byte>, regs: map<Reg, Word>)
    requires |buffer| == DRM_FRAME_SIZE && buffer[2] <= DRM_FRAME_SIZE - 4
    ensures var r0 := Step(regs, Update(PktschedPktEn, 0, m.drmiTxEn))[PktContents(Drmi, 0) := HeadWord(buffer[1], buffer[2])];
            var r1 := Apply(r0, ContentWrites(Drmi, Pack(DrmContent(buffer))));
            Apply(regs, ConfigDrm(m, buffer).ops)
            == Step(Step(r1, Update(PktschedPktConfig1, 0, m.drmiFieldrate)), Update(PktschedPktEn, m.drmiTxEn, m.drmiTxEn))
  {
    var words := Pack(DrmContent(buffer));
    var u0 := Update(PktschedPktEn, 0, m.drmiTxEn);
    var head := Write(PktContents(Drmi, 0), HeadWord(buffer[1], buffer[2]));
    var u1 := Update(PktschedPktConfig1, 0, m.drmiFieldrate);
    var u2 := Update(PktschedPktEn, m.drmiTxEn, m.drmiTxEn);
    assert ConfigDrm(m, buffer).ops == ([u0, head] + ContentWrites(Drmi, words)) + [u1, u2];
    ApplyConcat(regs, [u0, head] + ContentWrites(Drmi, words), [u1, u2]);
    ApplyConcat(regs, [u0, head], ContentWrites(Drmi, words));
    ApplyTwo(regs, u0, head);
    ApplyTwo(Apply(regs, [u0, head] + ContentWrites(Drmi, words)), u1, u2);
  }

  /** Configuring a well-sized Dynamic Range and Mastering InfoFrame
      succeeds and leaves its version and length bytes in the head register
      and its checksum and `buffer[2]` payload bytes in the first
      `buffer[2] / 4 + 1` content registers, readable back byte for byte. */
  lemma ConfigDrmContents(m: Masks, buffer: seq<Byte>, regs: map<Reg, Word>)
    requires |buffer| == DRM_FRAME_SIZE && buffer[2] <= DRM_FRAME_SIZE - 4
    ensures ConfigDrm(m, buffer).ret == 0
    ensures var after := Apply(regs, ConfigDrm(m, buffer).ops);
            var n := buffer[2] / 4 + 1;
            && Value(after, PktContents(Drmi, 0)) == buffer[1] as int * 0x100 + buffer[2] as int * 0x1_0000
            && LaneOf(Value(after, PktContents(Drmi, 0)), 1) == buffer[1]
            && LaneOf(Value(after, PktContents(Drmi, 0)), 2) == buffer[2]
            && ContentWords(after, Drmi, n) == Pack(buffer[3..4 + buffer[2]])
            && Unpack(ContentWords(after, Drmi, n), buffer[2] + 1) == buffer[3..4 + buffer[2]]
  {
    var content := DrmContent(buffer);
    var words := Pack(content);
    var r0 := Step(regs, Update(PktschedPktEn, 0, m.drmiTxEn))[PktContents(Drmi, 0) := HeadWord(buffer[1], buffer[2])];
    ConfigDrmStages(m, buffer, regs);
    ContentWritesEffect(r0, Drmi, words);
    ContentWritesWords(r0, Drmi, words);
    HeadWordLanes(buffer[1], buffer[2]);
    UnpackPack(content);
  }

  /** Configuring a well-sized Dynamic Range and Mastering InfoFrame clears
      its field-rate bit and sets its transmit bit, keeps every other bit of
      those two registers, and changes no register outside the packet's. */
  lemma ConfigDrmScheduling(m: Masks, buffer: seq<Byte>, regs: map<Reg, Word>)
    requires |buffer| == DRM_FRAME_SIZE && buffer[2] <= DRM_FRAME_SIZE - 4
    ensures var after := Apply(regs, ConfigDrm(m, buffer).ops);
            && And(Value(after, PktschedPktConfig1), m.drmiFieldrate) == 0
            && Clear(Value(after, PktschedPktConfig1), m.drmiFieldrate) == Clear(Value(regs, PktschedPktConfig1), m.drmiFieldrate)
            && And(Value(after, PktschedPktEn), m.drmiTxEn) == m.drmiTxEn
            && Clear(Value(after, PktschedPktEn), m.drmiTxEn) == Clear(Value(regs, PktschedPktEn), m.drmiTxEn)
            && (forall r | !IsPacketReg(Drmi, buffer[2] / 4 + 1, r) && r != PktschedPktConfig1 && r != PktschedPktEn ::
                  Value(after, r) == Value(regs, r))
  {
    var words := Pack(DrmContent(buffer));
    var r0 := Step(regs, Update(PktschedPktEn, 0, m.drmiTxEn))[PktContents(Drmi, 0) := HeadWord(buffer[1], buffer[2])];
    var r1 := Apply(r0, ContentWrites(Drmi, words));
    ConfigDrmStages(m, buffer, regs);
    ScheduleUpdates(r1, m.drmiFieldrate, m.drmiTxEn);
    ContentWritesKeep(r0, Drmi, words, PktschedPktConfig1);
    ContentWritesKeep(r0, Drmi, words, PktschedPktEn);
    MaskedSetsAndClears(Value(regs, PktschedPktEn), m.drmiTxEn);
    forall r | !IsPacketReg(Drmi, buffer[2] / 4 + 1, r) && r != PktschedPktEn
      ensures Value(r1, r) == Value(regs, r)
    {
      ContentWritesKeep(r0, Drmi, words, r);
    }
  }

  /** The Dynamic Range and Mastering packet is not transmitted while its
      registers are rewritten: after the first access and until the last,
      its transmit bit is clear. */
  lemma ConfigDrmPausesTransmission(m: Masks, buffer: seq<Byte>, regs: map<Reg, Word>, k: nat)
    requires |buffer| == DRM_FRAME_SIZE && buffer[2] <= DRM_FRAME_SIZE - 4
    requires 1 <= k < |ConfigDrm(m, buffer).ops|
    ensures And(Value(Apply(regs, ConfigDrm(m, buffer).ops[..k]), PktschedPktEn), m.drmiTxEn) == 0
  {
    var ops := ConfigDrm(m, buffer).ops;
    var u0 := Update(PktschedPktEn, 0, m.drmiTxEn);
    assert ops[..k] == [u0] + ops[1..k];
    ApplyConcat(regs, [u0], ops[1..k]);
    ApplyTwo(regs, u0, u0);
    assert Untouched(ops[1..k], PktschedPktEn) by {
      forall i | 0 <= i < k - 1
        ensures ops[1..k][i].reg != PktschedPktEn
      {
        assert ops[1..k][i] == ops[1 + i];
      }
    }
    ApplyUntouched(Apply(regs, [u0]), ops[1..k], PktschedPktEn);
    MaskedSetsAndClears(Value(regs, PktschedPktEn), m.drmiTxEn);
  }

  // ---------------------------------------------------------------------
  // Clearing and writing

  /** Clearing an InfoFrame type clears its transmit bits and touches no
      other bit and no other register; for a type the driver does not
      handle it changes nothing. */
  lemma ClearInfoframeEffect(m: Masks, t: int, regs: map<Reg, Word>)
    ensures var after := Apply(regs, ClearInfoframe(m, t).ops);
            && And(Value(after, PktschedPktEn), TxBits(m, t)) == 0
            && Clear(Value(after, PktschedPktEn), TxBits(m, t)) == Clear(Value(regs, PktschedPktEn), TxBits(m, t))
            && (forall r | r != PktschedPktEn :: Value(after, r) == Value(regs, r))
            && (t != HDMI_INFOFRAME_TYPE_AVI && t != HDMI_INFOFRAME_TYPE_DRM ==> after == regs)
  {
    var tx := TxBits(m, t);
    if t == HDMI_INFOFRAME_TYPE_AVI || t == HDMI_INFOFRAME_TYPE_DRM {
      var u := Update(PktschedPktEn, 0, tx);
      ApplyTwo(regs, u, u);
      MaskedSetsAndClears(Value(regs, PktschedPktEn), tx);
    } else {
      BitwiseCommutes(AndOp, Value(regs, PktschedPktEn), 0);
      AndZero(Value(regs, PktschedPktEn));
    }
  }

  /** Clearing twice is clearing once. */
  lemma ClearInfoframeIdempotent(m: Masks, t: int, regs: map<Reg, Word>)
    ensures var ops := ClearInfoframe(m, t).ops;
            Apply(Apply(regs, ops), ops) == Apply(regs, ops)
  {
    var ops := ClearInfoframe(m, t).ops;
    if ops != [] {
      var u := ops[0];
      ApplyTwo(regs, u, u);
      ApplyTwo(Apply(regs, ops), u, u);
      UpdateIdempotent(regs, PktschedPktEn, 0, TxBits(m, t));
    }
  }

  /** Writing an InfoFrame of a type the driver does not handle changes
      nothing and succeeds. */
  lemma WriteUnknownInfoframe(m: Masks, t: int, buffer: seq<Byte>, regs: map<Reg, Word>)
    requires t != HDMI_INFOFRAME_TYPE_AVI && t != HDMI_INFOFRAME_TYPE_DRM
    ensures WriteInfoframe(m, t, buffer).ret == 0
    ensures Apply(regs, WriteInfoframe(m, t, buffer).ops) == regs
  {
    ClearInfoframeEffect(m, t, regs);
  }

  /** Writing a buffer of the wrong length fails with -EINVAL and leaves
      the InfoFrame type cleared: the old packet stops being sent. */
  lemma WriteInfoframeWrongLength(m: Masks, t: int, buffer: seq<Byte>, regs: map<Reg, Word>)
    requires (t == HDMI_INFOFRAME_TYPE_AVI && |buffer| != AVI_FRAME_SIZE)
          || (t == HDMI_INFOFRAME_TYPE_DRM && |buffer| != DRM_FRAME_SIZE)
    ensures var after := Apply(regs, WriteInfoframe(m, t, buffer).ops);
            && WriteInfoframe(m, t, buffer).ret == -EINVAL
            && And(Value(after, PktschedPktEn), TxBits(m, t)) == 0
            && (forall r | r != PktschedPktEn :: Value(after, r) == Value(regs, r))
  {
    ClearInfoframeEffect(m, t, regs);
    assert WriteInfoframe(m, t, buffer).ops == ClearInfoframe(m, t).ops + [];
  }

  /** Writing a well-sized AVI InfoFrame succeeds and leaves the registers
      as configuring it does: its bytes in the content registers and its
      transmit bits set, the other bits of PKTSCHED_PKT_EN as they were. */
  lemma WriteAviInfoframe(m: Masks, buffer: seq<Byte>, regs: map<Reg, Word>)
    requires |buffer| == AVI_FRAME_SIZE
    ensures var after := Apply(regs, WriteInfoframe(m, HDMI_INFOFRAME_TYPE_AVI, buffer).ops);
            && WriteInfoframe(m, HDMI_INFOFRAME_TYPE_AVI, buffer).ret == 0
            && Unpack(ContentWords(after, Avi, 4), AVI_CONTENT_BYTES) == buffer[3..]
            && And(Value(after, PktschedPktEn), AviTxBits(m)) == AviTxBits(m)
            && Clear(Value(after, PktschedPktEn), AviTxBits(m)) == Clear(Value(regs, PktschedPktEn), AviTxBits(m))
  {
    var t := HDMI_INFOFRAME_TYPE_AVI;
    ApplyConcat(regs, ClearInfoframe(m, t).ops, ConfigAvi(m, buffer).ops);
    ClearInfoframeEffect(m, t, regs);
    ConfigAviContents(m, buffer, Apply(regs, ClearInfoframe(m, t).ops));
    ConfigAviScheduling(m, buffer, Apply(regs, ClearInfoframe(m, t).ops));
  }

  /** Writing a well-sized Dynamic Range and Mastering InfoFrame succeeds
      and leaves the registers as configuring it does. */
  lemma WriteDrmInfoframe(m: Masks, buffer: seq<Byte>, regs: map<Reg, Word>)
    requires |buffer| == DRM_FRAME_SIZE && buffer[2] <= DRM_FRAME_SIZE - 4
    ensures var after := Apply(regs, WriteInfoframe(m, HDMI_INFOFRAME_TYPE_DRM, buffer).ops);
            && WriteInfoframe(m, HDMI_INFOFRAME_TYPE_DRM, buffer).ret == 0
            && Unpack(ContentWords(after, Drmi, buffer[2] / 4 + 1), buffer[2] + 1) == buffer[3..4 + buffer[2]]
            && And(Value(after, PktschedPktEn), m.drmiTxEn) == m.drmiTxEn
            && Clear(Value(after, PktschedPktEn), m.drmiTxEn) == Clear(Value(regs, PktschedPktEn), m.drmiTxEn)
  {
    var t := HDMI_INFOFRAME_TYPE_DRM;
    ApplyConcat(regs, ClearInfoframe(m, t).ops, ConfigDrm(m, buffer).ops);
    ClearInfoframeEffect(m, t, regs);
    ConfigDrmContents(m, buffer, Apply(regs, ClearInfoframe(m, t).ops));
    ConfigDrmScheduling(m, buffer, Apply(regs, ClearInfoframe(m, t).ops));
  }
}
