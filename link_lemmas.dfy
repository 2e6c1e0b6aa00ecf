/**
 * Properties of the scrambling and link state machine: when scrambling is
 * turned on, what disabling guarantees, what detection does, and the
 * invariant every operation keeps.
 */
module LinkLemmas {
  import opened Bits
  import opened Registers
  import opened Admission
  import opened Link

  /** Enabling the bridge for a connector with a TMDS character rate turns
      scrambling on exactly when the rate is above the HDMI 1.4 clock and
      the sink can be scrambled. Then the work is scheduled, the sink is
      told the source version (1, or 0 for a sink of version 0), scrambling
      and the high clock ratio, and SCRAMB_CONFIG0 holds 1; otherwise
      neither the sink, the work nor SCRAMB_CONFIG0 changes. */
  lemma AtomicEnableScrambling(m: Masks, s: State, c: Connector, rate: nat, ver: Byte, regs: map<Reg, Word>)
    requires !s.scrambEnabled
    ensures var ch := AtomicEnable(m, s, Some(c), Some(rate), ver);
            var after := Apply(regs, ch.ops);
            && ch.s.connector == Some(c) && ch.s.phyOn
            && (ch.s.scrambEnabled <==> NeedsScrambling(rate) && SupportsScrambling(c.info))
            && (ch.s.scrambEnabled ==>
                  && ch.s.pending && Value(after, ScrambConfig0) == 1
                  && ch.s.sink == Sink(if ver == 0 then 0 else 1, true, true))
            && (!ch.s.scrambEnabled ==>
                  && ch.s.pending == s.pending && ch.s.sink == s.sink
                  && Value(after, ScrambConfig0) == Value(regs, ScrambConfig0))
  {
    var ch := AtomicEnable(m, s, Some(c), Some(rate), ver);
    var opMode := if c.info.isHdmi then 0 else m.opmodeDvi;
    var tail := [Update(Hdcp2LogicConfig0, m.hdcp2Bypass, m.hdcp2Bypass), Update(LinkConfig0, opMode, m.opmodeDvi)];
    var e := if c.info.isHdmi && NeedsScrambling(rate) then EnableScramb(s.(connector := Some(c)), ver) else Change(s.(connector := Some(c)), []);
    assert ch.ops == e.ops + tail;
    ApplyConcat(regs, e.ops, tail);
    ApplyTwo(Apply(regs, e.ops), tail[0], tail[1]);
    if e.ops != [] {
      ApplyTwo(regs, e.ops[0], e.ops[0]);
    }
  }

  /** Of the driver's own accesses, enabling scrambling writes SCRAMB_CONFIG0
      and no other register. */
  lemma EnableScrambOnlyScrambConfig(s: State, ver: Byte, r: Reg)
    requires s.connector.Some? && r != ScrambConfig0
    ensures Untouched(EnableScramb(s, ver).ops, r)
  {
  }

  /** The register accesses of enabling the bridge: those of enabling
      scrambling, then the HDCP 2 bypass and the operating mode. */
  lemma AtomicEnableOps(m: Masks, s: State, c: Connector, rate: nat, ver: Byte, regs: map<Reg, Word>)
    ensures var mid := Apply(regs, AtomicEnable(m, s, Some(c), Some(rate), ver).ops[..|AtomicEnable(m, s, Some(c), Some(rate), ver).ops| - 2]);
            && |AtomicEnable(m, s, Some(c), Some(rate), ver).ops| >= 2
            && Value(mid, LinkConfig0) == Value(regs, LinkConfig0)
            && Value(mid, Hdcp2LogicConfig0) == Value(regs, Hdcp2LogicConfig0)
            && Apply(regs, AtomicEnable(m, s, Some(c), Some(rate), ver).ops)
               == Step(Step(mid, Update(Hdcp2LogicConfig0, m.hdcp2Bypass, m.hdcp2Bypass)),
                       Update(LinkConfig0, if c.info.isHdmi then 0 else m.opmodeDvi, m.opmodeDvi))
  {
    var ch := AtomicEnable(m, s, Some(c), Some(rate), ver);
    var opMode := if c.info.isHdmi then 0 else m.opmodeDvi;
    var tail := [Update(Hdcp2LogicConfig0, m.hdcp2Bypass, m.hdcp2Bypass), Update(LinkConfig0, opMode, m.opmodeDvi)];
    var s1 := s.(connector := Some(c));
    var e := if c.info.isHdmi && NeedsScrambling(rate) then EnableScramb(s1, ver) else Change(s1, []);
    assert ch.ops == e.ops + tail;
    assert ch.ops[..|ch.ops| - 2] == e.ops;
    ApplyConcat(regs, e.ops, tail);
    ApplyTwo(Apply(regs, e.ops), tail[0], tail[1]);
    EnableScrambOnlyScrambConfig(s1, ver, LinkConfig0);
    EnableScrambOnlyScrambConfig(s1, ver, Hdcp2LogicConfig0);
    ApplyUntouched(regs, e.ops, LinkConfig0);
    ApplyUntouched(regs, e.ops, Hdcp2LogicConfig0);
  }

  /** Enabling the bridge selects HDMI mode for an HDMI sink and DVI mode
      for any other, bypasses HDCP 2, and keeps every other bit of those two
      registers. */
  lemma AtomicEnableLinkMode(m: Masks, s: State, c: Connector, rate: nat, ver: Byte, regs: map<Reg, Word>)
    ensures var after := Apply(regs, AtomicEnable(m, s, Some(c), Some(rate), ver).ops);
            && And(Value(after, LinkConfig0), m.opmodeDvi) == (if c.info.isHdmi then 0 else m.opmodeDvi)
            && Clear(Value(after, LinkConfig0), m.opmodeDvi) == Clear(Value(regs, LinkConfig0), m.opmodeDvi)
            && And(Value(after, Hdcp2LogicConfig0), m.hdcp2Bypass) == m.hdcp2Bypass
            && Clear(Value(after, Hdcp2LogicConfig0), m.hdcp2Bypass) == Clear(Value(regs, Hdcp2LogicConfig0), m.hdcp2Bypass)
  {
    AtomicEnableOps(m, s, c, rate, ver, regs);
    MaskedSetsAndClears(Value(regs, LinkConfig0), m.opmodeDvi);
    MaskedSetsAndClears(Value(regs, Hdcp2LogicConfig0), m.hdcp2Bypass);
  }

  /** Disabling scrambling when it is on turns it off, cancels the work,
      clears SCRAMB_CONFIG0, and turns scrambling and the high clock ratio
      off at the sink unless the connector is disconnected, in which case
      the sink is left alone. */
  lemma DisableScrambWhenOn(s: State, regs: map<Reg, Word>)
    requires s.scrambEnabled && s.connector.Some?
    ensures var d := DisableScramb(s);
            && !d.s.scrambEnabled && !d.s.pending && d.s.connector == s.connector
            && Value(Apply(regs, d.ops), ScrambConfig0) == 0
            && (forall r | r != ScrambConfig0 :: Value(Apply(regs, d.ops), r) == Value(regs, r))
            && (s.connector.value.status != Disconnected ==>
                  d.s.sink == s.sink.(scrambling := false, highRatio := false))
            && (s.connector.value.status == Disconnected ==> d.s.sink == s.sink)
  {
    ApplyTwo(regs, Write(ScrambConfig0, 0), Write(ScrambConfig0, 0));
  }

  /** Disabling the bridge releases the connector, stops the PHY and leaves
      scrambling off, the work cancelled and SCRAMB_CONFIG0 clear. */
  lemma AtomicDisableEffect(s: State, regs: map<Reg, Word>)
    requires Inv(s, regs)
    ensures var d := AtomicDisable(s);
            && d.s.connector.None? && !d.s.phyOn && !d.s.scrambEnabled && !d.s.pending
            && Value(Apply(regs, d.ops), ScrambConfig0) == 0
  {
    if s.scrambEnabled {
      DisableScrambWhenOn(s, regs);
    }
  }

  /** The scrambling work re-arms scrambling and reschedules itself exactly
      when the sink reports scrambling off; it makes none of the driver's
      own register accesses. */
  lemma ScrambWorkEffect(s: State, sinkScrambling: bool)
    requires s.connector.Some?
    ensures var t := ScrambWork(s, sinkScrambling);
            && t.pending == !sinkScrambling
            && (sinkScrambling ==> t == s.(pending := false))
            && (!sinkScrambling ==> t.sink == s.sink.(scrambling := true, highRatio := true))
            && t.scrambEnabled == s.scrambEnabled && t.connector == s.connector
  {
  }

  /** Detection cancels the work whenever scrambling is on, refreshes the
      display information only for a connected sink, and asks for a link
      reset exactly for a connected, scrambled sink whose EDID was read,
      that can be scrambled and reports scrambling off. */
  lemma DetectEffect(s: State, hpd: Status, edid: Option<DisplayInfo>, sinkScrambling: bool)
    ensures var d := Detect(s, hpd, edid, sinkScrambling);
            && (s.scrambEnabled ==> !d.s.pending) && (!s.scrambEnabled ==> d.s.pending == s.pending)
            && (s.connector.Some? && hpd != Disconnected ==> d.s.connector.value.info == EdidInfo(edid))
            && (s.connector.Some? && hpd == Disconnected ==> d.s.connector.value.info == s.connector.value.info)
            && (d.resetLink <==>
                  hpd != Disconnected && s.connector.Some? && edid.Some? && s.scrambEnabled
                  && SupportsScrambling(edid.value) && !sinkScrambling)
  {
  }

  /** A sink unplugged while scrambled is left alone: once detection has
      reported it disconnected, disabling the bridge clears SCRAMB_CONFIG0
      but writes nothing to the sink. */
  lemma UnplugThenDisable(s: State, edid: Option<DisplayInfo>, sinkScrambling: bool, regs: map<Reg, Word>)
    requires Inv(s, regs) && s.scrambEnabled
    ensures var d := Detect(s, Disconnected, edid, sinkScrambling);
            var off := AtomicDisable(d.s);
            && off.s.sink == s.sink && !off.s.scrambEnabled
            && Value(Apply(regs, off.ops), ScrambConfig0) == 0
  {
    var d := Detect(s, Disconnected, edid, sinkScrambling);
    DisableScrambWhenOn(d.s, regs);
  }

  // ---------------------------------------------------------------------
  // The invariant

  /** Binding leaves the invariant true for register contents whose
      SCRAMB_CONFIG0 reads 0. */
  lemma InitialInv(sink: Sink, init: map<Reg, Word>)
    requires Value(init, ScrambConfig0) == 0
    ensures Inv(Initial(sink), init)
  {
  }

  /** Enabling a disabled bridge keeps the invariant. */
  lemma AtomicEnableInv(m: Masks, s: State, conn: Option<Connector>, rate: Option<nat>, ver: Byte, regs: map<Reg, Word>)
    requires Inv(s, regs) && !s.scrambEnabled
    ensures var ch := AtomicEnable(m, s, conn, rate, ver);
            Inv(ch.s, Apply(regs, ch.ops))
  {
    if conn.Some? && rate.Some? {
      AtomicEnableScrambling(m, s, conn.value, rate.value, ver, regs);
    }
  }

  lemma AtomicDisableInv(s: State, regs: map<Reg, Word>)
    requires Inv(s, regs)
    ensures var d := AtomicDisable(s);
            Inv(d.s, Apply(regs, d.ops))
  {
    AtomicDisableEffect(s, regs);
  }

  lemma DisableScrambInv(s: State, regs: map<Reg, Word>)
    requires Inv(s, regs)
    ensures var d := DisableScramb(s);
            Inv(d.s, Apply(regs, d.ops))
  {
    if s.scrambEnabled {
      DisableScrambWhenOn(s, regs);
    }
  }

  /** The work runs only while it is scheduled, and then keeps the invariant. */
  lemma ScrambWorkInv(s: State, sinkScrambling: bool, regs: map<Reg, Word>)
    requires Inv(s, regs) && s.pending
    ensures s.connector.Some?
    ensures Inv(ScrambWork(s, sinkScrambling), regs)
  {
  }

  lemma DetectInv(s: State, hpd: Status, edid: Option<DisplayInfo>, sinkScrambling: bool, regs: map<Reg, Word>)
    requires Inv(s, regs)
    ensures Inv(Detect(s, hpd, edid, sinkScrambling).s, regs)
  {
  }
}
