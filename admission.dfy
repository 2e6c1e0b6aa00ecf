/**
 * The pure admission checks of the DesignWare HDMI QP bridge: the TMDS
 * character-rate ceiling, the HDMI 1.4 threshold above which the link must
 * be scrambled, the sink capabilities scrambling needs, and the platform
 * PHY operations binding demands.
 */
module Admission {

  datatype Option<T> = None | Some(value: T)

  /** `ENODEV` of the Linux errno table; functions return its negation. */
  const ENODEV: int := 19

  /** The highest TMDS clock of HDMI 1.4; HDMI 2.0 scrambles faster links. */
  const HDMI14_MAX_TMDSCLK: nat := 340000000

  /** The highest TMDS character rate of HDMI 2.0. */
  const HDMI20_MAX_TMDSRATE: nat := 600000000

  datatype ModeStatus = ModeOk | ModeClockHigh

  /** The TMDS character-rate check of the bridge. */
  function TmdsCharRateValid(rate: nat): (r: ModeStatus)
    ensures r == ModeOk <==> rate <= HDMI20_MAX_TMDSRATE
    ensures r == ModeClockHigh <==> rate > HDMI20_MAX_TMDSRATE
  {
    if rate > HDMI20_MAX_TMDSRATE then ModeClockHigh else ModeOk
  }

  /** A rate the link can only carry scrambled: strictly above the HDMI 1.4
      clock, so 340 MHz itself is sent unscrambled. */
  predicate NeedsScrambling(rate: nat): (r: bool)
    ensures r ==> rate >= HDMI14_MAX_TMDSCLK + 1
    ensures rate > HDMI14_MAX_TMDSCLK ==> r
  {
    rate > HDMI14_MAX_TMDSCLK
  }

  /** The rate check is downward closed: a slower rate than an accepted one
      is accepted too. */
  lemma RateCheckDownwardClosed(r1: nat, r2: nat)
    requires r1 <= r2 && TmdsCharRateValid(r2) == ModeOk
    ensures TmdsCharRateValid(r1) == ModeOk
  {
  }

  /** The accepted rates that need scrambling are the HDMI 2.0 rates
      above 340 MHz and up to 600 MHz. */
  lemma ScrambledRates(rate: nat)
    ensures (NeedsScrambling(rate) && TmdsCharRateValid(rate) == ModeOk)
            <==> HDMI14_MAX_TMDSCLK < rate <= HDMI20_MAX_TMDSRATE
  {
  }

  /** The display capabilities the driver reads from the connector: HDMI
      (not DVI), and SCDC with scrambling, as the sink's EDID announces. */
  datatype DisplayInfo = DisplayInfo(isHdmi: bool, scdcSupported: bool, scramblingSupported: bool)

  /** Whether the sink can be scrambled: never a DVI sink, never a sink
      without SCDC or without scrambling support, and every other one. */
  predicate SupportsScrambling(d: DisplayInfo): (r: bool)
    ensures !d.isHdmi ==> !r
    ensures !d.scdcSupported || !d.scramblingSupported ==> !r
    ensures d.isHdmi && d.scdcSupported && d.scramblingSupported ==> r
  {
    d.isHdmi && d.scdcSupported && d.scramblingSupported
  }

  /** Which operations a platform's PHY operation table provides. */
  datatype PhyOps = PhyOps(hasInit: bool, hasDisable: bool, hasReadHpd: bool, hasSetupHpd: bool)

  /** The PHY check of binding: the table must exist and provide `init`,
      `disable` and `read_hpd`; `setup_hpd` is optional. */
  function BindCheck(ops: Option<PhyOps>): (r: int)
    ensures r == 0 || r == -ENODEV
    ensures r == 0 <==> ops.Some? && ops.value.hasInit && ops.value.hasDisable && ops.value.hasReadHpd
  {
    if ops.None? || !ops.value.hasInit || !ops.value.hasDisable || !ops.value.hasReadHpd then -ENODEV
    else 0
  }

  /** Binding does not depend on whether `setup_hpd` is provided. */
  lemma SetupHpdOptional(ops: PhyOps)
    ensures BindCheck(Some(ops.(hasSetupHpd := false))) == BindCheck(Some(ops.(hasSetupHpd := true)))
  {
  }
}
