/**
 * The scrambling and link state machine of the DesignWare HDMI QP bridge:
 * the SCDC negotiation of section 10.4 of the HDMI 2.0 specification around
 * enabling and disabling the bridge, the delayed work that re-arms
 * scrambling while the sink reports it off, and the control flow of
 * hot-plug detection.
 *
 * The sink's SCDC registers, the PHY, the EDID reader and the delayed work
 * are outside the driver. The sink's state is the part of the `State` the
 * driver writes over SCDC; the work is the `pending` flag; what the sink
 * and the PHY report are parameters.
 */
module Link {
  import opened Bits
  import opened Registers
  import opened Admission

  /** The SCDC Source Version the driver advertises at most. */
  const SCDC_MIN_SOURCE_VERSION: Byte := 0x1

  /** What hot-plug detection reports about the connector. */
  datatype Status = Connected | Disconnected | Unknown

  /** The connector the bridge drives: its last detected status and its
      display information. */
  datatype Connector = Connector(status: Status, info: DisplayInfo)

  /** The SCDC registers of the sink the driver writes: the Source Version,
      Scrambling_Enable and TMDS_Bit_Clock_Ratio. */
  datatype Sink = Sink(sourceVersion: Byte, scrambling: bool, highRatio: bool)

  /** The bridge's link state: the connector it drives while enabled,
      whether scrambling is on, whether the scrambling work is scheduled,
      the sink's SCDC state and whether the PHY is running. */
  datatype State = State(connector: Option<Connector>, scrambEnabled: bool, pending: bool, sink: Sink, phyOn: bool)

  /** A new link state and the driver's own register accesses made on the
      way; the DDC transfers of the SCDC and EDID helpers are not in it. */
  datatype Change = Change(s: State, ops: seq<Access>)

  /** What detection returns: the hot-plug status, the new link state, and
      whether it asks for the link to be reset. */
  datatype Detection = Detection(status: Status, s: State, resetLink: bool)

  /** The bridge as binding leaves it. */
  function Initial(sink: Sink): State {
    State(None, false, false, sink, false)
  }

  /** `min(ver, SCDC_MIN_SOURCE_VERSION)` as an unsigned byte: the sink's
      own version when that is lower, the driver's otherwise. */
  function SourceVersion(ver: Byte): (r: Byte)
    ensures r <= ver && r <= SCDC_MIN_SOURCE_VERSION
    ensures r == ver || r == SCDC_MIN_SOURCE_VERSION
  {
    if ver < SCDC_MIN_SOURCE_VERSION then ver else SCDC_MIN_SOURCE_VERSION
  }

  /** Turning scrambling on at the sink and scheduling the status poll. */
  function SetScramb(s: State): (r: State)
    ensures r.sink.scrambling && r.sink.highRatio && r.pending
    ensures r.sink.sourceVersion == s.sink.sourceVersion
    ensures r.connector == s.connector && r.scrambEnabled == s.scrambEnabled && r.phyOn == s.phyOn
  {
    s.(sink := s.sink.(highRatio := true, scrambling := true), pending := true)
  }

  /** The delayed work, run because it was scheduled: it re-arms scrambling
      when the sink's Scrambling_Status reads off. */
  function ScrambWork(s: State, sinkScrambling: bool): (r: State)
    requires s.connector.Some?
    ensures r.connector == s.connector && r.scrambEnabled == s.scrambEnabled && r.phyOn == s.phyOn
  {
    var s1 := s.(pending := false);
    if !sinkScrambling then SetScramb(s1) else s1
  }

  /** Enabling scrambling for a sink whose SCDC Sink Version reads `ver`;
      nothing happens for a sink that cannot be scrambled. */
  function EnableScramb(s: State, ver: Byte): (r: Change)
    requires s.connector.Some?
    ensures r.s.scrambEnabled == (s.scrambEnabled || SupportsScrambling(s.connector.value.info))
    ensures r.ops == (if SupportsScrambling(s.connector.value.info) then [Write(ScrambConfig0, 1)] else [])
    ensures SupportsScrambling(s.connector.value.info) ==>
              r.s.pending && r.s.sink == Sink(SourceVersion(ver), true, true)
    ensures !SupportsScrambling(s.connector.value.info) ==> r.s == s
    ensures r.s.connector == s.connector && r.s.phyOn == s.phyOn
  {
    if !SupportsScrambling(s.connector.value.info) then Change(s, [])
    else
      var s1 := SetScramb(s.(sink := s.sink.(sourceVersion := SourceVersion(ver))));
      Change(s1.(scrambEnabled := true), [Write(ScrambConfig0, 1)])
  }

  /** Disabling scrambling: the work is cancelled, the transmitter stops
      scrambling, and a sink that is still there is told so. */
  function DisableScramb(s: State): (r: Change)
    requires s.scrambEnabled ==> s.connector.Some?
    ensures !r.s.scrambEnabled
    ensures r.s.connector == s.connector && r.s.phyOn == s.phyOn
    ensures !s.scrambEnabled ==> r == Change(s, [])
  {
    if !s.scrambEnabled then Change(s, [])
    else
      var s1 := s.(scrambEnabled := false, pending := false);
      if s.connector.value.status != Disconnected then
        Change(s1.(sink := s1.sink.(scrambling := false, highRatio := false)), [Write(ScrambConfig0, 0)])
      else Change(s1, [Write(ScrambConfig0, 0)])
  }

  /** Enabling the bridge for `conn`, whose new state carries the TMDS
      character rate `rate`; either may be missing, which the driver warns
      about and stops at. HDMI sinks run in HDMI mode and are scrambled
      above the HDMI 1.4 clock; other sinks run in DVI mode. */
  function AtomicEnable(m: Masks, s: State, conn: Option<Connector>, rate: Option<nat>, ver: Byte): (r: Change)
    ensures r.s.connector == conn
    ensures conn.None? || rate.None? ==> r == Change(s.(connector := conn), [])
    ensures conn.Some? && rate.Some? ==> r.s.phyOn
    ensures conn.Some? && rate.Some? && !(conn.value.info.isHdmi && NeedsScrambling(rate.value)) ==>
              r.s == s.(connector := conn, phyOn := true)
  {
    var s1 := s.(connector := conn);
    if conn.None? || rate.None? then Change(s1, [])
    else
      var info := conn.value.info;
      var e := if info.isHdmi && NeedsScrambling(rate.value) then EnableScramb(s1, ver) else Change(s1, []);
      var opMode := if info.isHdmi then 0 else m.opmodeDvi;
      Change(e.s.(phyOn := true),
             e.ops + [Update(Hdcp2LogicConfig0, m.hdcp2Bypass, m.hdcp2Bypass),
                      Update(LinkConfig0, opMode, m.opmodeDvi)])
  }

  /** Disabling the bridge: scrambling off, the connector released and the
      PHY stopped. */
  function AtomicDisable(s: State): (r: Change)
    requires s.scrambEnabled ==> s.connector.Some?
    ensures r.s.connector.None? && !r.s.phyOn && !r.s.scrambEnabled
    ensures r.ops == DisableScramb(s).ops && r.s.sink == DisableScramb(s).s.sink
  {
    var d := DisableScramb(s);
    Change(d.s.(connector := None, phyOn := false), d.ops)
  }

  /** The display information the EDID update leaves: what `edid` parses
      to, or the reset information when no EDID could be read. */
  function EdidInfo(edid: Option<DisplayInfo>): (r: DisplayInfo)
    ensures edid.Some? ==> r == edid.value
    ensures edid.None? ==> !r.isHdmi && !SupportsScrambling(r)
  {
    if edid.Some? then edid.value else DisplayInfo(false, false, false)
  }

  /** Hot-plug detection. `hpd` is what the PHY reports, `edid` the result
      of reading the EDID and `sinkScrambling` the sink's Scrambling_Status.
      The returned status becomes the connector's status, as the probe
      helper that calls detection records it. The link is reset only for a
      connected, scrambled sink whose EDID was read, that can be scrambled
      and that reports scrambling off. */
  function Detect(s: State, hpd: Status, edid: Option<DisplayInfo>, sinkScrambling: bool): (d: Detection)
    ensures d.status == hpd
    ensures d.s.connector.Some? == s.connector.Some?
    ensures s.connector.Some? ==> d.s.connector.value.status == hpd
    ensures d.s.scrambEnabled == s.scrambEnabled && d.s.sink == s.sink && d.s.phyOn == s.phyOn
  {
    var s0 := if s.scrambEnabled then s.(pending := false) else s;
    var s1 := if s0.connector.Some? then s0.(connector := Some(s0.connector.value.(status := hpd))) else s0;
    if hpd == Disconnected || s1.connector.None? then Detection(hpd, s1, false)
    else
      var c := s1.connector.value.(info := EdidInfo(edid));
      var s2 := s1.(connector := Some(c));
      if edid.None? || !s2.scrambEnabled || !SupportsScrambling(c.info) || sinkScrambling then
        Detection(hpd, s2, false)
      else Detection(hpd, s2, true)
  }

  /** What every reachable state keeps: the work is only scheduled while
      scrambling, scrambling only runs with a connector, and SCRAMB_CONFIG0
      says whether the transmitter scrambles. */
  predicate Inv(s: State, regs: map<Reg, Word>) {
    && (s.pending ==> s.scrambEnabled)
    && (s.scrambEnabled ==> s.connector.Some?)
    && Value(regs, ScrambConfig0) == (if s.scrambEnabled then 1 else 0)
  }
}
