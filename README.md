# DesignWare HDMI QP bridge: a verified model

This project models the core of the Synopsys DesignWare HDMI QP transmitter
bridge driver (`drivers/gpu/drm/bridge/synopsys/dw-hdmi-qp.c`) in Dafny and
proves properties of the model. It covers five pieces of the driver:

- **The register map** behind the driver's three helpers (write, read,
  masked update). It is kept as the ordered record of every access. The
  register values are the initial ones with that record applied. A masked
  update leaves `(old & ~mask) | (data & mask)`, with the value given
  before the mask as in the driver.
- **The DDC/I2C transfer engine** (`i2c_xfer`, `i2c_read`, `i2c_write`).
  It emulates multi-message I2C one bus byte at a time, with a `u8`
  register cursor that wraps modulo 256 and the `is_regaddr`/`is_segment`
  flags. It handles the E-DDC segment pointer. Each byte's wait outcome is
  an input: a timeout, or completion with the latched status and the RDDATA
  value.
- **The interrupt status latch** (`main_hardirq`).
- **The InfoFrame packer**. `config_avi_infoframe` and
  `config_drm_infoframe` pack CTA-861 InfoFrames little-endian into the
  content registers and toggle the field-rate and transmit-enable bits.
  `clear_infoframe` and `write_infoframe` are modelled too.
- **The scrambling and link flag machine**: `supports_scrambling`,
  `set_scramb`, `scramb_work`, `enable_scramb`, `disable_scramb`,
  `atomic_enable`, `atomic_disable` and the control flow of `detect`.
  This is the SCDC flow of section 10.4 of the HDMI 2.0 specification. It
  sits beside the pure admission checks: the 600000000 TMDS character rate
  ceiling, the 340000000 scrambling threshold and the PHY operation check
  of `bind`.

Each C function that works step by step is a method of the class
`HdmiQp.DwHdmiQp`, whose fields are the driver's state. The class holds a
`RegisterMap`, an `I2c` adapter state, the connector, `scrambEnabled` and
`pending`. It also has ghost fields for what the driver has told the sink
and whether the PHY runs. Message buffers are arrays.

Each method is proved to end where a specification function over values
says:

- the same return code;
- the same register accesses, in the same order;
- the same engine state, buffer contents and link state.

The modules `DdcI2c`, `Infoframes` and `Link` hold those functions.
`DdcI2cLemmas`, `InfoframeLemmas` and `LinkLemmas` prove what the driver
promises about them. `LoopSteps` connects the loops to the recursive
functions.

Register offsets and bit masks come from a header that is not part of this
model. Offsets are the constructors of a `Reg` datatype, so they are
distinct by construction. Masks are the fields of a `Masks` record and are
otherwise unconstrained.

One point of the engine is easy to misread; the model follows the code.
After a one-byte segment message, **every** byte of the next read message
uses the extended-read strobe (I2CM_EXT_READ), not only the first. The
flag is cleared when that read message completes, so later reads in the
same transfer use I2CM_FM_READ (`dw-hdmi-qp.c:112-117,137`).

## Model

All sources are `drivers/gpu/drm/bridge/synopsys/dw-hdmi-qp.c`.

| member | source | states |
|---|---|---|
| HdmiQp.RegisterMap.WriteReg | drivers/gpu/drm/bridge/synopsys/dw-hdmi-qp.c:73-77 | a register write appends exactly one write access to the record and nothing else |
| HdmiQp.RegisterMap.ReadReg | drivers/gpu/drm/bridge/synopsys/dw-hdmi-qp.c:79-86 | a read returns what the hardware holds and records it |
| HdmiQp.RegisterMap.Mod | drivers/gpu/drm/bridge/synopsys/dw-hdmi-qp.c:88-92 | a masked update appends one update access, value before mask |
| Registers.ApplyAppend | drivers/gpu/drm/bridge/synopsys/dw-hdmi-qp.c:73-92 | the register values after one more access are those before it with that access applied |
| Bits.MaskedFields | drivers/gpu/drm/bridge/synopsys/dw-hdmi-qp.c:88-92 | after a masked update the bits under the mask are the data's and the bits outside it are the old value's |
| Bits.MaskedTwice | drivers/gpu/drm/bridge/synopsys/dw-hdmi-qp.c:88-92 | repeating a masked update changes nothing more |
| Registers.UpdateIdempotent | drivers/gpu/drm/bridge/synopsys/dw-hdmi-qp.c:88-92 | applying the same masked update twice to a register file is applying it once |
| DdcI2cLemmas.AdvanceWraps | drivers/gpu/drm/bridge/synopsys/dw-hdmi-qp.c:109 | after t bus bytes the `u8` cursor is its start plus t, modulo 256 |
| DdcI2c.ReadLoop | drivers/gpu/drm/bridge/synopsys/dw-hdmi-qp.c:106-137 | the read loop stops after all n bytes with 0 or at the first failing byte with an error; it reads one byte per clean wait and keeps both flags |
| DdcI2c.I2cRead | drivers/gpu/drm/bridge/synopsys/dw-hdmi-qp.c:94-140 | a read message returns 0 after exactly n waits or fails at a byte it counts; the cursor is set afterwards |
| DdcI2cLemmas.ReadLoopFails | drivers/gpu/drm/bridge/synopsys/dw-hdmi-qp.c:109-131 | unfolding of one branch: a byte whose wait times out or sees NACK programs the cursor and strobe, resets the engine with 0x01 and returns -EAGAIN or -EIO respectively, reading nothing |
| DdcI2cLemmas.ReadLoopCleanOps | drivers/gpu/drm/bridge/synopsys/dw-hdmi-qp.c:109-134 | unfolding of one branch: a clean byte programs the cursor, strobes, reads RDDATA and clears the strobe bits, then the loop continues |
| DdcI2cLemmas.ReadLoopCleanRest | drivers/gpu/drm/bridge/synopsys/dw-hdmi-qp.c:133 | a clean byte stores RDDATA & 0xff in the next buffer slot |
| DdcI2cLemmas.ReadLoopLength | drivers/gpu/drm/bridge/synopsys/dw-hdmi-qp.c:106-135 | a read makes four accesses per completed byte and three for a failing one |
| DdcI2cLemmas.ReadLoopBytes | drivers/gpu/drm/bridge/synopsys/dw-hdmi-qp.c:109-117 | bus byte j of a read programs cursor start+j (mod 256) and the segment-dependent strobe |
| DdcI2cLemmas.ReadLoopReadBacks | drivers/gpu/drm/bridge/synopsys/dw-hdmi-qp.c:133-134 | byte j of the read data is the low byte of RDDATA at wait j, and its strobe bits are cleared after it |
| DdcI2cLemmas.ReadLoopCursorEnd | drivers/gpu/drm/bridge/synopsys/dw-hdmi-qp.c:109 | a read leaves the cursor advanced by exactly the bus bytes it issued |
| DdcI2cLemmas.ReadLoopOutcome | drivers/gpu/drm/bridge/synopsys/dw-hdmi-qp.c:119-131 | a read succeeds iff all n waits are clean; otherwise it fails at the first unclean one with -EAGAIN for a timeout and -EIO for NACK |
| DdcI2c.WriteLoop | drivers/gpu/drm/bridge/synopsys/dw-hdmi-qp.c:156-180 | the write loop stops after all bytes with 0 or at the first failing byte; it keeps both flags and reads nothing |
| DdcI2c.I2cWrite | drivers/gpu/drm/bridge/synopsys/dw-hdmi-qp.c:142-183 | after a write message the cursor counts as set and the segment flag is unchanged |
| DdcI2cLemmas.WriteLoopFails | drivers/gpu/drm/bridge/synopsys/dw-hdmi-qp.c:159-177 | unfolding of one branch: a failing byte writes WRDATA, programs the cursor, strobes a write, resets with 0x01 and returns -EAGAIN or -EIO |
| DdcI2cLemmas.WriteLoopClean | drivers/gpu/drm/bridge/synopsys/dw-hdmi-qp.c:159-180 | unfolding of one branch: a clean byte writes WRDATA, programs the cursor, strobes, clears the strobe bits and continues with the next byte |
| DdcI2cLemmas.WriteLoopLength | drivers/gpu/drm/bridge/synopsys/dw-hdmi-qp.c:156-180 | a write makes exactly four accesses per bus byte issued |
| DdcI2cLemmas.WriteLoopBytes | drivers/gpu/drm/bridge/synopsys/dw-hdmi-qp.c:159-163 | bus byte j of a write sends data byte j at cursor start+j (mod 256) |
| DdcI2cLemmas.WriteLoopClears | drivers/gpu/drm/bridge/synopsys/dw-hdmi-qp.c:179 | every successful write byte clears the strobe bits |
| DdcI2cLemmas.WriteLoopCursorEnd | drivers/gpu/drm/bridge/synopsys/dw-hdmi-qp.c:161 | a write leaves the cursor advanced by exactly the bus bytes it issued |
| DdcI2cLemmas.WriteLoopOutcome | drivers/gpu/drm/bridge/synopsys/dw-hdmi-qp.c:165-177 | a write succeeds iff all its waits are clean, else fails at the first unclean one with the matching code |
| DdcI2cLemmas.ReadMsgCursor | drivers/gpu/drm/bridge/synopsys/dw-hdmi-qp.c:100-137 | a read starts at register 0 unless the cursor is set, advances it by one per byte, and clears the segment flag only on success |
| DdcI2cLemmas.WriteMsgCursor | drivers/gpu/drm/bridge/synopsys/dw-hdmi-qp.c:148-163 | while the cursor is unset a write takes buf[0] as register and sends the rest; once set it sends every byte |
| DdcI2c.MsgStep | drivers/gpu/drm/bridge/synopsys/dw-hdmi-qp.c:231-243 | one message reads at most its length, and a write or segment message reads nothing |
| DdcI2cLemmas.SegmentMsgSetsPointer | drivers/gpu/drm/bridge/synopsys/dw-hdmi-qp.c:231-236 | unfolding of one branch: a one-byte message to 0x30 makes no bus byte; it writes SEG_ADDR=0x30 and SEG_PTR=buf[0]<<7 and sets the segment flag |
| DdcI2c.MsgLoop | drivers/gpu/drm/bridge/synopsys/dw-hdmi-qp.c:230-247 | the message loop returns 0, -EAGAIN or -EIO, and a failure ends with the engine reset |
| DdcI2cLemmas.MsgLoopBufs | drivers/gpu/drm/bridge/synopsys/dw-hdmi-qp.c:230-247 | every buffer keeps its length, and write and segment buffers are unchanged |
| DdcI2cLemmas.MsgLoopStopsAtFailure | drivers/gpu/drm/bridge/synopsys/dw-hdmi-qp.c:245-246 | once a message fails, later messages make no access and leave their buffers alone |
| DdcI2c.Xfer | drivers/gpu/drm/bridge/synopsys/dw-hdmi-qp.c:185-257 | a DDC/CI or zero-length transfer returns -EOPNOTSUPP with no access; otherwise the transfer returns num, -EAGAIN or -EIO and starts by unmasking and ends by masking the DDC interrupts |
| DdcI2cLemmas.XferFrame | drivers/gpu/drm/bridge/synopsys/dw-hdmi-qp.c:213-256 | unfolding of one branch: an accepted transfer is: unmask, slave address, the message loop from a reset cursor, mask; it returns num on success |
| DdcI2cLemmas.XferLeavesMaskAlone | drivers/gpu/drm/bridge/synopsys/dw-hdmi-qp.c:213-254 | between the unmask and the mask, no access touches MAINUNIT_1_INT_MASK_N |
| DdcI2cLemmas.XferMasksInterruptsAfter | drivers/gpu/drm/bridge/synopsys/dw-hdmi-qp.c:252-254 | after every accepted transfer the OP_DONE/NACK mask bits are clear and the other bits are as before |
| DdcI2cLemmas.XferStopsAtFailure | drivers/gpu/drm/bridge/synopsys/dw-hdmi-qp.c:245-250 | appending messages after a failing one changes neither the result nor the accesses |
| DdcI2cLemmas.XferIgnoresPriorState | drivers/gpu/drm/bridge/synopsys/dw-hdmi-qp.c:224-228 | a transfer's result does not depend on the engine state left by earlier transfers |
| DdcI2cLemmas.SingleByteWriteSetsCursor | drivers/gpu/drm/bridge/synopsys/dw-hdmi-qp.c:148-154 | a one-byte write only sets the cursor: return 1, no bus byte |
| DdcI2cLemmas.SingleByteReadTimesOut | drivers/gpu/drm/bridge/synopsys/dw-hdmi-qp.c:119-124 | a read that sees no completion returns -EAGAIN and leaves I2CM_CONTROL0 at 0x01 |
| DdcI2cLemmas.SegmentThenOffset | drivers/gpu/drm/bridge/synopsys/dw-hdmi-qp.c:148-154 | a segment message then a one-byte offset write set the segment pointer and the cursor without a bus byte |
| DdcI2cLemmas.BlockReadLoop | drivers/gpu/drm/bridge/synopsys/dw-hdmi-qp.c:230-247 | with clean waits, the E-DDC segment/offset/read sequence reads the whole block |
| DdcI2cLemmas.SegmentedBlockRead | drivers/gpu/drm/bridge/synopsys/dw-hdmi-qp.c:218-236 | the E-DDC segmented read returns 3, addresses DDC_ADDR, and reads every byte from the offset with the extended-read strobe; the segment flag ends clear |
| DdcI2cLemmas.HardirqAcksOwnBits | drivers/gpu/drm/bridge/synopsys/dw-hdmi-qp.c:683-703 | the latched status is raw & (OP_DONE/READ_REQUEST/NACK); it is written back and signalled iff non-zero; the handler returns HANDLED iff raw is non-zero |
| DdcI2c.Hardirq | drivers/gpu/drm/bridge/synopsys/dw-hdmi-qp.c:683-703 | the handler reads the status first, writes it back and signals the waiter iff the latched status is non-zero, and returns HANDLED iff the raw status is non-zero |
| DdcI2cLemmas.HardirqNack | drivers/gpu/drm/bridge/synopsys/dw-hdmi-qp.c:691-692 | the latched status has the NACK bit iff the raw status does |
| DdcI2cLemmas.NackLatchFailsByte | drivers/gpu/drm/bridge/synopsys/dw-hdmi-qp.c:126-131 | a byte completed by an interrupt that latched NACK fails with -EIO, and only then |
| HdmiQp.DwHdmiQp.ReadByte | drivers/gpu/drm/bridge/synopsys/dw-hdmi-qp.c:107-134 | one read bus byte makes the accesses and returns the code and byte that the specification's byte step gives |
| HdmiQp.DwHdmiQp.I2cRead | drivers/gpu/drm/bridge/synopsys/dw-hdmi-qp.c:94-140 | the read method's return, engine, accesses and buffer contents are DdcI2c.I2cRead's |
| HdmiQp.DwHdmiQp.WriteByte | drivers/gpu/drm/bridge/synopsys/dw-hdmi-qp.c:157-180 | one write bus byte makes the accesses and returns the code that the specification's byte step gives |
| HdmiQp.DwHdmiQp.I2cWrite | drivers/gpu/drm/bridge/synopsys/dw-hdmi-qp.c:142-183 | the write method's return, engine and accesses are DdcI2c.I2cWrite's |
| HdmiQp.DwHdmiQp.SetSegment | drivers/gpu/drm/bridge/synopsys/dw-hdmi-qp.c:232-236 | a segment message sets the flag and writes SEG_ADDR and SEG_PTR |
| HdmiQp.DwHdmiQp.XferMsg | drivers/gpu/drm/bridge/synopsys/dw-hdmi-qp.c:231-244 | one message does what DdcI2c.MsgStep says and changes no other message's buffer |
| HdmiQp.DwHdmiQp.Refused | drivers/gpu/drm/bridge/synopsys/dw-hdmi-qp.c:193-209 | the admission scan refuses exactly the DDC/CI and zero-length transfers |
| HdmiQp.DwHdmiQp.SendMessages | drivers/gpu/drm/bridge/synopsys/dw-hdmi-qp.c:230-247 | the message loop's return, engine, accesses and buffers are the specification loop's |
| HdmiQp.DwHdmiQp.StartTransfer | drivers/gpu/drm/bridge/synopsys/dw-hdmi-qp.c:213-228 | unmask, program the slave address (0x30 becomes DDC_ADDR), reset both flags |
| HdmiQp.DwHdmiQp.MaskDdcInterrupts | drivers/gpu/drm/bridge/synopsys/dw-hdmi-qp.c:252-254 | the transfer ends by masking the OP_DONE/NACK interrupts |
| HdmiQp.DwHdmiQp.Transfer | drivers/gpu/drm/bridge/synopsys/dw-hdmi-qp.c:211-256 | an accepted transfer does what DdcI2c.Xfer says |
| HdmiQp.DwHdmiQp.I2cXfer | drivers/gpu/drm/bridge/synopsys/dw-hdmi-qp.c:185-257 | the transfer method's return, engine, accesses and buffers are DdcI2c.Xfer's |
| HdmiQp.DwHdmiQp.MainHardirq | drivers/gpu/drm/bridge/synopsys/dw-hdmi-qp.c:683-703 | the handler latches, acknowledges and returns as DdcI2c.Hardirq says |
| Infoframes.LaneOfPacked | drivers/gpu/drm/bridge/synopsys/dw-hdmi-qp.c:324-326 | byte j of a packed word is content byte 4i+j (zero past the end) |
| Infoframes.UnpackPack | drivers/gpu/drm/bridge/synopsys/dw-hdmi-qp.c:320-330 | unpacking the packed content words gives back the content bytes |
| Infoframes.PackUnpack | drivers/gpu/drm/bridge/synopsys/dw-hdmi-qp.c:320-330 | packing the bytes of whole words gives back the words |
| Infoframes.HeadWordLanes | drivers/gpu/drm/bridge/synopsys/dw-hdmi-qp.c:317 | the head word is buffer[1]<<8 \| buffer[2]<<16; its lanes 1 and 2 are those bytes and lanes 0 and 3 are zero |
| Infoframes.AccumulateLane | drivers/gpu/drm/bridge/synopsys/dw-hdmi-qp.c:324-326 | each inner step ors the next byte into its lane, and the last lane gives the packed word |
| Infoframes.DrmValPacks | drivers/gpu/drm/bridge/synopsys/dw-hdmi-qp.c:355-358 | the DRM accumulator holds the lanes so far, and the packed word when the word or the bytes end |
| Infoframes.DrmWritesPacked | drivers/gpu/drm/bridge/synopsys/dw-hdmi-qp.c:355-363 | the DRM loop's writes are the packed content words, one per full word plus the last partial one |
| Infoframes.ConfigAvi | drivers/gpu/drm/bridge/synopsys/dw-hdmi-qp.c:303-338 | a wrong length returns -EINVAL with no access; a right one returns 0 after seven accesses |
| Infoframes.ConfigDrm | drivers/gpu/drm/bridge/synopsys/dw-hdmi-qp.c:340-370 | a wrong length returns -EINVAL with no access; a right one returns 0 after 5 + buffer[2]/4 accesses |
| Infoframes.ClearInfoframe | drivers/gpu/drm/bridge/synopsys/dw-hdmi-qp.c:627-647 | clearing always returns 0 |
| InfoframeLemmas.ContentWritesEffect | drivers/gpu/drm/bridge/synopsys/dw-hdmi-qp.c:329 | content register i holds word i after the content writes; no other register changes |
| InfoframeLemmas.ConfigAviContents | drivers/gpu/drm/bridge/synopsys/dw-hdmi-qp.c:303-338 | an AVI frame lands with version and length in CONTENTS0 and its 14 bytes in CONTENTS1-4, byte for byte; the top two bytes of the last word are zero |
| InfoframeLemmas.ConfigAviScheduling | drivers/gpu/drm/bridge/synopsys/dw-hdmi-qp.c:332-335 | the AVI field-rate bit ends clear, AVI and GCP transmit bits set, all other bits and registers outside the packet unchanged |
| InfoframeLemmas.ConfigDrmContents | drivers/gpu/drm/bridge/synopsys/dw-hdmi-qp.c:340-370 | a DRM frame lands with version and length in CONTENTS0 and its buffer[2]+1 bytes in buffer[2]/4+1 words, byte for byte |
| InfoframeLemmas.ConfigDrmScheduling | drivers/gpu/drm/bridge/synopsys/dw-hdmi-qp.c:350-367 | the DRM field-rate bit ends clear, its transmit bit set, all other bits and registers outside the packet unchanged |
| InfoframeLemmas.ConfigDrmPausesTransmission | drivers/gpu/drm/bridge/synopsys/dw-hdmi-qp.c:350-367 | the DRM transmit bit is clear from the first access until the last |
| InfoframeLemmas.ClearInfoframeEffect | drivers/gpu/drm/bridge/synopsys/dw-hdmi-qp.c:627-647 | clearing clears exactly the type's transmit bits; an unknown type changes nothing |
| InfoframeLemmas.ClearInfoframeIdempotent | drivers/gpu/drm/bridge/synopsys/dw-hdmi-qp.c:627-647 | clearing twice is clearing once |
| InfoframeLemmas.WriteUnknownInfoframe | drivers/gpu/drm/bridge/synopsys/dw-hdmi-qp.c:664-666 | writing an unknown type returns 0 and changes nothing |
| InfoframeLemmas.WriteInfoframeWrongLength | drivers/gpu/drm/bridge/synopsys/dw-hdmi-qp.c:649-668 | a wrong length returns -EINVAL, and the type stays cleared |
| Infoframes.WriteInfoframe | drivers/gpu/drm/bridge/synopsys/dw-hdmi-qp.c:649-668 | an unknown type returns 0 with no access; AVI and DRM are cleared first, then return 0 iff the buffer has the frame size, and a wrong size leaves only the clear |
| InfoframeLemmas.WriteAviInfoframe | drivers/gpu/drm/bridge/synopsys/dw-hdmi-qp.c:649-662 | writing an AVI frame succeeds, its bytes read back and its transmit bits are set |
| InfoframeLemmas.WriteDrmInfoframe | drivers/gpu/drm/bridge/synopsys/dw-hdmi-qp.c:649-663 | writing a DRM frame succeeds, its bytes read back and its transmit bit is set |
| HdmiQp.DwHdmiQp.AviWord | drivers/gpu/drm/bridge/synopsys/dw-hdmi-qp.c:321-327 | the inner AVI loop computes packed content word i |
| HdmiQp.DwHdmiQp.ConfigAviInfoframe | drivers/gpu/drm/bridge/synopsys/dw-hdmi-qp.c:303-338 | the AVI method returns and accesses as Infoframes.ConfigAvi says |
| HdmiQp.DwHdmiQp.WriteDrmContent | drivers/gpu/drm/bridge/synopsys/dw-hdmi-qp.c:355-363 | the DRM loop writes exactly the packed content words in order |
| HdmiQp.DwHdmiQp.ConfigDrmInfoframe | drivers/gpu/drm/bridge/synopsys/dw-hdmi-qp.c:340-370 | the DRM method returns and accesses as Infoframes.ConfigDrm says |
| HdmiQp.DwHdmiQp.BridgeClearInfoframe | drivers/gpu/drm/bridge/synopsys/dw-hdmi-qp.c:627-647 | the clear method returns and accesses as Infoframes.ClearInfoframe says |
| HdmiQp.DwHdmiQp.BridgeWriteInfoframe | drivers/gpu/drm/bridge/synopsys/dw-hdmi-qp.c:649-668 | the write method clears then configures, as Infoframes.WriteInfoframe says |
| Admission.TmdsCharRateValid | drivers/gpu/drm/bridge/synopsys/dw-hdmi-qp.c:612-625 | MODE_OK iff rate <= 600000000, MODE_CLOCK_HIGH iff above |
| Admission.NeedsScrambling | drivers/gpu/drm/bridge/synopsys/dw-hdmi-qp.c:463 | a rate needs scrambling iff it is strictly above 340000000; 340000000 itself is sent unscrambled |
| Admission.SupportsScrambling | drivers/gpu/drm/bridge/synopsys/dw-hdmi-qp.c:372-384 | a DVI sink, and a sink without SCDC or without scrambling support, cannot be scrambled; every other sink can |
| Admission.RateCheckDownwardClosed | drivers/gpu/drm/bridge/synopsys/dw-hdmi-qp.c:619-624 | a rate below an accepted rate is accepted |
| Admission.ScrambledRates | drivers/gpu/drm/bridge/synopsys/dw-hdmi-qp.c:38-39 | an accepted rate needs scrambling iff it lies in (340000000, 600000000] |
| Admission.BindCheck | drivers/gpu/drm/bridge/synopsys/dw-hdmi-qp.c:742-746 | bind proceeds iff the PHY table exists with init, disable and read_hpd; otherwise -ENODEV |
| Admission.SetupHpdOptional | drivers/gpu/drm/bridge/synopsys/dw-hdmi-qp.c:742-746 | whether setup_hpd is present does not affect the check |
| HdmiQp.DwHdmiQp.Bind | drivers/gpu/drm/bridge/synopsys/dw-hdmi-qp.c:733-802 | a bridge bound past the PHY check starts with no connector, scrambling off, nothing scheduled and an empty access record |
| LinkLemmas.AtomicEnableScrambling | drivers/gpu/drm/bridge/synopsys/dw-hdmi-qp.c:441-476 | enabling binds the connector and starts the PHY; scrambling ends on iff the rate exceeds 340000000 and the sink is HDMI with SCDC scrambling, in which case the source version is min(ver, 1), the sink is told, the poll is scheduled and SCRAMB_CONFIG0 is 1 |
| Link.SourceVersion | drivers/gpu/drm/bridge/synopsys/dw-hdmi-qp.c:414-415 | the advertised source version is at most the sink's version and at most 1, and is one of the two |
| Link.SetScramb | drivers/gpu/drm/bridge/synopsys/dw-hdmi-qp.c:386-395 | the sink gets scrambling and the high clock ratio and the poll is scheduled; the connector, the flag, the source version and the PHY stay |
| Link.ScrambWork | drivers/gpu/drm/bridge/synopsys/dw-hdmi-qp.c:397-404 | the work changes neither the connector, the scrambling flag nor the PHY |
| Link.EnableScramb | drivers/gpu/drm/bridge/synopsys/dw-hdmi-qp.c:406-421 | for a sink that can be scrambled: flag on, poll scheduled, sink told min(ver, 1), scrambling and the high ratio, and the driver's only own access writes SCRAMB_CONFIG0 = 1; otherwise nothing changes and nothing is accessed |
| Link.DisableScramb | drivers/gpu/drm/bridge/synopsys/dw-hdmi-qp.c:423-439 | scrambling ends off with the connector and the PHY unchanged; when it was already off nothing changes and nothing is accessed |
| Link.AtomicEnable | drivers/gpu/drm/bridge/synopsys/dw-hdmi-qp.c:441-476 | the connector becomes the new one; without a connector or a connector state nothing else happens; otherwise the PHY runs, and a DVI sink or a rate up to 340000000 changes nothing else in the link state |
| Link.AtomicDisable | drivers/gpu/drm/bridge/synopsys/dw-hdmi-qp.c:478-487 | the connector is released, the PHY stopped and scrambling off, with the accesses and sink writes of disabling scrambling |
| Link.EdidInfo | drivers/gpu/drm/bridge/synopsys/dw-hdmi-qp.c:566 | a parsed EDID becomes the display information; a failed read leaves a non-HDMI sink that cannot be scrambled |
| Link.Detect | drivers/gpu/drm/bridge/synopsys/dw-hdmi-qp.c:543-596 | detection returns what the PHY reports, records it as the bound connector's status, keeps the connector bound or unbound, and leaves scrambling, the sink and the PHY unchanged |
| LinkLemmas.EnableScrambOnlyScrambConfig | drivers/gpu/drm/bridge/synopsys/dw-hdmi-qp.c:406-421 | of its own register accesses, enabling scrambling writes only SCRAMB_CONFIG0 |
| LinkLemmas.AtomicEnableOps | drivers/gpu/drm/bridge/synopsys/dw-hdmi-qp.c:458-473 | enabling ends with the HDCP2 bypass and the operating-mode updates, which nothing before touches |
| LinkLemmas.AtomicEnableLinkMode | drivers/gpu/drm/bridge/synopsys/dw-hdmi-qp.c:458-473 | after enabling, the DVI bit is clear for HDMI sinks and set otherwise, HDCP2 bypass is set, other bits unchanged |
| LinkLemmas.DisableScrambWhenOn | drivers/gpu/drm/bridge/synopsys/dw-hdmi-qp.c:423-439 | disabling clears the flag and the work, and its own register accesses write SCRAMB_CONFIG0 = 0 only; the sink is told only if the connector is not disconnected |
| LinkLemmas.UnplugThenDisable | drivers/gpu/drm/bridge/synopsys/dw-hdmi-qp.c:423-439 | a scrambled sink that detection then reports disconnected gets no SCDC write when the bridge is disabled, while SCRAMB_CONFIG0 is cleared |
| LinkLemmas.AtomicDisableEffect | drivers/gpu/drm/bridge/synopsys/dw-hdmi-qp.c:478-487 | after disabling: no connector, PHY off, scrambling off, nothing scheduled, SCRAMB_CONFIG0 = 0 |
| LinkLemmas.ScrambWorkEffect | drivers/gpu/drm/bridge/synopsys/dw-hdmi-qp.c:397-404 | the work re-arms scrambling and reschedules itself iff the sink reports scrambling off |
| LinkLemmas.DetectEffect | drivers/gpu/drm/bridge/synopsys/dw-hdmi-qp.c:543-596 | detection cancels the work when scrambling, refreshes the display information only for a connected sink, and asks for a link reset iff connected, bound, EDID read, scrambling, supported and the sink reports it off |
| LinkLemmas.InitialInv | drivers/gpu/drm/bridge/synopsys/dw-hdmi-qp.c:712-731 | binding leaves the link invariant true for any register contents whose SCRAMB_CONFIG0 reads 0 |
| LinkLemmas.AtomicEnableInv | drivers/gpu/drm/bridge/synopsys/dw-hdmi-qp.c:441-476 | enabling keeps the invariant: work only while scrambling, scrambling only with a connector, SCRAMB_CONFIG0 mirrors the flag |
| LinkLemmas.AtomicDisableInv | drivers/gpu/drm/bridge/synopsys/dw-hdmi-qp.c:478-487 | disabling keeps the link invariant |
| LinkLemmas.DisableScrambInv | drivers/gpu/drm/bridge/synopsys/dw-hdmi-qp.c:423-439 | disabling scrambling keeps the link invariant |
| LinkLemmas.ScrambWorkInv | drivers/gpu/drm/bridge/synopsys/dw-hdmi-qp.c:397-404 | scheduled work always finds a connector and keeps the invariant |
| LinkLemmas.DetectInv | drivers/gpu/drm/bridge/synopsys/dw-hdmi-qp.c:543-596 | detection keeps the link invariant |
| HdmiQp.DwHdmiQp.SetScramb | drivers/gpu/drm/bridge/synopsys/dw-hdmi-qp.c:386-395 | the sink gets the high ratio and scrambling, and the poll is scheduled, as Link.SetScramb says |
| HdmiQp.DwHdmiQp.RunScrambWork | drivers/gpu/drm/bridge/synopsys/dw-hdmi-qp.c:397-404 | the work method ends in Link.ScrambWork's state, with none of the driver's own register accesses |
| HdmiQp.DwHdmiQp.EnableScramb | drivers/gpu/drm/bridge/synopsys/dw-hdmi-qp.c:406-421 | the enable method ends in Link.EnableScramb's state and accesses |
| HdmiQp.DwHdmiQp.DisableScramb | drivers/gpu/drm/bridge/synopsys/dw-hdmi-qp.c:423-439 | the disable method ends in Link.DisableScramb's state and accesses |
| HdmiQp.DwHdmiQp.AtomicEnable | drivers/gpu/drm/bridge/synopsys/dw-hdmi-qp.c:441-476 | the bridge enable method ends in Link.AtomicEnable's state and accesses |
| HdmiQp.DwHdmiQp.AtomicDisable | drivers/gpu/drm/bridge/synopsys/dw-hdmi-qp.c:478-487 | the bridge disable method ends in Link.AtomicDisable's state and accesses |
| HdmiQp.DwHdmiQp.Detect | drivers/gpu/drm/bridge/synopsys/dw-hdmi-qp.c:543-596 | the detect method returns the status and reset decision of Link.Detect, ends in its state (the bound connector carrying the returned status) and makes none of the driver's own register accesses |

## Left out

- `drivers/power/sequencing/pwrseq-ap6275p.c` is not part of this model. It holds tables and wrappers that a power-sequencing core elsewhere executes.
- Concurrency is not modelled: the transfer mutex, races between the interrupt handler and callers, and the blocking and timing of completion waits. Each wait is an input outcome.
- The delayed work's timing is not modelled. It is the `pending` flag: `schedule_delayed_work` sets it, and `cancel_delayed_work_sync` and running the work clear it.
- `reset_link` (lines 489-541) is not modelled. It is DRM atomic-framework code. Detection only reports whether it would be called.
- Foreign calls are parameters or ghost state, not modelled:
  - EDID reading and parsing, and the connector update, are an `Option<DisplayInfo>` input.
  - The `drm_scdc_*` reads are inputs (the Sink Version and Scrambling_Status).
  - The SCDC writes are the ghost `sink` state.
  - The PHY's init, disable and read_hpd are the ghost `phyOn` and the `hpd` input.
- Device plumbing is left out: I2C adapter registration (lines 269-301), and the allocation, ioremap, regmap setup, IRQ request, bridge attach, `init_hw` and `resume` of bind. `HdmiQp.DwHdmiQp.Bind` keeps only the PHY check and the zeroed state.
- `drm_atomic_helper_connector_hdmi_update_infoframes` at the end of `atomic_enable` is not modelled. It is framework code that calls back into the InfoFrame methods.
- Concrete register offsets and bit masks are not modelled. They are abstract constructors and mask fields, and register transport details and logging are left out.
- A message's length is its buffer's length. A buffer shorter or longer than `len` cannot be expressed.
- HdmiQp.DwHdmiQp.I2cXfer: requires a non-empty message list, because the I2C core refuses an empty transfer before calling the driver. It also requires message buffers to be distinct arrays; two messages sharing one buffer is not modelled.
- HdmiQp.DwHdmiQp.ConfigDrmInfoframe: requires `buffer[2] <= 26` for a 30-byte buffer. The driver reads `buffer[3 + i]` for every `i <= buffer[2]` without checking this, and its callers always pack a 26-byte payload.
- LinkLemmas.InitialInv: stated for register contents whose SCRAMB_CONFIG0 reads 0. `init_hw` (lines 712-731) never writes that register, so the invariant after bind rests on its reset value, which the driver does not set.
- Link.Detect: storing the returned status in the connector is done by the DRM probe helper that calls detection, not by the driver. The model folds that store into detection, so disabling sees the latest detected status.
- LinkLemmas.AtomicEnableScrambling: stated for a bridge whose scrambling is off on entry, as the framework's disable-before-enable ordering guarantees.
- LinkLemmas.AtomicEnableInv: stated for a bridge whose scrambling is off on entry, as the framework's disable-before-enable ordering guarantees.
- Link.EnableScramb, Link.DisableScramb, Link.ScrambWork and Link.Detect: their SCDC reads and writes and the EDID read go through `bridge.ddc`, which bind sets to the driver's own I2C adapter (lines 264-265, 285, 788). Each of those calls is a full transfer on the DDC engine: it unmasks MAINUNIT_1_INT_MASK_N, writes the I2CM registers and changes the engine state. The access record of these functions, and of the methods and lemmas built on them, holds only the driver's own register accesses and leaves those transfers out. The registers the link functions do write (SCRAMB_CONFIG0, LINK_CONFIG0, HDCP2LOGIC_CONFIG0) are never touched by the engine, so what is proved about them and about `Inv` is unaffected.
- HdmiQp.DwHdmiQp.Transfer: the driver's two stores that clear `is_regaddr` and `is_segment` are one state update in the model. Nothing runs between them.
