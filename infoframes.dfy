/**
 * The InfoFrame packer of the DesignWare HDMI QP transmitter, as
 * specification functions over values.
 *
 * A CTA-861 InfoFrame buffer starts with a four-byte header (type, version,
 * length, checksum) followed by the payload. The transmitter keeps the
 * version and length bytes in bits 8..15 and 16..23 of a head register
 * PKT_<kind>_CONTENTS0, and the checksum with the payload, little-endian,
 * four bytes per content register PKT_<kind>_CONTENTS1 + 4 * i.
 */
module Infoframes {
  import opened Bits
  import opened Registers

  /** `EINVAL` of the Linux errno table; functions return its negation. */
  const EINVAL: int := 22

  /** The InfoFrame type codes of CTA-861 the driver handles. */
  const HDMI_INFOFRAME_TYPE_AVI: int := 0x82
  const HDMI_INFOFRAME_TYPE_DRM: int := 0x87

  /** Header and payload sizes of CTA-861-G section 6.4 (AVI InfoFrame) and
      section 6.9 (Dynamic Range and Mastering InfoFrame). */
  const HDMI_INFOFRAME_HEADER_SIZE: nat := 4
  const HDMI_AVI_INFOFRAME_SIZE: nat := 13
  const HDMI_DRM_INFOFRAME_SIZE: nat := 26

  /** `HDMI_INFOFRAME_SIZE(AVI)` and `HDMI_INFOFRAME_SIZE(DRM)`. */
  const AVI_FRAME_SIZE: nat := HDMI_INFOFRAME_HEADER_SIZE + HDMI_AVI_INFOFRAME_SIZE
  const DRM_FRAME_SIZE: nat := HDMI_INFOFRAME_HEADER_SIZE + HDMI_DRM_INFOFRAME_SIZE

  /** The number of AVI bytes, from the checksum on, that go into content registers. */
  const AVI_CONTENT_BYTES: nat := 14

  /** What a driver entry point returns and the register accesses it makes. */
  datatype Outcome = Outcome(ret: int, ops: seq<Access>)

  // ---------------------------------------------------------------------
  // Little-endian byte lanes

  /** `0x100` to the power `n`: the weight of byte lane `n`. */
  function Radix(n: nat): (r: nat)
    ensures r >= 1
  {
    if n == 0 then 1 else 0x100 * Radix(n - 1)
  }

  lemma {:induction false} RadixPow2(n: nat)
    ensures Radix(n) == Pow2(8 * n)
    decreases n
  {
    if n > 0 {
      RadixPow2(n - 1);
      Pow2Add(8, 8 * (n - 1));
      assert Pow2(8) == 0x100;
    }
  }

  /** The byte at position `p`, or 0 past the end. */
  function ByteAt(bytes: seq<Byte>, p: nat): Byte {
    if p < |bytes| then bytes[p] else 0
  }

  /** Byte lanes `j..3` of the word that starts at position `base`, read as
      a number: lane `j` in its lowest eight bits. */
  function Lanes(bytes: seq<Byte>, base: nat, j: nat): (r: nat)
    requires j <= 4
    ensures r < Radix(4 - j)
    decreases 4 - j
  {
    if j == 4 then 0 else ByteAt(bytes, base + j) + 0x100 * Lanes(bytes, base, j + 1)
  }

  /** The content word `i` of a packed byte sequence. */
  function PackWord(bytes: seq<Byte>, i: nat): Word {
    assert Radix(4) == 0x1_0000_0000;
    Lanes(bytes, 4 * i, 0)
  }

  /** A byte sequence packed four bytes per word, little-endian; the last
      word is padded with zero bytes. */
  function Pack(bytes: seq<Byte>): (r: seq<Word>)
    ensures |r| == (|bytes| + 3) / 4
  {
    seq((|bytes| + 3) / 4, i requires 0 <= i => PackWord(bytes, i))
  }

  /** `w >> (8 * j)`. */
  function Shr(w: nat, j: nat): nat {
    if j == 0 then w else Shr(w, j - 1) / 0x100
  }

  /** Byte lane `j` of a word. */
  function LaneOf(w: nat, j: nat): Byte {
    Shr(w, j) % 0x100
  }

  /** The first `n` bytes held by a sequence of content words. */
  function Unpack(words: seq<Word>, n: nat): (r: seq<Byte>)
    requires n <= 4 * |words|
    ensures |r| == n
  {
    seq(n, k requires 0 <= k < n => LaneOf(words[k / 4], k % 4))
  }

  /** Shifting a packed word right by `j` lanes leaves lanes `j..3`. */
  lemma {:induction false} ShrLanes(bytes: seq<Byte>, base: nat, j: nat)
    requires j <= 4
    ensures Shr(Lanes(bytes, base, 0), j) == Lanes(bytes, base, j)
    decreases j
  {
    if j > 0 {
      ShrLanes(bytes, base, j - 1);
      var x := Lanes(bytes, base, j);
      assert Lanes(bytes, base, j - 1) == ByteAt(bytes, base + j - 1) + 0x100 * x;
    }
  }

  /** Lane `j` of a packed word is the byte at position `base + j`. */
  lemma LaneOfPacked(bytes: seq<Byte>, base: nat, j: nat)
    requires j < 4
    ensures LaneOf(Lanes(bytes, base, 0), j) == ByteAt(bytes, base + j)
  {
    ShrLanes(bytes, base, j);
  }

  /** Packing round trip: the bytes can be read back from the words. */
  lemma UnpackPack(bytes: seq<Byte>)
    ensures Unpack(Pack(bytes), |bytes|) == bytes
  {
    var words := Pack(bytes);
    forall k | 0 <= k < |bytes|
      ensures Unpack(words, |bytes|)[k] == bytes[k]
    {
      LaneOfPacked(bytes, 4 * (k / 4), k % 4);
    }
  }

  /** Lanes `j..3` of the bytes unpacked from `w` make up the word `w >> 8j`. */
  lemma {:induction false} LanesOfUnpacked(w: Word, bytes: seq<Byte>, base: nat, j: nat)
    requires j <= 4
    requires forall l | 0 <= l < 4 :: ByteAt(bytes, base + l) == LaneOf(w, l)
    ensures Lanes(bytes, base, j) == Shr(w, j)
    decreases 4 - j
  {
    if j == 4 {
      ShrWord(w);
    } else {
      LanesOfUnpacked(w, bytes, base, j + 1);
      assert ByteAt(bytes, base + j) == LaneOf(w, j);
    }
  }

  /** A word has four lanes. */
  lemma ShrWord(w: Word)
    ensures Shr(w, 4) == 0
  {
    var a := w / 0x100;
    var b := a / 0x100;
    var c := b / 0x100;
    assert a < 0x100_0000 && b < 0x1_0000 && c < 0x100;
    assert Shr(w, 1) == a && Shr(w, 2) == b && Shr(w, 3) == c;
  }

  /** Packing round trip the other way: words unpacked in full pack back
      into the same words. */
  lemma PackUnpack(words: seq<Word>)
    ensures Pack(Unpack(words, 4 * |words|)) == words
  {
    var bytes := Unpack(words, 4 * |words|);
    forall i | 0 <= i < |words|
      ensures Pack(bytes)[i] == words[i]
    {
      forall l | 0 <= l < 4
        ensures ByteAt(bytes, 4 * i + l) == LaneOf(words[i], l)
      {
        assert (4 * i + l) / 4 == i && (4 * i + l) % 4 == l;
      }
      LanesOfUnpacked(words[i], bytes, 4 * i, 0);
    }
  }

  /** A word packed from at most `j` remaining bytes uses only its low `j` lanes. */
  lemma {:induction false} LanesBelow(bytes: seq<Byte>, base: nat, j: nat, t: nat)
    requires j <= t <= 4 && |bytes| <= base + t
    ensures Lanes(bytes, base, j) < Radix(t - j)
    decreases 4 - j
  {
    if j < 4 {
      if j == t {
        LanesZero(bytes, base, j);
      } else {
        LanesBelow(bytes, base, j + 1, t);
      }
    }
  }

  lemma {:induction false} LanesZero(bytes: seq<Byte>, base: nat, j: nat)
    requires j <= 4 && |bytes| <= base + j
    ensures Lanes(bytes, base, j) == 0
    decreases 4 - j
  {
    if j < 4 {
      LanesZero(bytes, base, j + 1);
    }
  }

  // ---------------------------------------------------------------------
  // Building a word lane by lane, as the driver does

  /** Lanes `0..j-1` of the word that starts at `base`: what the driver's
      accumulator holds after `j` steps of `val |= buffer[...] << (8 * j)`. */
  function Prefix(bytes: seq<Byte>, base: nat, j: nat): (r: nat)
    requires j <= 4
    ensures r < Radix(j)
  {
    if j == 0 then 0 else Prefix(bytes, base, j - 1) + ByteAt(bytes, base + j - 1) * Radix(j - 1)
  }

  /** The first `j` lanes and the remaining ones make up the whole word. */
  lemma {:induction false} PrefixLanes(bytes: seq<Byte>, base: nat, j: nat)
    requires j <= 4
    ensures Prefix(bytes, base, j) + Radix(j) * Lanes(bytes, base, j) == Lanes(bytes, base, 0)
    decreases j
  {
    if j > 0 {
      PrefixLanes(bytes, base, j - 1);
      var b := ByteAt(bytes, base + j - 1);
      var x := Lanes(bytes, base, j);
      var r := Radix(j - 1);
      assert Lanes(bytes, base, j - 1) == b + 0x100 * x;
      assert Radix(j) == 0x100 * r;
      Distributes(r, b, x);
    }
  }

  lemma Distributes(r: nat, b: nat, x: nat)
    ensures r * (b + 0x100 * x) == b * r + (0x100 * r) * x
  {
  }

  /** After all four lanes the accumulator holds the packed word. */
  lemma PrefixWhole(bytes: seq<Byte>, base: nat)
    ensures Prefix(bytes, base, 4) == Lanes(bytes, base, 0)
  {
    PrefixLanes(bytes, base, 4);
  }

  /** One step of the accumulator: or-ing in a lane above the ones held
      adds it. */
  lemma OrLane(val: Word, b: Byte, j: nat)
    requires j < 4 && val < Radix(j)
    ensures val + b * Radix(j) < 0x1_0000_0000
    ensures Or(val, b * Radix(j)) == val + b * Radix(j)
  {
    RadixPow2(j);
    var r := Radix(j);
    assert Radix(j + 1) == 0x100 * r;
    assert val + b * r < r + 0xff * r;
    LanesRadixBound(j);
    OrDisjoint(val, b, 8 * j);
  }

  lemma LanesRadixBound(j: nat)
    requires j < 4
    ensures Radix(j + 1) <= 0x1_0000_0000
  {
    assert Radix(1) == 0x100 && Radix(2) == 0x1_0000 && Radix(3) == 0x100_0000 && Radix(4) == 0x1_0000_0000;
  }

  /** The first step of a word: `val = b; val |= b` leaves `b`. */
  lemma OrLaneFirst(b: Byte)
    ensures Or(b, b) == b
  {
    OrIdempotent(b);
  }

  /** `b << (8 * j)`: byte `b` moved into lane `j` of a word. */
  function Shl(b: Byte, j: nat): (r: Word)
    requires j < 4
    ensures r == b * Radix(j)
  {
    assert Radix(1) == 0x100 && Radix(2) == 0x1_0000 && Radix(3) == 0x100_0000;
    if j == 0 then b
    else if j == 1 then b * 0x100
    else if j == 2 then b * 0x1_0000
    else b * 0x100_0000
  }

  /** One step of the driver's accumulator: or-ing the next byte, shifted
      into lane `j`, into the first `j` lanes of a word gives its first
      `j + 1` lanes. The first lane starts from `val = b`. */
  lemma PrefixNext(bytes: seq<Byte>, base: nat, j: nat)
    requires j < 4
    ensures Prefix(bytes, base, j) < 0x1_0000_0000
    ensures ByteAt(bytes, base + j) * Radix(j) < 0x1_0000_0000
    ensures Or(Prefix(bytes, base, j), ByteAt(bytes, base + j) * Radix(j)) == Prefix(bytes, base, j + 1)
    ensures j == 0 ==> Or(ByteAt(bytes, base), ByteAt(bytes, base)) == Prefix(bytes, base, 1)
  {
    LanesRadixBound(j);
    OrLane(Prefix(bytes, base, j), ByteAt(bytes, base + j), j);
    if j == 0 {
      OrLaneFirst(ByteAt(bytes, base));
    }
  }

  /** The accumulator holds content word `i` once all four lanes are in,
      or once the bytes have run out. */
  lemma PrefixPacked(bytes: seq<Byte>, i: nat, j: nat)
    requires j <= 4 && (j == 4 || |bytes| <= 4 * i + j)
    ensures Prefix(bytes, 4 * i, j) == PackWord(bytes, i)
  {
    PrefixLanes(bytes, 4 * i, j);
    if j < 4 {
      LanesZero(bytes, 4 * i, j);
    }
  }

  // ---------------------------------------------------------------------
  // The head register

  /** `buffer[1] << 8 | buffer[2] << 16`: version and length bytes. */
  function HeadWord(version: Byte, length: Byte): Word {
    Or(version * 0x100, length * 0x1_0000)
  }

  /** The head register holds the version byte in lane 1, the length byte
      in lane 2, and nothing else. */
  lemma HeadWordLanes(version: Byte, length: Byte)
    ensures HeadWord(version, length) == version * 0x100 + length * 0x1_0000
    ensures LaneOf(HeadWord(version, length), 0) == 0
    ensures LaneOf(HeadWord(version, length), 1) == version
    ensures LaneOf(HeadWord(version, length), 2) == length
    ensures LaneOf(HeadWord(version, length), 3) == 0
  {
    Pow2Add(8, 8);
    assert Pow2(8) == 0x100;
    OrDisjoint(version * 0x100, length, 16);
    var w := version * 0x100 + length * 0x1_0000;
    assert Shr(w, 1) == version + length * 0x100;
    assert Shr(w, 2) == length;
    assert Shr(w, 3) == 0;
  }

  // ---------------------------------------------------------------------
  // Configuring, clearing and writing InfoFrames

  function AviTxBits(m: Masks): Word {
    Or(m.aviTxEn, m.gcpTxEn)
  }

  /** The bytes of an AVI InfoFrame that go into its content registers:
      the checksum and the payload. */
  function AviContent(buffer: seq<Byte>): (r: seq<Byte>)
    requires |buffer| == AVI_FRAME_SIZE
    ensures |r| == AVI_CONTENT_BYTES
  {
    buffer[3..]
  }

  /** The bytes of a Dynamic Range and Mastering InfoFrame that go into its
      content registers: the checksum and `buffer[2]` payload bytes, as many
      as its length byte announces. */
  function DrmContent(buffer: seq<Byte>): (r: seq<Byte>)
    requires |buffer| == DRM_FRAME_SIZE && buffer[2] <= DRM_FRAME_SIZE - 4
    ensures |r| == buffer[2] + 1
  {
    buffer[3..4 + buffer[2]]
  }

  /** Writes of `words` into the content registers of packet `p`, in order. */
  function ContentWrites(p: Packet, words: seq<Word>): (r: seq<Access>)
    ensures |r| == |words|
  {
    seq(|words|, i requires 0 <= i < |words| => Write(PktContents(p, 1 + i), words[i]))
  }

  /** One step `val |= buffer[...] << (8 * j)` of the driver's AVI loop,
      starting the word with `val = buffer[...]` when `j == 0`: the
      accumulator then holds lanes `0..j` of word `i`, and all of it once
      the word is full or the bytes end. */
  lemma AccumulateLane(bytes: seq<Byte>, i: nat, j: nat, val: Word)
    requires j < 4 && 4 * i + j < |bytes|
    requires j > 0 ==> val == Prefix(bytes, 4 * i, j)
    ensures var v := Or(if j == 0 then bytes[4 * i + j] else val, Shl(bytes[4 * i + j], j));
            && v == Prefix(bytes, 4 * i, j + 1)
            && (j == 3 || 4 * i + j + 1 == |bytes| ==> v == PackWord(bytes, i))
  {
    assert bytes[4 * i + j] == ByteAt(bytes, 4 * i + j);
    PrefixNext(bytes, 4 * i, j);
    if j == 3 || 4 * i + j + 1 == |bytes| {
      PrefixPacked(bytes, i, j + 1);
    }
  }

  /** The content writes of one more word are those of the words before
      it followed by its own. */
  lemma ContentWritesNext(p: Packet, words: seq<Word>, i: nat)
    requires i < |words|
    ensures ContentWrites(p, words[..i + 1]) == ContentWrites(p, words[..i]) + [Write(PktContents(p, 1 + i), words[i])]
  {
  }

  /** The accumulator of the Dynamic Range and Mastering loop once it has
      taken bytes `0 .. i - 1`: each byte is or-ed into lane `k % 4` of the
      accumulator, the first lane of a word replacing what came before. */
  function DrmVal(bytes: seq<Byte>, i: nat): Word
    requires 0 < i <= |bytes|
  {
    var lane := (i - 1) % 4;
    Or(if lane == 0 then bytes[i - 1] else DrmVal(bytes, i - 1), Shl(bytes[i - 1], lane))
  }

  /** The content writes of the same loop: word `k / 4` is written after
      byte `k` when that byte fills its last lane or is the last byte. */
  function DrmWrites(bytes: seq<Byte>, i: nat): seq<Access>
    requires i <= |bytes|
  {
    if i == 0 then []
    else DrmWrites(bytes, i - 1)
         + (if (i - 1) % 4 == 3 || i == |bytes| then [Write(PktContents(Drmi, 1 + (i - 1) / 4), DrmVal(bytes, i))] else [])
  }

  /** The accumulator holds the lanes taken so far of the current word, and
      the whole word when it is written. */
  lemma {:induction false} DrmValPacks(bytes: seq<Byte>, i: nat)
    requires 0 < i <= |bytes|
    ensures i % 4 != 0 ==> DrmVal(bytes, i) == Prefix(bytes, 4 * (i / 4), i % 4)
    ensures (i - 1) % 4 == 3 || i == |bytes| ==> DrmVal(bytes, i) == PackWord(bytes, (i - 1) / 4)
  {
    var w, k := (i - 1) / 4, (i - 1) % 4;
    assert i - 1 == 4 * w + k;
    var prev: Word := 0;
    if k != 0 {
      DrmValPacks(bytes, i - 1);
      prev := DrmVal(bytes, i - 1);
      assert (i - 1) / 4 == w && (i - 1) % 4 == k;
    }
    AccumulateLane(bytes, w, k, prev);
    if k < 3 {
      assert i / 4 == w && i % 4 == k + 1;
    }
  }

  /** The loop writes the packed words in order: the words it has completed
      while bytes remain, and all of them once the bytes end. */
  lemma {:induction false} DrmWritesPacked(bytes: seq<Byte>, i: nat)
    requires i <= |bytes|
    ensures var n := if i == |bytes| then |Pack(bytes)| else i / 4;
            n <= |Pack(bytes)| && DrmWrites(bytes, i) == ContentWrites(Drmi, Pack(bytes)[..n])
  {
    var words := Pack(bytes);
    if i == 0 {
      assert words[..0] == [];
    } else {
      DrmWritesPacked(bytes, i - 1);
      var w := (i - 1) / 4;
      assert (i - 1) / 4 == w && i - 1 == 4 * w + (i - 1) % 4;
      if (i - 1) % 4 == 3 || i == |bytes| {
        DrmValPacks(bytes, i);
        ContentWritesNext(Drmi, words, w);
        if i == |bytes| {
          assert words[..w + 1] == words;
        } else {
          assert i / 4 == w + 1;
        }
      } else {
        assert i / 4 == w;
      }
    }
  }

  /** Configuring the AVI InfoFrame. A buffer of the wrong length is refused
      before any register access. */
  function ConfigAvi(m: Masks, buffer: seq<Byte>): (o: Outcome)
    ensures |buffer| != AVI_FRAME_SIZE ==> o == Outcome(-EINVAL, [])
    ensures |buffer| == AVI_FRAME_SIZE ==> o.ret == 0 && |o.ops| == 7
  {
    if |buffer| != AVI_FRAME_SIZE then Outcome(-EINVAL, [])
    else
      Outcome(0, [Write(PktContents(Avi, 0), HeadWord(buffer[1], buffer[2]))]
                 + ContentWrites(Avi, Pack(AviContent(buffer)))
                 + [Update(PktschedPktConfig1, 0, m.aviFieldrate),
                    Update(PktschedPktEn, AviTxBits(m), AviTxBits(m))])
  }

  /** Configuring the Dynamic Range and Mastering InfoFrame. The driver
      trusts the length byte; `buffer[2] <= DRM_FRAME_SIZE - 4` is what keeps
      its reads inside the buffer. */
  function ConfigDrm(m: Masks, buffer: seq<Byte>): (o: Outcome)
    requires |buffer| == DRM_FRAME_SIZE ==> buffer[2] <= DRM_FRAME_SIZE - 4
    ensures |buffer| != DRM_FRAME_SIZE ==> o == Outcome(-EINVAL, [])
    ensures |buffer| == DRM_FRAME_SIZE ==> o.ret == 0 && |o.ops| == 5 + buffer[2] / 4
  {
    if |buffer| != DRM_FRAME_SIZE then Outcome(-EINVAL, [])
    else
      Outcome(0, [Update(PktschedPktEn, 0, m.drmiTxEn),
                  Write(PktContents(Drmi, 0), HeadWord(buffer[1], buffer[2]))]
                 + ContentWrites(Drmi, Pack(DrmContent(buffer)))
                 + [Update(PktschedPktConfig1, 0, m.drmiFieldrate),
                    Update(PktschedPktEn, m.drmiTxEn, m.drmiTxEn)])
  }

  /** The transmit-enable bits of an InfoFrame type; none for types the
      driver does not handle. */
  function TxBits(m: Masks, t: int): Word {
    if t == HDMI_INFOFRAME_TYPE_AVI then AviTxBits(m)
    else if t == HDMI_INFOFRAME_TYPE_DRM then m.drmiTxEn
    else 0
  }

  /** Stopping the transmission of an InfoFrame type. */
  function ClearInfoframe(m: Masks, t: int): (o: Outcome)
    ensures o.ret == 0
  {
    if t == HDMI_INFOFRAME_TYPE_AVI || t == HDMI_INFOFRAME_TYPE_DRM then
      Outcome(0, [Update(PktschedPktEn, 0, TxBits(m, t))])
    else Outcome(0, [])
  }

  /** Writing an InfoFrame: the type is cleared first, then configured. */
  function WriteInfoframe(m: Masks, t: int, buffer: seq<Byte>): (o: Outcome)
    requires t == HDMI_INFOFRAME_TYPE_DRM && |buffer| == DRM_FRAME_SIZE ==> buffer[2] <= DRM_FRAME_SIZE - 4
    ensures t != HDMI_INFOFRAME_TYPE_AVI && t != HDMI_INFOFRAME_TYPE_DRM ==> o == Outcome(0, [])
    ensures t == HDMI_INFOFRAME_TYPE_AVI || t == HDMI_INFOFRAME_TYPE_DRM ==>
              && |o.ops| >= 1 && o.ops[0] == Update(PktschedPktEn, 0, TxBits(m, t))
              && (o.ret == 0 || o.ret == -EINVAL)
              && (o.ret == -EINVAL ==> o.ops == [Update(PktschedPktEn, 0, TxBits(m, t))])
    ensures t == HDMI_INFOFRAME_TYPE_AVI ==> (o.ret == 0 <==> |buffer| == AVI_FRAME_SIZE)
    ensures t == HDMI_INFOFRAME_TYPE_DRM ==> (o.ret == 0 <==> |buffer| == DRM_FRAME_SIZE)
  {
    var c := ClearInfoframe(m, t);
    if t == HDMI_INFOFRAME_TYPE_AVI then
      var a := ConfigAvi(m, buffer);
      Outcome(a.ret, c.ops + a.ops)
    else if t == HDMI_INFOFRAME_TYPE_DRM then
      var d := ConfigDrm(m, buffer);
      Outcome(d.ret, c.ops + d.ops)
    else Outcome(0, c.ops)
  }
}
