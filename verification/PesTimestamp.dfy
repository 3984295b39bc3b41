/** Reading the PTS of a PES packet header (ISO/IEC 13818-1, section 2.4.3.7). */
module PesTimestamp {
  import opened TransportStream

  const PTS_DTS_MASK: bv64 := 0x1_FFFF_FFFF
  const PTS_ONLY: Byte := 0x80
  const PTS_AND_DTS: Byte := 0xC0

  /** What is looked at in a PES packet: whether it has the optional header, and the
      bytes up to the end of its header. */
  datatype PesPacket = PesPacket(hasLongHeader: bool, header: seq<Byte>)

  function GetUInt16(high: Byte, low: Byte): bv16 {
    ((high as bv16) << 8) | (low as bv16)
  }

  function Bits32To30(b0: Byte): bv64 {
    ((b0 & 0x0E) as bv64) << 29
  }

  function Bits29To15(b1: Byte, b2: Byte): bv64 {
    ((GetUInt16(b1, b2) & 0xFFFE) as bv64) << 14
  }

  function Bits14To0(b3: Byte, b4: Byte): bv64 {
    (GetUInt16(b3, b4) as bv64) >> 1
  }

  /** The parts put together, and cut to 33 bits. */
  function Assemble(b0: Byte, b1: Byte, b2: Byte, b3: Byte, b4: Byte): bv64 {
    (Bits32To30(b0) | Bits29To15(b1, b2) | Bits14To0(b3, b4)) & PTS_DTS_MASK
  }

  /** The marker bits that a PTS field must carry, which its first byte shares with the
      prefix that repeats `flags`. */
  predicate HasMarkers(flags: Byte, b0: Byte, b2: Byte, b4: Byte) {
    && !(flags == PTS_ONLY && (b0 & 0xF1) != 0x21)
    && !(flags == PTS_AND_DTS && (b0 & 0xF1) != 0x31)
    && (b2 & 0x01) == 0x01
    && (b4 & 0x01) == 0x01
  }

  function ParsePesPts(packet: PesPacket): Option<bv64> {
    if !packet.hasLongHeader || |packet.header| < 14 then None
    else
      var header := packet.header;
      var flags := header[7] & 0xC0;
      if flags != PTS_ONLY && flags != PTS_AND_DTS then None
      else if !HasMarkers(flags, header[9], header[11], header[13]) then None
      else
        Some(Assemble(header[9], header[10], header[11], header[12], header[13]))
  }

  /** The standard's five bytes for a PTS: a prefix, the three parts of the value from
      the top, and a marker bit after each. */
  function EncodePts(flags: Byte, pts: bv64): seq<Byte> {
    var prefix: Byte := if flags == PTS_ONLY then 0x20 else 0x30;
    [ prefix | ((((pts >> 30) & 0x07) as Byte) << 1) | 0x01,
      ((pts >> 22) & 0xFF) as Byte,
      ((((pts >> 15) & 0x7F) as Byte) << 1) | 0x01,
      ((pts >> 7) & 0xFF) as Byte,
      (((pts & 0x7F) as Byte) << 1) | 0x01 ]
  }

  /** The three parts never overlap and the final mask removes nothing. */
  lemma PartsAreDisjoint(b0: Byte, b1: Byte, b2: Byte, b3: Byte, b4: Byte)
    ensures Bits32To30(b0) & Bits29To15(b1, b2) == 0
    ensures Bits32To30(b0) & Bits14To0(b3, b4) == 0
    ensures Bits29To15(b1, b2) & Bits14To0(b3, b4) == 0
    ensures Assemble(b0, b1, b2, b3, b4) == Bits32To30(b0) | Bits29To15(b1, b2) | Bits14To0(b3, b4)
  {
  }

  lemma EncodeThenAssemble(flags: Byte, pts: bv64)
    requires flags == PTS_ONLY || flags == PTS_AND_DTS
    requires pts <= PTS_DTS_MASK
    ensures var f := EncodePts(flags, pts);
            HasMarkers(flags, f[0], f[2], f[4]) && Assemble(f[0], f[1], f[2], f[3], f[4]) == pts
  {
  }

  /** The bytes of the field, read back from the assembled value. */
  lemma AssembleKeepsBits(b0: Byte, b1: Byte, b2: Byte, b3: Byte, b4: Byte)
    ensures var v := Assemble(b0, b1, b2, b3, b4);
            && v <= PTS_DTS_MASK
            && ((v >> 30) & 0x07) as Byte == (b0 & 0x0E) >> 1
            && ((v >> 22) & 0xFF) as Byte == b1
            && ((v >> 15) & 0x7F) as Byte == b2 >> 1
            && ((v >> 7) & 0xFF) as Byte == b3
            && (v & 0x7F) as Byte == b4 >> 1
  {
  }

  lemma MarkersFillTheRest(flags: Byte, b0: Byte, b2: Byte, b4: Byte)
    requires flags == PTS_ONLY || flags == PTS_AND_DTS
    requires HasMarkers(flags, b0, b2, b4)
    ensures (if flags == PTS_ONLY then 0x20 else 0x30) | (((b0 & 0x0E) >> 1) << 1) | 0x01 == b0
    ensures ((b2 >> 1) << 1) | 0x01 == b2
    ensures ((b4 >> 1) << 1) | 0x01 == b4
  {
  }

  lemma AssembleThenEncode(flags: Byte, b0: Byte, b1: Byte, b2: Byte, b3: Byte, b4: Byte)
    requires flags == PTS_ONLY || flags == PTS_AND_DTS
    requires HasMarkers(flags, b0, b2, b4)
    ensures Assemble(b0, b1, b2, b3, b4) <= PTS_DTS_MASK
    ensures EncodePts(flags, Assemble(b0, b1, b2, b3, b4)) == [b0, b1, b2, b3, b4]
  {
    hide Assemble, HasMarkers;
    AssembleKeepsBits(b0, b1, b2, b3, b4);
    MarkersFillTheRest(flags, b0, b2, b4);
  }

  /** Parsing and printing are inverse: a packet has the PTS `pts` exactly when its header
      announces one and carries the standard's five bytes for it. */
  lemma ParsesExactlyTheStandardForm(packet: PesPacket, pts: bv64)
    ensures ParsePesPts(packet) == Some(pts) <==>
            && packet.hasLongHeader && |packet.header| >= 14
            && var flags := packet.header[7] & 0xC0;
               (flags == PTS_ONLY || flags == PTS_AND_DTS)
               && pts <= PTS_DTS_MASK && packet.header[9..14] == EncodePts(flags, pts)
  {
    hide EncodePts, HasMarkers, Bits32To30, Bits29To15, Bits14To0;
    if packet.hasLongHeader && |packet.header| >= 14 {
      var h := packet.header;
      var flags := h[7] & 0xC0;
      assert h[9..14] == [h[9], h[10], h[11], h[12], h[13]];
      if flags == PTS_ONLY || flags == PTS_AND_DTS {
        if HasMarkers(flags, h[9], h[11], h[13]) {
          AssembleThenEncode(flags, h[9], h[10], h[11], h[12], h[13]);
        }
        if pts <= PTS_DTS_MASK {
          EncodeThenAssemble(flags, pts);
        }
      }
    }
  }
}
