/** Constants and small types shared by the whole model. */
module TransportStream {

  datatype Option<+T> = None | Some(value: T)

  type Byte = bv8

  /** Number of bytes in a transport packet, and the byte each one starts with
      (ISO/IEC 13818-1, sections 2.4.3.2 and 2.4.3.3). */
  const PKT_SIZE := 188
  const SYNC_BYTE: Byte := 0x47

  type Pid = nat
  const PID_NULL: Pid := 0x1FFF

  /** PTS, DTS and the PCR base are 33-bit counters of 90 kHz ticks. */
  const PTS_DTS_SCALE := 0x2_0000_0000
  const MAX_PTS_DTS := PTS_DTS_SCALE - 1

  /** The PCR counts 27 MHz ticks, 300 for each tick of its 90 kHz base. */
  const MAX_PCR := 300 * PTS_DTS_SCALE - 1
  const INVALID_PCR := 0xFFFF_FFFF_FFFF_FFFF
}
