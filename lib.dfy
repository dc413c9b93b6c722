/** Protocol-wide constants. */
module Lib {
  /** Identifies a frame of this protocol. */
  const FRAME_MAGIC: nat := 0xFEED

  /** The one protocol version understood. */
  const PROTOCOL_VERSION: nat := 1

  /** Lower bound of the frame-size check; a header and trailer alone already take 20 bytes. */
  const MIN_FRAME_SIZE: nat := 18

  /** Largest frame accepted: 16 MiB. */
  const MAX_FRAME_SIZE: nat := 16 * 1024 * 1024
}
