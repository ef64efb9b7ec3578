/** Wire-level vocabulary shared by every layer (src/types.zig). */
module Types {

  /** An octet as its value; `b & 0x7f` is written b % 128 and `b & 0x80 != 0` is b >= 128. */
  type byte = x: int | 0 <= x < 256

  /** A frame opcode: the low four bits of the first header byte. */
  type Opcode = x: int | 0 <= x < 16

  type u7 = x: int | 0 <= x < 128

  const CONTINUATION: Opcode := 0x0
  const TEXT: Opcode := 0x1
  const BINARY: Opcode := 0x2
  const CLOSE: Opcode := 0x8
  const PING: Opcode := 0x9
  const PONG: Opcode := 0xa

  const MAX_PAYLOAD_LEN: nat := 0x7fff_ffff_ffff_ffff
  const MASKING_KEY_LEN: nat := 4
  const MAX_FRAME_HEADER_LEN: nat := 14

  datatype Option<+T> = None | Some(value: T)

  datatype Error =
    | InvalidOpcode
    | InvalidLength
    | BufferTooShort
    | ProtocolError
    | PayloadMasked
    | PayloadNotMasked
    | PayloadTooLarge
    | MaskingKeyRequired
    | InvalidUtf8
    | QueueFull

  datatype Result<+T> = Ok(value: T) | Err(error: Error)

  /** The outcome of a check that computes no value. */
  datatype Check = Pass | Fail(error: Error)

  /** The 16-bit base header, least significant field first. */
  datatype FrameHeader = FrameHeader(
    opcode: Opcode, rsv3: bool, rsv2: bool, rsv1: bool, fin: bool, payloadLen: u7, mask: bool)

  type MaskingKey = k: seq<byte> | |k| == MASKING_KEY_LEN witness [0, 0, 0, 0]

  predicate IsControl(op: Opcode) {
    op == CLOSE || op == PING || op == PONG
  }

  predicate IsKnown(op: Opcode) {
    op == CONTINUATION || op == TEXT || op == BINARY || IsControl(op)
  }

  datatype Role = Client | Server

  /** Connection role and limits; both limits are at most MAX_PAYLOAD_LEN on a live connection. */
  datatype Config = Config(role: Role, maxFrameLen: nat, maxMessageLen: nat)

  predicate ValidConfig(cfg: Config) {
    cfg.maxFrameLen <= MAX_PAYLOAD_LEN && cfg.maxMessageLen <= MAX_PAYLOAD_LEN
  }
}
