/** The frame header octet by octet, in the numerals of section 5.2 of RFC 6455. */
module Format {
  import opened Types

  /** Continuation, text, binary, close, ping and pong. */
  predicate KnownOpcode(op: int) {
    op in {0x0, 0x1, 0x2, 0x8, 0x9, 0xa}
  }

  /** Length octets after the two base octets. */
  function LengthOctets(b1: byte): nat {
    if b1 % 128 == 126 then 2 else if b1 % 128 == 127 then 8 else 0
  }

  /** The whole header: base, length and key. */
  function HeaderOctets(b1: byte): nat {
    2 + LengthOctets(b1) + if b1 >= 128 then 4 else 0
  }

  /** Numbers of two and eight octets, most significant first. */
  function Octets2(a: int, b: int): int {
    0x100 * a + b
  }

  function Octets8(a: int, b: int, c: int, d: int, e: int, f: int, g: int, h: int): int {
    0x100_0000_0000_0000 * a + 0x1_0000_0000_0000 * b + 0x100_0000_0000 * c + 0x1_0000_0000 * d
    + 0x100_0000 * e + 0x1_0000 * f + 0x100 * g + h
  }

  /** The payload length a header announces. */
  function Announced(b: seq<byte>): int
    requires |b| >= 2 && |b| >= 2 + LengthOctets(b[1])
  {
    if b[1] % 128 == 126 then Octets2(b[2], b[3])
    else if b[1] % 128 == 127 then Octets8(b[2], b[3], b[4], b[5], b[6], b[7], b[8], b[9])
    else b[1] % 128
  }

  /** No reserved bit, a known opcode, and a control frame is final and short. */
  predicate BaseAllowed(b0: byte, b1: byte) {
    b0 % 128 < 16 && KnownOpcode(b0 % 16) && (b0 % 16 >= 8 ==> b0 >= 128 && b1 % 128 < 126)
  }

  /** The shortest form was used and the top bit of a long length is clear. */
  predicate LengthAllowed(b: seq<byte>)
    requires |b| >= 2 && |b| >= 2 + LengthOctets(b[1])
  {
    && (b[1] % 128 == 126 ==> Announced(b) >= 126)
    && (b[1] % 128 == 127 ==> 65536 <= Announced(b) <= 0x7fff_ffff_ffff_ffff)
  }

  /** A close payload has no room for half a status code. */
  predicate HalfClose(b: seq<byte>)
    requires |b| >= 2
  {
    b[0] % 16 == 8 && b[1] % 128 == 1
  }

  function ShortLength(payloadLen: nat): nat {
    if payloadLen < 126 then payloadLen else if payloadLen < 65536 then 126 else 127
  }

  /** Octets a header takes for this payload. */
  function OctetsFor(payloadLen: nat, masked: bool): nat {
    2 + (if payloadLen < 126 then 0 else if payloadLen < 65536 then 2 else 8) + if masked then 4 else 0
  }

  /** What can be sent as a header: the seven length bits must be the ones the payload length calls for. */
  predicate Encodable(h: FrameHeader, payloadLen: nat, key: Option<MaskingKey>) {
    && KnownOpcode(h.opcode) && !h.rsv1 && !h.rsv2 && !h.rsv3
    && payloadLen <= 0x7fff_ffff_ffff_ffff && h.payloadLen == ShortLength(payloadLen)
    && (h.opcode >= 8 ==> h.fin && payloadLen <= 125)
    && h.mask == key.Some?
  }

  /** The octets b are this header. */
  predicate Serializes(b: seq<byte>, h: FrameHeader, payloadLen: nat, key: Option<MaskingKey>) {
    && |b| == OctetsFor(payloadLen, key.Some?)
    && b[0] == h.opcode + (if h.fin then 128 else 0)
    && b[1] == ShortLength(payloadLen) + (if key.Some? then 128 else 0)
    && Announced(b) == payloadLen
    && (key.Some? ==> b[|b| - 4..] == key.value)
  }
}
