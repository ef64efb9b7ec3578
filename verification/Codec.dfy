/** Frame header codec (src/frame.zig), sections 5.2 and 5.5 of RFC 6455. */
module Codec {
  import opened Types
  import opened Bytes
  import opened Format

  // ---------------------------------------------------------------- packed base header

  function Flag(b: bool, value: nat): nat {
    if b then value else 0
  }

  /** The low byte of the base header: opcode, then the three reserved bits, then fin. */
  function FirstByte(h: FrameHeader): byte {
    h.opcode + 16 * (Flag(h.rsv3, 1) + Flag(h.rsv2, 2) + Flag(h.rsv1, 4) + Flag(h.fin, 8))
  }

  /** The high byte: the seven length bits, then the mask bit. */
  function SecondByte(h: FrameHeader): byte {
    h.payloadLen + Flag(h.mask, 128)
  }

  function HeaderFromBytes(b0: byte, b1: byte): FrameHeader {
    var flags := b0 / 16;
    FrameHeader(b0 % 16, flags % 2 == 1, flags / 2 % 2 == 1, flags / 4 % 2 == 1, flags / 8 == 1,
                b1 % 128, b1 >= 128)
  }

  lemma HeaderToBytesToHeader(h: FrameHeader)
    ensures HeaderFromBytes(FirstByte(h), SecondByte(h)) == h
  {
    assert FirstByte(h) / 16 == Flag(h.rsv3, 1) + Flag(h.rsv2, 2) + Flag(h.rsv1, 4) + Flag(h.fin, 8);
  }

  lemma BytesToHeaderToBytes(b0: byte, b1: byte)
    ensures var h := HeaderFromBytes(b0, b1); FirstByte(h) == b0 && SecondByte(h) == b1
    ensures HeaderFromBytes(b0, b1).fin == (b0 >= 128)
  {
  }

  // ---------------------------------------------------------------- lengths

  datatype DecodedHeader = DecodedHeader(
    header: FrameHeader, payloadLen: nat, headerLen: nat, key: Option<MaskingKey>)

  datatype DecodedLength = DecodedLength(payloadLen: nat, headerLen: nat)

  function ReadLength(buf: seq<byte>, marker: u7): Result<DecodedLength> {
    if marker == 126 then
      if |buf| < 4 then Err(BufferTooShort)
      else
        var len := FromBigEndian(buf[2..4]);
        if len < 126 then Err(ProtocolError) else Ok(DecodedLength(len, 4))
    else if marker == 127 then
      if |buf| < 10 then Err(BufferTooShort)
      else
        var len := FromBigEndian(buf[2..10]);
        if len < 65536 then Err(ProtocolError)
        else if len > MAX_PAYLOAD_LEN then Err(InvalidLength)
        else Ok(DecodedLength(len, 10))
    else
      Ok(DecodedLength(marker, 2))
  }

  /** Header size announced by the second byte alone. */
  function HeaderBytesNeeded(lenByte: byte): (n: nat)
    ensures 2 <= n <= MAX_FRAME_HEADER_LEN
  {
    var marker := lenByte % 128;
    2 + (if marker == 126 then 2 else if marker == 127 then 8 else 0)
      + (if lenByte >= 128 then MASKING_KEY_LEN else 0)
  }

  function SerializedSize(payloadLen: nat, masked: bool): Result<nat> {
    if payloadLen > MAX_PAYLOAD_LEN then Err(InvalidLength)
    else Ok(2 + (if 126 <= payloadLen <= 65535 then 2 else if payloadLen > 65535 then 8 else 0)
              + (if masked then MASKING_KEY_LEN else 0))
  }

  function Marker(payloadLen: nat): u7 {
    if payloadLen < 126 then payloadLen else if payloadLen <= 65535 then 126 else 127
  }

  // ---------------------------------------------------------------- encoder and decoder

  /** The bytes of a header, or the error the encoder reports before it looks at the buffer. */
  function EncodeHeader(header: FrameHeader, payloadLen: nat, key: Option<MaskingKey>): Result<seq<byte>> {
    match CheckHeader(header, payloadLen, key)
    case Fail(e) => Err(e)
    case Pass => Ok([FirstByte(header), SecondByte(header)] + ExtendedLength(payloadLen) + KeyBytes(key))
  }

  /** The encoder's argument checks, in the order it makes them. */
  function CheckHeader(header: FrameHeader, payloadLen: nat, key: Option<MaskingKey>): Check {
    if !IsKnown(header.opcode) then Fail(InvalidOpcode)
    else if header.rsv1 || header.rsv2 || header.rsv3 then Fail(ProtocolError)
    else if payloadLen > MAX_PAYLOAD_LEN then Fail(InvalidLength)
    else if header.payloadLen != Marker(payloadLen) then Fail(ProtocolError)
    else if IsControl(header.opcode) && (!header.fin || payloadLen > 125) then Fail(ProtocolError)
    else if header.mask && key.None? then Fail(MaskingKeyRequired)
    else if !header.mask && key.Some? then Fail(ProtocolError)
    else Pass
  }

  function ExtendedLength(payloadLen: nat): seq<byte> {
    BigEndian(payloadLen, if Marker(payloadLen) == 126 then 2 else if Marker(payloadLen) == 127 then 8 else 0)
  }

  function KeyBytes(key: Option<MaskingKey>): seq<byte> {
    if key.Some? then key.value else []
  }

  function DecodeHeader(buf: seq<byte>): Result<DecodedHeader> {
    if |buf| < 2 then Err(BufferTooShort) else DecodeRest(HeaderFromBytes(buf[0], buf[1]), buf)
  }

  /** The decoder after the two base bytes have been unpacked. */
  function DecodeRest(header: FrameHeader, buf: seq<byte>): Result<DecodedHeader> {
    if header.rsv1 || header.rsv2 || header.rsv3 then Err(ProtocolError)
    else if !IsKnown(header.opcode) then Err(InvalidOpcode)
    else if IsControl(header.opcode) && (header.payloadLen >= 126 || !header.fin) then Err(ProtocolError)
    else match ReadLength(buf, header.payloadLen)
      case Err(e) => Err(e)
      case Ok(length) =>
        var end := length.headerLen + MASKING_KEY_LEN;
        if header.opcode == CLOSE && length.payloadLen == 1 then Err(ProtocolError)
        else if !header.mask then Ok(DecodedHeader(header, length.payloadLen, length.headerLen, None))
        else if |buf| < end then Err(BufferTooShort)
        else Ok(DecodedHeader(header, length.payloadLen, end, Some(buf[length.headerLen..end])))
  }

  /** Writes the header into a caller's buffer with a moving index (src/frame.zig:104-161). */
  method EncodeHeaderInto(buf: array<byte>, header: FrameHeader, payloadLen: nat, key: Option<MaskingKey>)
    returns (r: Result<nat>)
    modifies buf
    ensures match EncodeHeader(header, payloadLen, key)
            case Err(e) => r == Err(e)
            case Ok(bytes) =>
              if buf.Length < |bytes| then r == Err(BufferTooShort)
              else r == Ok(|bytes|) && buf[..] == bytes + old(buf[|bytes|..])
    ensures r.Err? ==> buf[..] == old(buf[..])
    ensures r.Ok? <==>
              Encodable(header, payloadLen, key) && buf.Length >= OctetsFor(payloadLen, key.Some?)
    ensures r.Ok? ==> r.value <= buf.Length && Serializes(buf[..r.value], header, payloadLen, key)
  {
    EncodeMeans(header, payloadLen, key);
    hide Serializes, Encodable, FirstByte, SecondByte, BigEndian;
    var op := header.opcode;
    if !IsKnown(op) { return Err(InvalidOpcode); }
    if header.rsv1 || header.rsv2 || header.rsv3 { return Err(ProtocolError); }
    if payloadLen > MAX_PAYLOAD_LEN { return Err(InvalidLength); }

    var marker := Marker(payloadLen);
    if header.payloadLen != marker { return Err(ProtocolError); }
    if IsControl(op) && (!header.fin || payloadLen > 125) { return Err(ProtocolError); }
    if header.mask && key.None? { return Err(MaskingKeyRequired); }
    if !header.mask && key.Some? { return Err(ProtocolError); }

    var extendedSize := if marker == 126 then 2 else if marker == 127 then 8 else 0;
    var requiredSize := 2 + extendedSize + if header.mask then MASKING_KEY_LEN else 0;
    if buf.Length < requiredSize { return Err(BufferTooShort); }

    ghost var tail := buf[requiredSize..];
    buf[0] := FirstByte(header);
    buf[1] := SecondByte(header);
    ghost var base := [FirstByte(header), SecondByte(header)];
    assert buf[..2] == base;
    var index := 2;
    if marker == 126 {
      CopyInto(buf, index, BigEndian(payloadLen, 2));
      index := index + 2;
    } else if marker == 127 {
      CopyInto(buf, index, BigEndian(payloadLen, 8));
      index := index + 8;
    }
    ghost var ext := ExtendedLength(payloadLen);
    assert buf[..2] == base && buf[2..index] == ext;
    assert buf[..index] == base + ext;
    if header.mask {
      CopyInto(buf, index, key.value);
      index := index + MASKING_KEY_LEN;
      assert buf[..index] == base + ext + key.value;
    }
    assert buf[..index] == base + ext + KeyBytes(key);
    assert buf[index..] == tail;
    assert buf[..] == buf[..index] + buf[index..];
    return Ok(index);
  }

  // ---------------------------------------------------------------- octets

  lemma ReadLengthMeans(buf: seq<byte>, b1: byte)
    requires |buf| >= 2 && b1 == buf[1]
    ensures ReadLength(buf, b1 % 128)
         == if |buf| < 2 + LengthOctets(b1) then Err(BufferTooShort)
            else if LengthAllowed(buf) then Ok(DecodedLength(Announced(buf), 2 + LengthOctets(b1)))
            else if Announced(buf) > 0x7fff_ffff_ffff_ffff then Err(InvalidLength)
            else Err(ProtocolError)
  {
    if |buf| >= 2 + LengthOctets(b1) {
      if b1 % 128 == 126 {
        BigEndianTwo(buf[2..4]);
      } else if b1 % 128 == 127 {
        BigEndianEight(buf[2..10]);
      }
    }
  }

  /** The decoder in octets: which headers it accepts, what it makes of them, and which error it reports. */
  lemma DecodeMeans(buf: seq<byte>)
    ensures DecodeHeader(buf).Ok? <==>
              && |buf| >= 2 && BaseAllowed(buf[0], buf[1])
              && |buf| >= HeaderOctets(buf[1]) && LengthAllowed(buf) && !HalfClose(buf)
    ensures DecodeHeader(buf).Ok? ==>
              var n := HeaderOctets(buf[1]);
              DecodeHeader(buf).value
              == DecodedHeader(FrameHeader(buf[0] % 16, false, false, false, buf[0] >= 128,
                                           buf[1] % 128, buf[1] >= 128),
                               Announced(buf), n, if buf[1] >= 128 then Some(buf[n - 4..n]) else None)
    ensures DecodeHeader(buf) == Err(InvalidOpcode) <==>
              |buf| >= 2 && buf[0] % 128 < 16 && !KnownOpcode(buf[0] % 16)
    ensures DecodeHeader(buf) == Err(BufferTooShort) <==>
              || |buf| < 2
              || (&& BaseAllowed(buf[0], buf[1])
                  && (|buf| < 2 + LengthOctets(buf[1])
                      || (LengthAllowed(buf) && !HalfClose(buf) && |buf| < HeaderOctets(buf[1]))))
    ensures DecodeHeader(buf) == Err(InvalidLength) <==>
              && |buf| >= 2 && BaseAllowed(buf[0], buf[1])
              && |buf| >= 2 + LengthOctets(buf[1]) && Announced(buf) > 0x7fff_ffff_ffff_ffff
    ensures DecodeHeader(buf).Err? ==>
              DecodeHeader(buf).error in {InvalidOpcode, BufferTooShort, InvalidLength, ProtocolError}
  {
    if |buf| >= 2 {
      ReadLengthMeans(buf, buf[1]);
      var h := HeaderFromBytes(buf[0], buf[1]);
      BaseBits(buf[0]);
      hide ReadLength;
    }
  }

  /** Both size computations in octets. */
  lemma SizesMean(b1: byte, payloadLen: nat, masked: bool)
    ensures HeaderBytesNeeded(b1) == HeaderOctets(b1)
    ensures SerializedSize(payloadLen, masked)
         == if payloadLen > 0x7fff_ffff_ffff_ffff then Err(InvalidLength) else Ok(OctetsFor(payloadLen, masked))
  {
  }

  lemma BaseBits(b0: byte)
    ensures var flags := b0 / 16; (flags % 2 == 1 || flags / 2 % 2 == 1 || flags / 4 % 2 == 1) <==> b0 % 128 >= 16
    ensures b0 / 16 / 8 == 1 <==> b0 >= 128
  {
  }

  /** The encoder in octets: which headers it accepts, the octets it writes, and which error it reports. */
  lemma EncodeMeans(header: FrameHeader, payloadLen: nat, key: Option<MaskingKey>)
    ensures EncodeHeader(header, payloadLen, key).Ok? <==> Encodable(header, payloadLen, key)
    ensures EncodeHeader(header, payloadLen, key).Ok? ==>
              Serializes(EncodeHeader(header, payloadLen, key).value, header, payloadLen, key)
    ensures EncodeHeader(header, payloadLen, key) == Err(InvalidOpcode) <==> !KnownOpcode(header.opcode)
    ensures EncodeHeader(header, payloadLen, key) == Err(InvalidLength) <==>
              && KnownOpcode(header.opcode) && !header.rsv1 && !header.rsv2 && !header.rsv3
              && payloadLen > 0x7fff_ffff_ffff_ffff
    ensures EncodeHeader(header, payloadLen, key) == Err(MaskingKeyRequired) <==>
              header.mask && key.None? && Encodable(header.(mask := false), payloadLen, None)
    ensures EncodeHeader(header, payloadLen, key).Err? ==>
              EncodeHeader(header, payloadLen, key).error
              in {InvalidOpcode, InvalidLength, MaskingKeyRequired, ProtocolError}
  {
    hide Serializes, FirstByte, SecondByte, ExtendedLength, KeyBytes;
    if Encodable(header, payloadLen, key) { EncodedOctets(header, payloadLen, key); }
  }

  lemma EncodedOctets(header: FrameHeader, payloadLen: nat, key: Option<MaskingKey>)
    requires Encodable(header, payloadLen, key)
    ensures Serializes([FirstByte(header), SecondByte(header)] + ExtendedLength(payloadLen) + KeyBytes(key),
                       header, payloadLen, key)
  {
    var ext := ExtendedLength(payloadLen);
    var b := [FirstByte(header), SecondByte(header)] + ext + KeyBytes(key);
    ExtendedOctets(payloadLen, b);
    if key.Some? { assert b[|b| - 4..] == key.value; }
  }

  lemma ExtendedOctets(payloadLen: nat, b: seq<byte>)
    requires payloadLen <= MAX_PAYLOAD_LEN && |b| >= 2 + |ExtendedLength(payloadLen)|
    requires b[1] % 128 == Marker(payloadLen) && b[2..2 + |ExtendedLength(payloadLen)|] == ExtendedLength(payloadLen)
    ensures Announced(b) == payloadLen
  {
    var ext := ExtendedLength(payloadLen);
    Pow2Values();
    if Marker(payloadLen) == 126 {
      BigEndianRead(payloadLen, 2);
      BigEndianTwo(ext);
      assert b[2] == ext[0] && b[3] == ext[1];
    } else if Marker(payloadLen) == 127 {
      BigEndianRead(payloadLen, 8);
      BigEndianEight(ext);
      assert forall i :: 0 <= i < 8 ==> b[2 + i] == ext[i];
    }
  }

  // ---------------------------------------------------------------- codec theorems

  /** The marker decides the extended length, and reading it back gives the same payload length. */
  lemma LengthRoundTrip(payloadLen: nat, before: seq<byte>, after: seq<byte>)
    requires payloadLen <= MAX_PAYLOAD_LEN && |before| == 2
    ensures ReadLength(before + ExtendedLength(payloadLen) + after, Marker(payloadLen))
         == Ok(DecodedLength(payloadLen, 2 + |ExtendedLength(payloadLen)|))
  {
    var ext := ExtendedLength(payloadLen);
    var buf := before + ext + after;
    assert buf[2..2 + |ext|] == ext;
    Pow2Values();
    if 126 <= payloadLen <= 65535 {
      BigEndianRead(payloadLen, 2);
    } else if payloadLen > 65535 {
      BigEndianRead(payloadLen, 8);
    }
  }

  lemma DecodeRestOfEncoded(header: FrameHeader, payloadLen: nat, key: Option<MaskingKey>,
                            base: seq<byte>, tail: seq<byte>)
    requires |base| == 2 && CheckHeader(header, payloadLen, key).Pass?
    ensures var bytes := base + ExtendedLength(payloadLen) + KeyBytes(key);
            DecodeRest(header, bytes + tail)
            == if header.opcode == CLOSE && payloadLen == 1 then Err(ProtocolError)
               else Ok(DecodedHeader(header, payloadLen, |bytes|, key))
  {
    var buf := base + ExtendedLength(payloadLen) + KeyBytes(key) + tail;
    assert buf == base + ExtendedLength(payloadLen) + (KeyBytes(key) + tail);
    LengthRoundTrip(payloadLen, base, KeyBytes(key) + tail);
    if key.Some? {
      var at := 2 + |ExtendedLength(payloadLen)|;
      assert buf[at..at + 4] == key.value;
    }
  }

  /** Decoding an encoded header returns every field, except that a one-byte close is refused. */
  lemma EncodeDecode(header: FrameHeader, payloadLen: nat, key: Option<MaskingKey>, tail: seq<byte>)
    requires EncodeHeader(header, payloadLen, key).Ok?
    ensures var bytes := EncodeHeader(header, payloadLen, key).value;
            DecodeHeader(bytes + tail)
            == if header.opcode == CLOSE && payloadLen == 1 then Err(ProtocolError)
               else Ok(DecodedHeader(header, payloadLen, |bytes|, key))
  {
    var b0, b1 := FirstByte(header), SecondByte(header);
    HeaderToBytesToHeader(header);
    DecodeRestOfEncoded(header, payloadLen, key, [b0, b1], tail);
  }

  /** A length that reads successfully is the canonical one for its marker. */
  lemma ReadLengthCanonical(buf: seq<byte>, marker: u7)
    requires |buf| >= 2 && ReadLength(buf, marker).Ok?
    ensures var d := ReadLength(buf, marker).value;
            && 2 <= d.headerLen <= |buf|
            && d.payloadLen <= MAX_PAYLOAD_LEN
            && Marker(d.payloadLen) == marker
            && buf[2..d.headerLen] == ExtendedLength(d.payloadLen)
            && SerializedSize(d.payloadLen, false) == Ok(d.headerLen)
            && (marker < 126 ==> d.payloadLen <= 125)
  {
    if marker == 126 {
      BigEndianWrite(buf[2..4]);
      Pow2Values();
    } else if marker == 127 {
      BigEndianWrite(buf[2..10]);
    }
  }

  /** What a successful decode says about the bytes it consumed. */
  lemma DecodedFields(header: FrameHeader, buf: seq<byte>)
    requires |buf| >= 2 && DecodeRest(header, buf).Ok?
    ensures var d := DecodeRest(header, buf).value;
            && d.header == header
            && CheckHeader(header, d.payloadLen, d.key).Pass?
            && 2 <= d.headerLen <= |buf|
            && SerializedSize(d.payloadLen, header.mask) == Ok(d.headerLen)
            && buf[..d.headerLen] == [buf[0], buf[1]] + ExtendedLength(d.payloadLen) + KeyBytes(d.key)
            && d.payloadLen <= MAX_PAYLOAD_LEN
            && header.mask == d.key.Some?
            && header.payloadLen == Marker(d.payloadLen)
  {
    var d := DecodeRest(header, buf).value;
    ReadLengthCanonical(buf, header.payloadLen);
    var at := ReadLength(buf, header.payloadLen).value.headerLen;
    assert buf[..d.headerLen] == [buf[0], buf[1]] + buf[2..at] + buf[at..d.headerLen];
  }

  lemma SizesAgree(b1: byte, payloadLen: nat)
    requires b1 % 128 == Marker(payloadLen) && payloadLen <= MAX_PAYLOAD_LEN
    ensures SerializedSize(payloadLen, b1 >= 128) == Ok(HeaderBytesNeeded(b1))
  {
  }

  /** Re-encoding what was decoded reproduces exactly the consumed bytes, and all four
      header-size computations agree. */
  lemma DecodeEncode(buf: seq<byte>)
    requires DecodeHeader(buf).Ok?
    ensures var d := DecodeHeader(buf).value;
            && 2 <= d.headerLen <= |buf|
            && EncodeHeader(d.header, d.payloadLen, d.key) == Ok(buf[..d.headerLen])
            && HeaderBytesNeeded(buf[1]) == d.headerLen
            && SerializedSize(d.payloadLen, d.header.mask) == Ok(d.headerLen)
            && d.header.mask == d.key.Some? == (buf[1] >= 128)
            && d.header.opcode == buf[0] % 16
            && d.payloadLen <= MAX_PAYLOAD_LEN
  {
    var d := DecodeHeader(buf).value;
    DecodedFields(HeaderFromBytes(buf[0], buf[1]), buf);
    SizesAgree(buf[1], d.payloadLen);
    BytesToHeaderToBytes(buf[0], buf[1]);
  }

  lemma SliceBeforeTail(buf: seq<byte>, tail: seq<byte>, i: nat, j: nat)
    requires i <= j <= |buf|
    ensures (buf + tail)[i..j] == buf[i..j]
  {
  }

  lemma ReadLengthIgnoresTail(buf: seq<byte>, tail: seq<byte>, marker: u7)
    requires ReadLength(buf, marker) != Err(BufferTooShort)
    ensures ReadLength(buf + tail, marker) == ReadLength(buf, marker)
  {
    if marker == 126 {
      SliceBeforeTail(buf, tail, 2, 4);
    } else if marker == 127 {
      SliceBeforeTail(buf, tail, 2, 10);
    }
  }

  /** Bytes after the header never change the result. */
  lemma DecodeIgnoresTail(buf: seq<byte>, tail: seq<byte>)
    requires DecodeHeader(buf) != Err(BufferTooShort)
    ensures DecodeHeader(buf + tail) == DecodeHeader(buf)
  {
    hide HeaderFromBytes, FromBigEndian;
    var h := HeaderFromBytes(buf[0], buf[1]);
    if ReadLength(buf, h.payloadLen) != Err(BufferTooShort) {
      ReadLengthIgnoresTail(buf, tail, h.payloadLen);
      hide ReadLength;
      var length := ReadLength(buf, h.payloadLen);
      if length.Ok? && |buf| >= length.value.headerLen + MASKING_KEY_LEN {
        SliceBeforeTail(buf, tail, length.value.headerLen, length.value.headerLen + MASKING_KEY_LEN);
      }
    }
  }

  /** The decoder asks for more bytes only while fewer than the announced count are present,
      and never succeeds on fewer. */
  lemma DecodeNeedsExactly(buf: seq<byte>)
    requires |buf| >= 2
    ensures |buf| >= HeaderBytesNeeded(buf[1]) ==> DecodeHeader(buf) != Err(BufferTooShort)
    ensures |buf| < HeaderBytesNeeded(buf[1]) ==> DecodeHeader(buf).Err?
  {
    if DecodeHeader(buf).Ok? { DecodeEncode(buf); }
  }

  /** No encoded header is a proper prefix of another: the header code is prefix-free. */
  lemma HeadersArePrefixFree(h1: FrameHeader, n1: nat, k1: Option<MaskingKey>,
                             h2: FrameHeader, n2: nat, k2: Option<MaskingKey>)
    requires EncodeHeader(h1, n1, k1).Ok? && EncodeHeader(h2, n2, k2).Ok?
    requires EncodeHeader(h1, n1, k1).value <= EncodeHeader(h2, n2, k2).value
    ensures h1 == h2 && n1 == n2 && k1 == k2
  {
    PrefixSharesBase(h1, n1, k1, h2, n2, k2);
    HeaderBytesInjective(h1, h2);
    var a, b := EncodeHeader(h1, n1, k1).value, EncodeHeader(h1, n2, k2).value;
    SamePrefix([FirstByte(h1), SecondByte(h1)], n1, k1, n2, k2, b[|a|..]);
  }

  lemma PrefixSharesBase(h1: FrameHeader, n1: nat, k1: Option<MaskingKey>,
                         h2: FrameHeader, n2: nat, k2: Option<MaskingKey>)
    requires EncodeHeader(h1, n1, k1).Ok? && EncodeHeader(h2, n2, k2).Ok?
    requires EncodeHeader(h1, n1, k1).value <= EncodeHeader(h2, n2, k2).value
    ensures FirstByte(h1) == FirstByte(h2) && SecondByte(h1) == SecondByte(h2)
  {
    var a, b := EncodeHeader(h1, n1, k1).value, EncodeHeader(h2, n2, k2).value;
    assert a[0] == b[0] && a[1] == b[1];
  }

  lemma HeaderBytesInjective(h1: FrameHeader, h2: FrameHeader)
    requires FirstByte(h1) == FirstByte(h2) && SecondByte(h1) == SecondByte(h2)
    ensures h1 == h2
  {
    HeaderToBytesToHeader(h1);
    HeaderToBytesToHeader(h2);
  }

  lemma SamePrefix(base: seq<byte>, n1: nat, k1: Option<MaskingKey>,
                   n2: nat, k2: Option<MaskingKey>, tail: seq<byte>)
    requires |base| == 2 && n1 <= MAX_PAYLOAD_LEN && n2 <= MAX_PAYLOAD_LEN
    requires Marker(n1) == Marker(n2) && k1.Some? == k2.Some?
    requires base + ExtendedLength(n1) + KeyBytes(k1) + tail == base + ExtendedLength(n2) + KeyBytes(k2)
    ensures n1 == n2 && k1 == k2
  {
    LengthRoundTrip(n1, base, KeyBytes(k1) + tail);
    LengthRoundTrip(n2, base, KeyBytes(k2));
    var all := base + ExtendedLength(n2) + KeyBytes(k2);
    assert all == base + ExtendedLength(n1) + (KeyBytes(k1) + tail);
    var at := 2 + |ExtendedLength(n1)|;
    assert all[at..] == KeyBytes(k1) + tail == KeyBytes(k2);
    assert tail == [] && KeyBytes(k1) + tail == KeyBytes(k1);
  }
}
