/** Frame admission rules of a connection (src/event.zig), section 5.4 of RFC 6455. */
module Protocol {
  import opened Types
  import opened Format
  import opened Bytes
  import opened Codec

  /** The opcode and running length of the message that is currently fragmented, if any. */
  datatype Fragment = Fragment(opcode: Option<Opcode>, messageLen: nat)

  const NO_FRAGMENT := Fragment(None, 0)

  /** A complete frame as the application sees it. */
  datatype Frame = Frame(opcode: Opcode, fin: bool, payload: seq<byte>)

  type HeaderBuffer = s: seq<byte> | |s| == MAX_FRAME_HEADER_LEN
    witness [0, 0, 0, 0, 0, 0, 0, 0, 0, 0, 0, 0, 0, 0]

  /** One outgoing frame: borrowed plaintext payload, serialized header, and progress counters. */
  datatype FrameNode = FrameNode(
    payload: seq<byte>, headerLen: nat, headerSent: nat, payloadSent: nat, headerBuf: HeaderBuffer)

  // ---------------------------------------------------------------- receiving

  /** Limit, mask direction and fragment order of a decoded header (src/event.zig:91-116). */
  function ValidateIncoming(cfg: Config, frag: Fragment, d: DecodedHeader): Check {
    if d.payloadLen > cfg.maxFrameLen then Fail(PayloadTooLarge)
    else if cfg.role == Server && !d.header.mask then Fail(PayloadNotMasked)
    else if cfg.role == Client && d.header.mask then Fail(PayloadMasked)
    else
      var op := d.header.opcode;
      if IsControl(op) then Pass
      else if op == CONTINUATION then
        if frag.opcode.None? then Fail(ProtocolError)
        else if frag.messageLen > cfg.maxMessageLen then Fail(PayloadTooLarge)
        else if d.payloadLen > cfg.maxMessageLen - frag.messageLen then Fail(PayloadTooLarge)
        else Pass
      else if op == TEXT || op == BINARY then
        if frag.opcode.Some? then Fail(ProtocolError)
        else if d.payloadLen > cfg.maxMessageLen then Fail(PayloadTooLarge)
        else Pass
      else Fail(InvalidOpcode)
  }

  /** The fragment state after a frame completes (src/event.zig:159-178). */
  function CommitFragment(frag: Fragment, d: DecodedHeader): Fragment {
    var op := d.header.opcode;
    if IsControl(op) then frag
    else if op == TEXT || op == BINARY then
      if !d.header.fin then Fragment(Some(op), d.payloadLen) else frag
    else if op == CONTINUATION then
      if d.header.fin then NO_FRAGMENT else frag.(messageLen := frag.messageLen + d.payloadLen)
    else frag
  }

  // ---------------------------------------------------------------- sending

  /** Checks a node against the connection and returns the next fragment state
      (src/event.zig:305-347). */
  function ValidateOutgoing(cfg: Config, frag: Fragment, node: FrameNode): Result<Fragment> {
    if node.headerLen < 2 || node.headerLen > MAX_FRAME_HEADER_LEN then Err(InvalidLength)
    else if node.headerSent != 0 || node.payloadSent != 0 then Err(ProtocolError)
    else match DecodeHeader(node.headerBuf[..node.headerLen])
      case Err(e) => Err(e)
      case Ok(d) =>
        if d.headerLen != node.headerLen then Err(InvalidLength)
        else if d.payloadLen != |node.payload| then Err(InvalidLength)
        else if d.payloadLen > cfg.maxFrameLen then Err(PayloadTooLarge)
        else if cfg.role == Client && !d.header.mask then Err(PayloadNotMasked)
        else if cfg.role == Server && d.header.mask then Err(PayloadMasked)
        else NextFragment(cfg, frag, d.header.opcode, d.header.fin, d.payloadLen)
  }

  function NextFragment(cfg: Config, frag: Fragment, op: Opcode, fin: bool, payloadLen: nat): Result<Fragment> {
    if IsControl(op) then Ok(frag)
    else if op == CONTINUATION then
      if frag.opcode.None? then Err(ProtocolError)
      else if frag.messageLen > cfg.maxMessageLen then Err(PayloadTooLarge)
      else if payloadLen > cfg.maxMessageLen - frag.messageLen then Err(PayloadTooLarge)
      else Ok(if fin then NO_FRAGMENT else Fragment(frag.opcode, frag.messageLen + payloadLen))
    else if op == TEXT || op == BINARY then
      if frag.opcode.Some? then Err(ProtocolError)
      else if payloadLen > cfg.maxMessageLen then Err(PayloadTooLarge)
      else Ok(if fin then NO_FRAGMENT else Fragment(Some(op), payloadLen))
    else Err(InvalidOpcode)
  }

  // ---------------------------------------------------------------- building nodes

  predicate IsValidCloseCode(code: nat) {
    1000 <= code <= 1003 || 1007 <= code <= 1014 || 3000 <= code <= 4999
  }

  /** Close payload rules of section 5.5.1 of RFC 6455; utf8 decides well-formedness of the reason. */
  function ValidateClosePayload(utf8: seq<byte> -> bool, payload: seq<byte>): Check {
    if |payload| > 125 then Fail(ProtocolError)
    else if |payload| == 0 then Pass
    else if |payload| == 1 then Fail(ProtocolError)
    else if !IsValidCloseCode(FromBigEndian(payload[..2])) then Fail(ProtocolError)
    else if !utf8(payload[2..]) then Fail(InvalidUtf8)
    else Pass
  }

  /** A close payload is empty, or a registered status code in network order and a well-formed reason,
      at most 125 bytes together; codes 1004 to 1006, 1015 and the unassigned ranges never pass. */
  lemma CloseRules(utf8: seq<byte> -> bool, payload: seq<byte>)
    ensures ValidateClosePayload(utf8, payload).Pass? <==>
              || payload == []
              || (&& 2 <= |payload| <= 125 && utf8(payload[2..])
                  && var code: int := payload[0] as int * 256 + payload[1];
                     1000 <= code < 5000 && code !in {1004, 1005, 1006} && !(1015 <= code < 3000))
  {
    if |payload| >= 2 {
      var r := Reverse(payload[..2]);
      assert r == [payload[1], payload[0]];
      assert r[1..] == [payload[0]] && r[1..][1..] == [];
      assert FromLittleEndian(r[1..]) == payload[0];
    }
  }

  function ValidateOutgoingFrame(cfg: Config, fin: bool, op: Opcode, payloadLen: nat, masked: bool): Check {
    if !IsKnown(op) then Fail(InvalidOpcode)
    else if payloadLen > cfg.maxFrameLen then Fail(PayloadTooLarge)
    else if !IsControl(op) && payloadLen > cfg.maxMessageLen then Fail(PayloadTooLarge)
    else if IsControl(op) && (!fin || payloadLen > 125) then Fail(ProtocolError)
    else if cfg.role == Client && !masked then Fail(PayloadNotMasked)
    else if cfg.role == Server && masked then Fail(PayloadMasked)
    else Pass
  }

  /** The first check of prepare_frame that fails, or Pass. */
  function PrepareCheck(cfg: Config, utf8: seq<byte> -> bool, fin: bool, op: Opcode, payload: seq<byte>,
                        masked: bool, key: Option<MaskingKey>): Check {
    var c := ValidateOutgoingFrame(cfg, fin, op, |payload|, masked);
    if c.Fail? then c
    else if masked && key.None? then Fail(MaskingKeyRequired)
    else if !masked && key.Some? then Fail(ProtocolError)
    else if op == CLOSE then ValidateClosePayload(utf8, payload)
    else Pass
  }

  // The rules for a single frame in numerals.

  predicate TooLong(cfg: Config, op: int, payloadLen: nat) {
    payloadLen > cfg.maxFrameLen || (op < 0x8 && payloadLen > cfg.maxMessageLen)
  }

  predicate ControlAllowed(fin: bool, op: int, payloadLen: nat) {
    op >= 0x8 ==> fin && payloadLen <= 125
  }

  /** The payload starts with a status code that may be sent. */
  predicate HasCloseCode(payload: seq<byte>) {
    |payload| >= 2
    && var code := Octets2(payload[0], payload[1]);
       1000 <= code < 5000 && code !in {1004, 1005, 1006} && !(1015 <= code < 3000)
  }

  /** Everything about a frame but its mask and its close payload is in order. */
  predicate ShapeAllowed(cfg: Config, fin: bool, op: int, payloadLen: nat) {
    KnownOpcode(op) && !TooLong(cfg, op, payloadLen) && ControlAllowed(fin, op, payloadLen)
  }

  predicate CloseAllowed(utf8: seq<byte> -> bool, op: int, payload: seq<byte>) {
    op == 0x8 && payload != [] ==> HasCloseCode(payload) && utf8(payload[2..])
  }

  /** Which frames may be prepared. */
  predicate Sendable(cfg: Config, utf8: seq<byte> -> bool, fin: bool, op: int, payload: seq<byte>, masked: bool,
                     key: Option<MaskingKey>) {
    && ShapeAllowed(cfg, fin, op, |payload|)
    && masked == (cfg.role == Client) == key.Some?
    && CloseAllowed(utf8, op, payload)
  }

  /** The checks of prepare_frame in numerals: which frames pass, and which error each other frame gets. */
  lemma PrepareMeans(cfg: Config, utf8: seq<byte> -> bool, fin: bool, op: Opcode, payload: seq<byte>,
                     masked: bool, key: Option<MaskingKey>)
    ensures var c := PrepareCheck(cfg, utf8, fin, op, payload, masked, key);
            var shape := ShapeAllowed(cfg, fin, op, |payload|);
            && (c.Pass? <==> Sendable(cfg, utf8, fin, op, payload, masked, key))
            && (c == Fail(InvalidOpcode) <==> !KnownOpcode(op))
            && (c == Fail(PayloadTooLarge) <==> KnownOpcode(op) && TooLong(cfg, op, |payload|))
            && (c == Fail(PayloadNotMasked) <==> shape && cfg.role == Client && !masked)
            && (c == Fail(PayloadMasked) <==> shape && cfg.role == Server && masked)
            && (c == Fail(MaskingKeyRequired) <==> shape && cfg.role == Client && masked && key.None?)
            && (c == Fail(InvalidUtf8) <==>
                  && shape && masked == (cfg.role == Client) == key.Some?
                  && op == 0x8 && HasCloseCode(payload) && !utf8(payload[2..]))
            && (c == Fail(ProtocolError) <==>
                  && KnownOpcode(op) && !TooLong(cfg, op, |payload|)
                  && (|| !ControlAllowed(fin, op, |payload|)
                      || (cfg.role == Server && !masked && key.Some?)
                      || (&& masked == (cfg.role == Client) == key.Some?
                          && op == 0x8 && payload != [] && !HasCloseCode(payload))))
  {
    CloseMeans(utf8, payload);
    hide ValidateClosePayload;
  }

  lemma SendablePasses(cfg: Config, utf8: seq<byte> -> bool, fin: bool, op: Opcode, payload: seq<byte>,
                       masked: bool, key: Option<MaskingKey>)
    ensures PrepareCheck(cfg, utf8, fin, op, payload, masked, key).Pass?
        <==> Sendable(cfg, utf8, fin, op, payload, masked, key)
  {
    PrepareMeans(cfg, utf8, fin, op, payload, masked, key);
  }

  lemma CloseMeans(utf8: seq<byte> -> bool, payload: seq<byte>)
    ensures ValidateClosePayload(utf8, payload)
         == if payload == [] then Pass
            else if |payload| > 125 || !HasCloseCode(payload) then Fail(ProtocolError)
            else if !utf8(payload[2..]) then Fail(InvalidUtf8)
            else Pass
  {
    if |payload| >= 2 { BigEndianTwo(payload[..2]); }
  }

  /** Builds a node over the caller's payload (src/event.zig:392-438). */
  method PrepareFrame(cfg: Config, utf8: seq<byte> -> bool, fin: bool, op: Opcode, payload: seq<byte>,
                      masked: bool, key: Option<MaskingKey>) returns (r: Result<FrameNode>)
    requires ValidConfig(cfg)
    ensures match PrepareCheck(cfg, utf8, fin, op, payload, masked, key)
            case Fail(e) => r == Err(e)
            case Pass => r.Ok? && IsNodeFor(r.value, fin, op, payload, key)
    ensures r.Ok? <==> Sendable(cfg, utf8, fin, op, payload, masked, key)
  {
    hide Sendable, Serializes, Encodable, OctetsFor, FirstByte, SecondByte, DecodeHeader;
    SendablePasses(cfg, utf8, fin, op, payload, masked, key);
    var c := ValidateOutgoingFrame(cfg, fin, op, |payload|, masked);
    if c.Fail? { return Err(c.error); }
    if masked && key.None? { return Err(MaskingKeyRequired); }
    if !masked && key.Some? { return Err(ProtocolError); }
    if op == CLOSE {
      var close := ValidateClosePayload(utf8, payload);
      if close.Fail? { return Err(close.error); }
    }
    var header := FrameHeader(op, false, false, false, fin, Marker(|payload|), masked);
    var buf := new byte[MAX_FRAME_HEADER_LEN](_ => 0);
    var n := EncodeHeaderInto(buf, header, |payload|, key);
    EncodedFits(header, |payload|, key);
    assert n.Ok?;
    var headerBuf: HeaderBuffer := buf[..];
    var bytes := EncodeHeader(header, |payload|, key).value;
    assert headerBuf[..n.value] == bytes;
    EncodeDecode(header, |payload|, key, []);
    assert bytes + [] == bytes;
    return Ok(FrameNode(payload, n.value, 0, 0, headerBuf));
  }

  lemma EncodedFits(header: FrameHeader, payloadLen: nat, key: Option<MaskingKey>)
    requires EncodeHeader(header, payloadLen, key).Ok?
    ensures 2 <= |EncodeHeader(header, payloadLen, key).value| <= MAX_FRAME_HEADER_LEN
  {
  }

  /** A fresh node whose header decodes to exactly these fields. */
  predicate IsNodeFor(node: FrameNode, fin: bool, op: Opcode, payload: seq<byte>, key: Option<MaskingKey>) {
    && node.payload == payload
    && node.headerSent == 0 && node.payloadSent == 0
    && 2 <= node.headerLen <= MAX_FRAME_HEADER_LEN
    && DecodeHeader(node.headerBuf[..node.headerLen])
       == Ok(DecodedHeader(FrameHeader(op, false, false, false, fin, Marker(|payload|), key.Some?),
                           |payload|, node.headerLen, key))
  }

  /** A prepared node passes every per-frame check of queueing on the same connection, so queueing
      can refuse it only for fragment order or the message total. */
  lemma PreparedIsQueueable(cfg: Config, utf8: seq<byte> -> bool, fin: bool, op: Opcode, payload: seq<byte>,
                            masked: bool, key: Option<MaskingKey>, frag: Fragment, node: FrameNode)
    requires PrepareCheck(cfg, utf8, fin, op, payload, masked, key).Pass?
    requires IsNodeFor(node, fin, op, payload, key)
    ensures ValidateOutgoing(cfg, frag, node) == NextFragment(cfg, frag, op, fin, |payload|)
    ensures ValidateOutgoing(cfg, frag, node).Ok? <==>
              || IsControl(op)
              || (op == CONTINUATION && frag.opcode.Some? && frag.messageLen + |payload| <= cfg.maxMessageLen)
              || (op != CONTINUATION && frag.opcode.None?)
    ensures ValidateOutgoing(cfg, frag, node).Err? ==>
              ValidateOutgoing(cfg, frag, node).error in {ProtocolError, PayloadTooLarge}
  {
    var d := DecodeHeader(node.headerBuf[..node.headerLen]).value;
    assert d.headerLen == node.headerLen && d.payloadLen == |node.payload| && d.header.mask == masked;
  }

  predicate SizesFit(node: FrameNode, d: DecodedHeader) {
    d.headerLen == node.headerLen && d.payloadLen == |node.payload|
  }

  /** What queueing asks of a node beyond a header that decodes. */
  predicate HeaderFits(cfg: Config, node: FrameNode, d: DecodedHeader) {
    && SizesFit(node, d) && |node.payload| <= cfg.maxFrameLen
    && d.header.mask == (cfg.role == Client)
  }

  /** A data frame is a continuation exactly when a message is open. */
  predicate InOrder(frag: Fragment, op: int) {
    op < 0x8 ==> (op == 0x0 <==> frag.opcode.Some?)
  }

  predicate WithinMessage(cfg: Config, frag: Fragment, op: int, payloadLen: nat) {
    op < 0x8 ==> frag.messageLen + payloadLen <= cfg.maxMessageLen
  }

  /** Validation of a received header in numerals: which headers pass, and which error each other gets. */
  lemma IncomingMeans(cfg: Config, frag: Fragment, d: DecodedHeader)
    requires Consistent(frag)
    ensures var c, op := ValidateIncoming(cfg, frag, d), d.header.opcode;
            var masked := d.header.mask == (cfg.role == Server);
            && (c == Fail(PayloadNotMasked) <==> d.payloadLen <= cfg.maxFrameLen && !masked && cfg.role == Server)
            && (c == Fail(PayloadMasked) <==> d.payloadLen <= cfg.maxFrameLen && !masked && cfg.role == Client)
            && (c == Fail(InvalidOpcode) <==> d.payloadLen <= cfg.maxFrameLen && masked && !KnownOpcode(op))
            && (c == Fail(ProtocolError) <==>
                  d.payloadLen <= cfg.maxFrameLen && masked && KnownOpcode(op) && !InOrder(frag, op))
            && (c == Fail(PayloadTooLarge) <==>
                  || d.payloadLen > cfg.maxFrameLen
                  || (masked && KnownOpcode(op) && InOrder(frag, op) && !WithinMessage(cfg, frag, op, d.payloadLen)))
            && (c == Pass <==>
                  && d.payloadLen <= cfg.maxFrameLen && masked && KnownOpcode(op)
                  && InOrder(frag, op) && WithinMessage(cfg, frag, op, d.payloadLen))
  {
  }

  /** Admission to the queue in numerals: which nodes pass, the open message after them, and when a refusal
      is a protocol error rather than a bad argument. */
  lemma AdmissionMeans(cfg: Config, frag: Fragment, node: FrameNode)
    requires Consistent(frag)
    ensures var r := ValidateOutgoing(cfg, frag, node);
            if node.headerLen < 2 || node.headerLen > 14 then r == Err(InvalidLength)
            else
              var header := DecodeHeader(node.headerBuf[..node.headerLen]);
              && (r.Ok? <==>
                    && node.headerSent == 0 && node.payloadSent == 0
                    && header.Ok? && HeaderFits(cfg, node, header.value)
                    && InOrder(frag, header.value.header.opcode)
                    && WithinMessage(cfg, frag, header.value.header.opcode, |node.payload|))
              && (r.Ok? ==>
                    var h := header.value.header;
                    r.value == if h.opcode >= 0x8 then frag
                               else if h.fin then Fragment(None, 0)
                               else Fragment(Some(if h.opcode == 0x0 then frag.opcode.value else h.opcode),
                                             frag.messageLen + |node.payload|))
              && (r == Err(PayloadTooLarge) <==>
                    && node.headerSent == 0 && node.payloadSent == 0 && header.Ok? && SizesFit(node, header.value)
                    && (|| |node.payload| > cfg.maxFrameLen
                        || (&& HeaderFits(cfg, node, header.value) && InOrder(frag, header.value.header.opcode)
                            && !WithinMessage(cfg, frag, header.value.header.opcode, |node.payload|))))
              && (r == Err(PayloadNotMasked) <==>
                    && node.headerSent == 0 && node.payloadSent == 0 && header.Ok? && SizesFit(node, header.value)
                    && |node.payload| <= cfg.maxFrameLen && cfg.role == Client && !header.value.header.mask)
              && (r == Err(PayloadMasked) <==>
                    && node.headerSent == 0 && node.payloadSent == 0 && header.Ok? && SizesFit(node, header.value)
                    && |node.payload| <= cfg.maxFrameLen && cfg.role == Server && header.value.header.mask)
              && (r == Err(InvalidLength) <==>
                    && node.headerSent == 0 && node.payloadSent == 0
                    && (header == Err(InvalidLength) || (header.Ok? && !SizesFit(node, header.value))))
              && (r == Err(ProtocolError) <==>
                    || node.headerSent != 0 || node.payloadSent != 0
                    || header == Err(ProtocolError)
                    || (header.Ok? && HeaderFits(cfg, node, header.value)
                        && !InOrder(frag, header.value.header.opcode)))
  {
    if 2 <= node.headerLen <= 14 {
      var bytes := node.headerBuf[..node.headerLen];
      DecodeMeans(bytes);
      hide DecodeHeader;
    }
  }

  // ---------------------------------------------------------------- both directions agree

  /** Opposite roles with the same limits. */
  predicate Peers(tx: Config, rx: Config) {
    tx.role != rx.role && tx.maxFrameLen == rx.maxFrameLen && tx.maxMessageLen == rx.maxMessageLen
  }

  /** A closed fragment state counts nothing. */
  predicate Consistent(frag: Fragment) {
    frag.opcode.None? ==> frag.messageLen == 0
  }

  function NodeHeader(node: FrameNode): Result<DecodedHeader>
    requires node.headerLen <= MAX_FRAME_HEADER_LEN
  {
    DecodeHeader(node.headerBuf[..node.headerLen])
  }

  /** Whatever the sender lets into its queue, the receiver admits in the same fragment state,
      and both arrive in the same next state. */
  lemma AdmittedByPeer(tx: Config, rx: Config, frag: Fragment, node: FrameNode)
    requires Peers(tx, rx) && Consistent(frag)
    requires ValidateOutgoing(tx, frag, node).Ok?
    ensures NodeHeader(node).Ok?
    ensures var d := NodeHeader(node).value;
            && d.headerLen == node.headerLen && d.payloadLen == |node.payload|
            && ValidateIncoming(rx, frag, d).Pass?
            && ValidateOutgoing(tx, frag, node) == Ok(CommitFragment(frag, d))
            && Consistent(CommitFragment(frag, d))
  {
  }

  // ---------------------------------------------------------------- message grammar

  /** The opcode of the message left open by these frames, if one is. */
  function OpenOpcode(frames: seq<Frame>): Option<Opcode> {
    if frames == [] then None
    else
      var front, last := frames[..|frames| - 1], frames[|frames| - 1];
      if last.opcode >= 0x8 then OpenOpcode(front)
      else if last.fin then None
      else if last.opcode == 0x0 then OpenOpcode(front)
      else Some(last.opcode)
  }

  /** The payload bytes of the message left open by these frames. */
  function OpenLen(frames: seq<Frame>): nat {
    if frames == [] then 0
    else
      var front, last := frames[..|frames| - 1], frames[|frames| - 1];
      if last.opcode >= 0x8 then OpenLen(front)
      else if last.fin then 0
      else OpenLen(front) + |last.payload|
  }

  /** Control frames are whole and small; a data frame is a continuation exactly when a message
      is open before it. */
  ghost predicate Grammatical(frames: seq<Frame>) {
    forall i :: 0 <= i < |frames| ==> GrammaticalAt(frames, i)
  }

  ghost predicate GrammaticalAt(frames: seq<Frame>, i: nat)
    requires i < |frames|
  {
    var f := frames[i];
    && KnownOpcode(f.opcode)
    && if f.opcode >= 0x8 then f.fin && |f.payload| <= 125
       else f.opcode == 0x0 <==> OpenOpcode(frames[..i]).Some?
  }

  /** No frame and no message exceeds its limit. */
  ghost predicate WithinLimits(cfg: Config, frames: seq<Frame>) {
    forall i :: 0 <= i < |frames| ==> WithinLimitsAt(cfg, frames, i)
  }

  ghost predicate WithinLimitsAt(cfg: Config, frames: seq<Frame>, i: nat)
    requires i < |frames|
  {
    var f := frames[i];
    && |f.payload| <= cfg.maxFrameLen
    && (f.opcode < 0x8 ==> OpenLen(frames[..i]) + |f.payload| <= cfg.maxMessageLen)
  }

  /** The fragment state summarizes a grammatical history exactly. */
  ghost predicate Tracks(cfg: Config, frag: Fragment, frames: seq<Frame>) {
    && Grammatical(frames) && WithinLimits(cfg, frames)
    && frag == Fragment(OpenOpcode(frames), OpenLen(frames))
    && Consistent(frag)
    && frag.messageLen <= cfg.maxMessageLen
  }

  lemma PrefixesUnchanged(frames: seq<Frame>, f: Frame)
    ensures forall i :: 0 <= i <= |frames| ==> (frames + [f])[..i] == frames[..i]
  {
  }

  /** One more frame extends a grammatical, bounded history exactly when the rules admit it. */
  lemma TracksStep(cfg: Config, frag: Fragment, frames: seq<Frame>, f: Frame)
    requires Tracks(cfg, frag, frames)
    requires |f.payload| <= cfg.maxFrameLen && IsKnown(f.opcode)
    requires IsControl(f.opcode) ==> f.fin && |f.payload| <= 125
    ensures var next := NextFragment(cfg, frag, f.opcode, f.fin, |f.payload|);
            && (next.Ok? <==> Grammatical(frames + [f]) && WithinLimits(cfg, frames + [f]))
            && (next.Ok? ==> Tracks(cfg, next.value, frames + [f]))
  {
    var all := frames + [f];
    var n := |frames|;
    assert all[..n] == frames && all[|all| - 1] == f && all[..|all| - 1] == frames;
    PrefixesUnchanged(frames, f);
    forall i | 0 <= i < n
      ensures GrammaticalAt(all, i) && WithinLimitsAt(cfg, all, i)
    {
      assert all[i] == frames[i] && all[..i] == frames[..i];
      assert GrammaticalAt(frames, i) && WithinLimitsAt(cfg, frames, i);
    }
    assert Grammatical(all) <==> GrammaticalAt(all, n);
    assert WithinLimits(cfg, all) <==> WithinLimitsAt(cfg, all, n);
  }

  /** Receiving and sending share one fragment automaton. */
  lemma IncomingIsNextFragment(cfg: Config, frag: Fragment, d: DecodedHeader)
    requires Consistent(frag) && ValidateIncoming(cfg, frag, d).Pass?
    ensures NextFragment(cfg, frag, d.header.opcode, d.header.fin, d.payloadLen) == Ok(CommitFragment(frag, d))
  {
  }
}
