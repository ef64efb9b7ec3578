/** One-shot parser for a whole received byte stream: the reference the streaming receiver is
    measured against. */
module Stream {
  import opened Types
  import opened Codec
  import opened Mask
  import opened Protocol

  /** What the bytes of a frame received so far say about its header. */
  datatype HeaderStatus = NeedMore(needed: nat) | Bad(error: Error) | Good(decoded: DecodedHeader)

  function Header(cfg: Config, frag: Fragment, bytes: seq<byte>): HeaderStatus {
    if |bytes| < 2 then NeedMore(2)
    else
      var n := HeaderBytesNeeded(bytes[1]);
      if |bytes| < n then NeedMore(n)
      else match DecodeHeader(bytes[..n])
        case Err(e) => Bad(e)
        case Ok(d) =>
          match ValidateIncoming(cfg, frag, d)
          case Fail(e) => Bad(e)
          case Pass => Good(d)
  }

  /** The result of looking for one frame at the front of a byte string. */
  datatype Step = Partial | Reject(error: Error) | Done(frame: Frame, len: nat, frag: Fragment)

  function ParseOne(cfg: Config, frag: Fragment, bytes: seq<byte>): (r: Step)
    ensures r.Done? ==> 2 <= r.len <= |bytes|
  {
    match Header(cfg, frag, bytes)
    case NeedMore(_) => Partial
    case Bad(e) => Reject(e)
    case Good(d) =>
      HeaderGood(cfg, frag, bytes);
      var end := d.headerLen + d.payloadLen;
      if |bytes| < end then Partial
      else Done(Frame(d.header.opcode, d.header.fin, MaskOpt(bytes[d.headerLen..end], d.key, 0)),
                end, CommitFragment(frag, d))
  }

  datatype Parsed = Parsed(frames: seq<Frame>, frag: Fragment, rest: seq<byte>)

  /** Every complete frame of a stream, the fragment state after them, and the unfinished tail. */
  function Parse(cfg: Config, frag: Fragment, bytes: seq<byte>): Parsed
    decreases |bytes|
  {
    match ParseOne(cfg, frag, bytes)
    case Done(frame, len, frag') =>
      var p := Parse(cfg, frag', bytes[len..]);
      p.(frames := [frame] + p.frames)
    case _ => Parsed([], frag, bytes)
  }

  /** A recognized header occupies exactly the announced bytes. */
  lemma HeaderGood(cfg: Config, frag: Fragment, bytes: seq<byte>)
    requires Header(cfg, frag, bytes).Good?
    ensures var d := Header(cfg, frag, bytes).decoded;
            && 2 <= d.headerLen <= |bytes|
            && d.headerLen == HeaderBytesNeeded(bytes[1]) <= MAX_FRAME_HEADER_LEN
            && DecodeHeader(bytes[..d.headerLen]) == Ok(d)
            && d.payloadLen <= cfg.maxFrameLen
            && d.header.mask == d.key.Some? == (cfg.role == Server)
  {
    DecodeEncode(bytes[..HeaderBytesNeeded(bytes[1])]);
  }

  /** Later bytes never change a verdict about a complete header. */
  lemma HeaderStable(cfg: Config, frag: Fragment, bytes: seq<byte>, more: seq<byte>)
    requires !Header(cfg, frag, bytes).NeedMore?
    ensures Header(cfg, frag, bytes + more) == Header(cfg, frag, bytes)
  {
    var n := HeaderBytesNeeded(bytes[1]);
    assert (bytes + more)[..n] == bytes[..n];
  }

  lemma ParseOneStable(cfg: Config, frag: Fragment, bytes: seq<byte>, more: seq<byte>)
    requires !ParseOne(cfg, frag, bytes).Partial?
    ensures ParseOne(cfg, frag, bytes + more) == ParseOne(cfg, frag, bytes)
  {
    HeaderStable(cfg, frag, bytes, more);
    hide Header;
    var s := ParseOne(cfg, frag, bytes);
    if s.Done? {
      var d := Header(cfg, frag, bytes).decoded;
      assert (bytes + more)[d.headerLen..s.len] == bytes[d.headerLen..s.len];
    }
  }

  /** Split independence: a stream may be cut anywhere; parsing the first part and then its
      unfinished tail followed by the second part is parsing the whole. */
  lemma {:induction false} ParseSplit(cfg: Config, frag: Fragment, a: seq<byte>, b: seq<byte>)
    ensures var p := Parse(cfg, frag, a);
            var q := Parse(cfg, p.frag, p.rest + b);
            Parse(cfg, frag, a + b) == q.(frames := p.frames + q.frames)
    decreases |a|
  {
    hide ParseOne;
    var s := ParseOne(cfg, frag, a);
    if s.Done? {
      ParseOneStable(cfg, frag, a, b);
      assert (a + b)[s.len..] == a[s.len..] + b;
      ParseSplit(cfg, s.frag, a[s.len..], b);
      var p := Parse(cfg, s.frag, a[s.len..]);
      var q := Parse(cfg, p.frag, p.rest + b);
      assert [s.frame] + (p.frames + q.frames) == ([s.frame] + p.frames) + q.frames;
    } else {
      assert Parse(cfg, frag, a) == Parsed([], frag, a);
      assert [] + Parse(cfg, frag, a + b).frames == Parse(cfg, frag, a + b).frames;
    }
  }

  /** The parser stops only where no further frame is complete, and drops no byte. */
  lemma {:induction false} ParseStops(cfg: Config, frag: Fragment, bytes: seq<byte>)
    ensures var p := Parse(cfg, frag, bytes);
            && !ParseOne(cfg, p.frag, p.rest).Done?
            && |p.rest| <= |bytes| && p.rest == bytes[|bytes| - |p.rest|..]
    decreases |bytes|
  {
    hide ParseOne;
    var s := ParseOne(cfg, frag, bytes);
    if s.Done? { ParseStops(cfg, s.frag, bytes[s.len..]); }
  }

  /** A rejected header is final: whatever follows, no further frame is ever delivered. */
  lemma RejectionIsFinal(cfg: Config, frag: Fragment, bytes: seq<byte>, more: seq<byte>)
    requires ParseOne(cfg, Parse(cfg, frag, bytes).frag, Parse(cfg, frag, bytes).rest).Reject?
    ensures var p := Parse(cfg, frag, bytes);
            && Parse(cfg, frag, bytes + more) == p.(rest := p.rest + more)
            && ParseOne(cfg, p.frag, p.rest + more) == ParseOne(cfg, p.frag, p.rest)
  {
    hide ParseOne;
    var p := Parse(cfg, frag, bytes);
    ParseSplit(cfg, frag, bytes, more);
    ParseOneStable(cfg, p.frag, p.rest, more);
  }

  lemma ParseNothing(cfg: Config, frag: Fragment)
    ensures Parse(cfg, frag, []) == Parsed([], frag, [])
  {
  }

  /** A complete frame at the very end of the stream is appended to what was parsed before it. */
  lemma ParseAppendFrame(cfg: Config, frag: Fragment, before: seq<byte>, current: seq<byte>)
    requires Parse(cfg, frag, before).rest == []
    requires ParseOne(cfg, Parse(cfg, frag, before).frag, current).Done?
    requires ParseOne(cfg, Parse(cfg, frag, before).frag, current).len == |current|
    ensures var p := Parse(cfg, frag, before);
            var s := ParseOne(cfg, p.frag, current);
            Parse(cfg, frag, before + current) == Parsed(p.frames + [s.frame], s.frag, [])
  {
    hide ParseOne;
    var p := Parse(cfg, frag, before);
    var s := ParseOne(cfg, p.frag, current);
    ParseSplit(cfg, frag, before, current);
    assert p.rest + current == current;
    assert current[s.len..] == [];
    ParseNothing(cfg, s.frag);
    assert Parse(cfg, p.frag, current) == Parsed([s.frame], s.frag, []);
  }

  /** An incomplete tail leaves the parsed frames alone. */
  lemma ParseAppendPartial(cfg: Config, frag: Fragment, before: seq<byte>, current: seq<byte>)
    requires Parse(cfg, frag, before).rest == []
    requires !ParseOne(cfg, Parse(cfg, frag, before).frag, current).Done?
    ensures var p := Parse(cfg, frag, before);
            Parse(cfg, frag, before + current) == Parsed(p.frames, p.frag, current)
  {
    hide ParseOne;
    var p := Parse(cfg, frag, before);
    ParseSplit(cfg, frag, before, current);
    assert p.rest + current == current;
    assert p.frames + [] == p.frames;
  }

  /** Every frame the parser completes obeys the message grammar and the limits, and the fragment
      state is exactly the open message: its opcode and its byte count so far. */
  lemma {:induction false} ParsedIsGrammatical(cfg: Config, frag: Fragment, prior: seq<Frame>, bytes: seq<byte>)
    requires Tracks(cfg, frag, prior)
    ensures var p := Parse(cfg, frag, bytes);
            Tracks(cfg, p.frag, prior + p.frames)
    decreases |bytes|
  {
    hide ParseOne, Tracks;
    var s := ParseOne(cfg, frag, bytes);
    if s.Done? {
      ParsedStepTracks(cfg, frag, prior, bytes);
      ParsedIsGrammatical(cfg, s.frag, prior + [s.frame], bytes[s.len..]);
      var p := Parse(cfg, s.frag, bytes[s.len..]);
      assert prior + [s.frame] + p.frames == prior + ([s.frame] + p.frames);
    } else {
      assert prior + [] == prior;
    }
  }

  lemma ParsedStepTracks(cfg: Config, frag: Fragment, prior: seq<Frame>, bytes: seq<byte>)
    requires Tracks(cfg, frag, prior) && ParseOne(cfg, frag, bytes).Done?
    ensures var s := ParseOne(cfg, frag, bytes); Tracks(cfg, s.frag, prior + [s.frame])
  {
    var s, d := ParseOne(cfg, frag, bytes), Header(cfg, frag, bytes).decoded;
    HeaderGood(cfg, frag, bytes);
    DecodedControl(bytes[..d.headerLen]);
    IncomingIsNextFragment(cfg, frag, d);
    TracksStep(cfg, frag, prior, s.frame);
  }

  lemma DecodedControl(buf: seq<byte>)
    requires DecodeHeader(buf).Ok?
    ensures var d := DecodeHeader(buf).value;
            IsKnown(d.header.opcode) && (IsControl(d.header.opcode) ==> d.header.fin && d.payloadLen <= 125)
  {
    DecodedFields(HeaderFromBytes(buf[0], buf[1]), buf);
  }
}
