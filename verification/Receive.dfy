/** One receive call as a function of what the transport will answer: the reference that the callback
    driver refines (src/c_api.zig:357-463). */
module Receive {
  import opened Types
  import opened Codec
  import opened Protocol
  import opened Stream
  import opened Delivery

  datatype ReturnCode =
    | RcOk
    | RcProgress
    | RcProtocolError
    | RcCallbackError
    | RcInvalidArgument
    | RcQueueFull
    | RcReentrant
    | RcInvalidUtf8

  datatype ReadResult = ReadFailed | Read(bytes: seq<byte>)

  /** What the k-th read returns when it is offered a number of bytes. */
  type Reader = (nat, nat) -> ReadResult

  /** How a transport call with `len` bytes on offer ended. */
  datatype Transfer = Moved | WouldBlock | Fault

  function Classify(n: int, len: nat): Transfer {
    if n == 0 then WouldBlock else if 0 < n <= len then Moved else Fault
  }

  function Outcome(r: ReadResult, len: nat): Transfer {
    if r.ReadFailed? then Fault else Classify(|r.bytes|, len)
  }

  function Min(a: nat, b: nat): nat {
    if a <= b then a else b
  }

  // ---------------------------------------------------------------- header phase

  /** The header bytes of the current frame, the bytes staged behind them, and the reads made. */
  datatype Intake = Intake(header: seq<byte>, stage: seq<byte>, calls: nat)

  datatype HeaderRead = HeaderRead(intake: Intake, outcome: Transfer)

  /** Moves staged bytes to the header until it has `needed`. */
  function Take(s: Intake, needed: nat): Intake
    requires |s.header| <= needed
  {
    var k := Min(needed - |s.header|, |s.stage|);
    Intake(s.header + s.stage[..k], s.stage[k..], s.calls)
  }

  /** Reads until the header is complete or the transport stops. */
  function ReadHeader(cfg: Config, frag: Fragment, read: Reader, s: Intake): (r: HeaderRead)
    ensures s.header <= r.intake.header && s.calls <= r.intake.calls
    decreases 14 - |s.header|, if s.stage == [] then 1 else 0
  {
    var status := Header(cfg, frag, s.header);
    if !status.NeedMore? then HeaderRead(s, Moved)
    else if s.stage != [] then ReadHeader(cfg, frag, read, Take(s, status.needed))
    else
      var answer := read(s.calls, 14);
      var outcome := Outcome(answer, 14);
      if outcome == Moved then ReadHeader(cfg, frag, read, Intake(s.header, answer.bytes, s.calls + 1))
      else HeaderRead(s.(calls := s.calls + 1), outcome)
  }

  /** One iteration of the header loop. */
  lemma ReadHeaderStep(cfg: Config, frag: Fragment, read: Reader, s: Intake)
    requires Header(cfg, frag, s.header).NeedMore?
    ensures var answer := read(s.calls, 14);
            var outcome := Outcome(answer, 14);
            ReadHeader(cfg, frag, read, s)
            == if s.stage != []
               then ReadHeader(cfg, frag, read, Take(s, Header(cfg, frag, s.header).needed))
               else if outcome == Moved
               then ReadHeader(cfg, frag, read, Intake(s.header, answer.bytes, s.calls + 1))
               else HeaderRead(s.(calls := s.calls + 1), outcome)
  {
  }

  lemma ReadHeaderDone(cfg: Config, frag: Fragment, read: Reader, s: Intake)
    requires !Header(cfg, frag, s.header).NeedMore?
    ensures ReadHeader(cfg, frag, read, s) == HeaderRead(s, Moved)
  {
  }

  /** The header phase ends with a complete header or an empty stage, and every read but the last is
      paid for with a header byte. */
  lemma {:induction false} HeaderReadBounds(cfg: Config, frag: Fragment, read: Reader, s: Intake)
    requires |s.header| <= 14 && |s.stage| <= 14
    ensures var r := ReadHeader(cfg, frag, read, s);
            var spare := if Header(cfg, frag, s.header).NeedMore? && s.stage != [] then 1 else 0;
            && |r.intake.header| <= 14 && |r.intake.stage| <= 14
            && (Header(cfg, frag, r.intake.header).NeedMore? <==> r.outcome != Moved)
            && (r.outcome != Moved ==> r.intake.stage == [])
            && r.intake.calls + spare
               <= s.calls + |r.intake.header| - |s.header| + if r.outcome == Moved then 0 else 1
    decreases 14 - |s.header|, if s.stage == [] then 1 else 0
  {
    var status := Header(cfg, frag, s.header);
    if status.NeedMore? {
      if s.stage != [] {
        HeaderReadBounds(cfg, frag, read, Take(s, status.needed));
      } else {
        var answer := read(s.calls, 14);
        if Outcome(answer, 14) == Moved {
          HeaderReadBounds(cfg, frag, read, Intake(s.header, answer.bytes, s.calls + 1));
        }
      }
    }
  }

  /** Staging is transparent: only header and stage together matter. If they hold a complete header, it
      is taken without a read; otherwise the stage is used up before the first read. */
  lemma {:induction false} HeaderInHand(cfg: Config, frag: Fragment, read: Reader, s: Intake)
    requires Header(cfg, frag, s.header).NeedMore?
    ensures var b := s.header + s.stage;
            if Header(cfg, frag, b).NeedMore?
            then ReadHeader(cfg, frag, read, s) == ReadHeader(cfg, frag, read, Intake(b, [], s.calls))
            else
              var n := HeaderBytesNeeded(b[1]);
              && n <= |b|
              && ReadHeader(cfg, frag, read, s) == HeaderRead(Intake(b[..n], b[n..], s.calls), Moved)
    decreases 14 - |s.header|
  {
    var b := s.header + s.stage;
    if s.stage == [] {
      assert b == s.header;
    } else {
      var t := Take(s, Header(cfg, frag, s.header).needed);
      assert t.header + t.stage == b;
      if Header(cfg, frag, t.header).NeedMore? {
        HeaderInHand(cfg, frag, read, t);
      } else {
        HeaderStable(cfg, frag, t.header, t.stage);
        assert b[..|t.header|] == t.header && b[|t.header|..] == t.stage;
      }
    }
  }

  // ---------------------------------------------------------------- payload phase

  datatype PayloadRead =
    PayloadRead(raw: seq<byte>, dropped: seq<byte>, stage: seq<byte>, calls: nat, outcome: Transfer)

  /** Takes up to `size` payload bytes, staged ones first, with at most one read. A read that faults
      takes the staged bytes with it. */
  function TakePayload(read: Reader, stage: seq<byte>, calls: nat, size: nat): PayloadRead {
    if |stage| >= size then PayloadRead(stage[..size], [], stage[size..], calls, Moved)
    else
      var answer := read(calls, size - |stage|);
      match Outcome(answer, size - |stage|)
      case Fault => PayloadRead([], stage, [], calls + 1, Fault)
      case WouldBlock => PayloadRead(stage, [], [], calls + 1, if stage == [] then WouldBlock else Moved)
      case Moved => PayloadRead(stage + answer.bytes, [], [], calls + 1, Moved)
  }

  /** How many payload bytes a call asks for. */
  function ChunkSize(d: DecodedHeader, processed: nat): nat {
    if d.payloadLen <= processed then 0 else Min(4096, d.payloadLen - processed)
  }

  /** Bytes stay staged only when the chunk ends the frame; a stop delivers nothing. */
  lemma TakePayloadFacts(read: Reader, stage: seq<byte>, calls: nat, d: DecodedHeader, processed: nat)
    requires |stage| <= 14 && processed < d.payloadLen
    ensures var t := TakePayload(read, stage, calls, ChunkSize(d, processed));
            && |t.raw| <= ChunkSize(d, processed)
            && (t.stage != [] ==> |t.raw| == d.payloadLen - processed)
            && (if t.outcome == Moved then t.raw != [] && t.dropped == []
                else t.raw == [] && t.stage == [] && t.calls > calls)
  {
  }

  // ---------------------------------------------------------------- the whole call

  /** Return code, bytes consumed, chunks delivered, staged bytes dropped, new stage and read count. */
  datatype Plan = Plan(rc: ReturnCode, consumed: seq<byte>, chunks: seq<Chunk>, dropped: seq<byte>,
                       stage: seq<byte>, calls: nat)

  /** The code of a call whose last transport read ended this way. */
  function StopCode(outcome: Transfer, progressed: bool): ReturnCode {
    match outcome
    case Fault => RcCallbackError
    case WouldBlock => if progressed then RcProgress else RcOk
    case Moved => RcProgress
  }

  /** The header phase by itself. */
  function PlanHeader(s: Intake, h: HeaderRead): Plan
    requires |s.header| <= |h.intake.header|
  {
    var taken := h.intake.header[|s.header|..];
    Plan(StopCode(h.outcome, taken != []), taken, [], [], h.intake.stage, h.intake.calls)
  }

  /** The payload phase by itself; an empty frame asks for no bytes and is delivered at once. */
  function PlanPayload(cfg: Config, frag: Fragment, read: Reader, s: Intake, processed: nat, progressed: bool): Plan {
    var status := Header(cfg, frag, s.header);
    if !status.Good? then Plan(RcProtocolError, [], [], [], s.stage, s.calls)
    else
      var d := status.decoded;
      var p := TakePayload(read, s.stage, s.calls, ChunkSize(d, processed));
      Plan(StopCode(p.outcome, progressed), p.raw,
           if p.outcome == Moved then [ChunkFor(d, processed, p.raw)] else [], p.dropped, p.stage, p.calls)
  }

  /** A payload step either delivers a chunk and drops nothing, or consumes nothing. */
  lemma PlanOfPayload(cfg: Config, frag: Fragment, read: Reader, s: Intake, processed: nat, progressed: bool)
    requires Header(cfg, frag, s.header).Good?
    ensures var d := Header(cfg, frag, s.header).decoded;
            var t := TakePayload(read, s.stage, s.calls, ChunkSize(d, processed));
            PlanPayload(cfg, frag, read, s, processed, progressed)
            == if t.outcome == Moved
               then Plan(RcProgress, t.raw, [ChunkFor(d, processed, t.raw)], [], t.stage, t.calls)
               else Plan(StopCode(t.outcome, progressed), [], [], t.dropped, t.stage, t.calls)
  {
    hide Header, ChunkFor;
  }

  function Then(first: Plan, second: Plan): Plan {
    second.(consumed := first.consumed + second.consumed)
  }

  function PlanRecv(cfg: Config, frag: Fragment, read: Reader, s: Intake, processed: nat): Plan {
    var h := ReadHeader(cfg, frag, read, s);
    var first := PlanHeader(s, h);
    if h.outcome != Moved then first
    else Then(first, PlanPayload(cfg, frag, read, h.intake, processed, first.consumed != []))
  }

  /** What a call leaves behind: bytes of all frames so far, bytes that left the stage, bytes dropped,
      chunks delivered, the stage and the reads made. */
  datatype Trace = Trace(consumed: seq<byte>, taken: seq<byte>, lost: seq<byte>, chunks: seq<Chunk>,
                         stage: seq<byte>, calls: nat)

  function After(t: Trace, p: Plan): Trace {
    Trace(t.consumed + p.consumed, t.taken + p.consumed + p.dropped, t.lost + p.dropped, t.chunks + p.chunks,
          p.stage, p.calls)
  }

  lemma AfterThen(t: Trace, p: Plan, q: Plan)
    requires p.dropped == [] && p.chunks == []
    ensures After(After(t, p), q) == After(t, Then(p, q))
  {
    assert t.consumed + (p.consumed + q.consumed) == t.consumed + p.consumed + q.consumed;
    assert t.taken + (p.consumed + q.consumed) == t.taken + p.consumed + [] + q.consumed;
    assert t.lost + [] == t.lost && t.chunks + [] == t.chunks;
  }

  /** The two phases of a call, seen from the trace `t` it starts with. */
  lemma PlanSplit(cfg: Config, frag: Fragment, read: Reader, s: Intake, processed: nat, t: Trace)
    requires t.stage == s.stage && t.calls == s.calls
    ensures var h := ReadHeader(cfg, frag, read, s);
            var p, first := PlanRecv(cfg, frag, read, s, processed), PlanHeader(s, h);
            var second := PlanPayload(cfg, frag, read, h.intake, processed, first.consumed != []);
            && (h.outcome != Moved ==> p == first && p.rc == StopCode(h.outcome, first.consumed != []))
            && (h.outcome == Moved ==> p.rc == second.rc && After(t, p) == After(After(t, first), second))
            && (!Header(cfg, frag, h.intake.header).Good? ==>
                  second.rc == RcProtocolError && After(After(t, first), second) == After(t, first))
            && (!Header(cfg, frag, s.header).NeedMore? ==>
                  h == HeaderRead(s, Moved) && After(t, first) == t && first.consumed == [])
  {
    hide Header;
    var h := ReadHeader(cfg, frag, read, s);
    var first := PlanHeader(s, h);
    AfterThen(t, first, PlanPayload(cfg, frag, read, h.intake, processed, first.consumed != []));
    hide ReadHeader;
    AfterDrop(t);
    AfterDrop(After(t, first));
  }

  lemma AfterDrop(t: Trace)
    ensures forall rc, dropped, stage, calls ::
              After(t, Plan(rc, [], [], dropped, stage, calls))
              == Trace(t.consumed, t.taken + dropped, t.lost + dropped, t.chunks, stage, calls)
  {
    assert t.taken + [] == t.taken;
  }

  lemma AfterDelivery(t: Trace, raw: seq<byte>, chunk: Chunk, stage: seq<byte>, calls: nat)
    ensures After(t, Plan(RcProgress, raw, [chunk], [], stage, calls))
         == Trace(t.consumed + raw, t.taken + raw, t.lost, t.chunks + [chunk], stage, calls)
  {
    assert t.taken + raw + [] == t.taken + raw;
  }

  /** The bounds of one call: 15 reads, one chunk, and a single read once the header is complete. */
  lemma PlanBounds(cfg: Config, frag: Fragment, read: Reader, s: Intake, processed: nat)
    requires |s.header| <= 14 && |s.stage| <= 14
    ensures var p := PlanRecv(cfg, frag, read, s, processed);
            && s.calls <= p.calls <= s.calls + 15 - |s.header|
            && (!Header(cfg, frag, s.header).NeedMore? ==> p.calls <= s.calls + 1)
            && |p.chunks| <= 1 && |p.stage| <= 14
            && (p.rc == RcOk ==> p.stage == p.consumed == p.dropped == [] && p.chunks == [])
            && (p.dropped != [] ==> p.rc == RcCallbackError && p.stage == [])
  {
    hide Header;
    HeaderReadBounds(cfg, frag, read, s);
  }

  /** Progress consumes bytes, unless an empty frame was left complete and undelivered. */
  lemma PlanProgress(cfg: Config, frag: Fragment, read: Reader, s: Intake, processed: nat)
    requires |s.header| <= 14 && |s.stage| <= 14
    requires var status := Header(cfg, frag, s.header); status.Good? ==> processed < status.decoded.payloadLen
    ensures var p := PlanRecv(cfg, frag, read, s, processed); p.rc == RcProgress ==> p.consumed != []
  {
    hide Header;
    HeaderReadBounds(cfg, frag, read, s);
  }

  /** The call drops staged bytes: the header completes in this call with some, but too few, payload
      bytes staged behind it, and the read for the rest faults. */
  predicate DropsStage(cfg: Config, frag: Fragment, read: Reader, s: Intake) {
    var h := ReadHeader(cfg, frag, read, s);
    var status := Header(cfg, frag, h.intake.header);
    && h.outcome == Moved && status.Good?
    && var size := Min(4096, status.decoded.payloadLen);
       && 0 < |h.intake.stage| < size
       && Outcome(read(h.intake.calls, size - |h.intake.stage|), size - |h.intake.stage|) == Fault
  }

  /** Bytes are dropped exactly then, and they are all the bytes staged behind the header. A stage
      beside a complete header arises only within a call, before any payload is processed. */
  lemma DropsExactly(cfg: Config, frag: Fragment, read: Reader, s: Intake, processed: nat)
    requires processed != 0 ==> !Header(cfg, frag, s.header).NeedMore? && s.stage == []
    ensures PlanRecv(cfg, frag, read, s, processed).dropped
         == if DropsStage(cfg, frag, read, s) then ReadHeader(cfg, frag, read, s).intake.stage else []
  {
    hide Header;
  }

  /** Exactly when a call that needs header bytes keeps to one transport read: the bytes in hand complete
      the header, or the first read moves nothing, or it brings a rejected header, or it brings the rest
      of the header and as much payload as the call asks for. */
  lemma OneReadIff(cfg: Config, frag: Fragment, read: Reader, s: Intake)
    requires Header(cfg, frag, s.header).NeedMore?
    ensures var b := s.header + s.stage;
            var first := read(s.calls, 14);
            PlanRecv(cfg, frag, read, s, 0).calls <= s.calls + 1 <==>
              || !Header(cfg, frag, b).NeedMore?
              || Outcome(first, 14) != Moved
              || Suffices(cfg, frag, b + first.bytes)
  {
    hide Header, TakePayload, ChunkFor;
    var b := s.header + s.stage;
    HeaderInHand(cfg, frag, read, s);
    if Header(cfg, frag, b).NeedMore? {
      var first := read(s.calls, 14);
      if Outcome(first, 14) == Moved {
        var t := Intake(b, first.bytes, s.calls + 1);
        assert ReadHeader(cfg, frag, read, s) == ReadHeader(cfg, frag, read, t);
        NoRead(cfg, frag, read, t);
        SameCalls(cfg, frag, read, s, t);
      }
    } else {
      AtMostOneRead(cfg, frag, read, ReadHeader(cfg, frag, read, s).intake);
    }
  }

  /** These bytes are a rejected header, or a header with as much payload behind it as a call takes. */
  predicate Suffices(cfg: Config, frag: Fragment, b: seq<byte>) {
    match Header(cfg, frag, b)
    case NeedMore(_) => false
    case Bad(_) => true
    case Good(d) => d.headerLen + ChunkSize(d, 0) <= |b|
  }

  lemma SameCalls(cfg: Config, frag: Fragment, read: Reader, s: Intake, t: Intake)
    requires ReadHeader(cfg, frag, read, s) == ReadHeader(cfg, frag, read, t)
    ensures PlanRecv(cfg, frag, read, s, 0).calls == PlanRecv(cfg, frag, read, t, 0).calls
  {
    hide ReadHeader, Header;
  }

  lemma AtMostOneRead(cfg: Config, frag: Fragment, read: Reader, s: Intake)
    ensures forall progressed ::
              s.calls <= PlanPayload(cfg, frag, read, s, 0, progressed).calls <= s.calls + 1
  {
    hide Header, ChunkFor;
  }

  /** No read is made exactly when the bytes in hand suffice. */
  lemma NoRead(cfg: Config, frag: Fragment, read: Reader, s: Intake)
    requires Header(cfg, frag, s.header).NeedMore?
    ensures PlanRecv(cfg, frag, read, s, 0).calls <= s.calls <==> Suffices(cfg, frag, s.header + s.stage)
  {
    hide Header, ChunkFor;
    var b := s.header + s.stage;
    HeaderInHand(cfg, frag, read, s);
    if Header(cfg, frag, b).NeedMore? {
      MakesARead(cfg, frag, read, Intake(b, [], s.calls));
      SameCalls(cfg, frag, read, s, Intake(b, [], s.calls));
    } else {
      HeaderAlone(cfg, frag, b);
    }
  }

  lemma MakesARead(cfg: Config, frag: Fragment, read: Reader, s: Intake)
    requires Header(cfg, frag, s.header).NeedMore? && s.stage == []
    ensures PlanRecv(cfg, frag, read, s, 0).calls > s.calls
  {
    hide Header, ChunkFor;
    AtMostOneRead(cfg, frag, read, ReadHeader(cfg, frag, read, s).intake);
  }

  /** The verdict on a complete header depends on its own bytes only. */
  lemma HeaderAlone(cfg: Config, frag: Fragment, b: seq<byte>)
    requires !Header(cfg, frag, b).NeedMore?
    ensures var n := HeaderBytesNeeded(b[1]);
            && 2 <= n <= |b| && Header(cfg, frag, b[..n]) == Header(cfg, frag, b)
            && (Header(cfg, frag, b).Good? ==> Header(cfg, frag, b).decoded.headerLen == n)
  {
    var n := HeaderBytesNeeded(b[1]);
    assert b[..n][..n] == b[..n];
    if Header(cfg, frag, b).Good? { HeaderGood(cfg, frag, b); }
  }

  // ---------------------------------------------------------------- a slow transport

  /** One byte per read, then nothing. */
  function OneByOne(bytes: seq<byte>): Reader {
    (k: nat, len: nat) => if k < |bytes| then Read([bytes[k]]) else Read([])
  }

  lemma {:induction false} HeaderOneByOne(cfg: Config, frag: Fragment, bytes: seq<byte>, i: nat)
    requires Header(cfg, frag, bytes).Good? && i <= Header(cfg, frag, bytes).decoded.headerLen
    ensures var n := Header(cfg, frag, bytes).decoded.headerLen;
            && i <= n <= |bytes|
            && ReadHeader(cfg, frag, OneByOne(bytes), Intake(bytes[..i], [], i))
               == HeaderRead(Intake(bytes[..n], [], n), Moved)
    decreases |bytes| - i
  {
    HeaderGood(cfg, frag, bytes);
    var n := Header(cfg, frag, bytes).decoded.headerLen;
    var s := Intake(bytes[..i], [], i);
    if i < n {
      var t := Intake(bytes[..i], [bytes[i]], i + 1);
      assert Header(cfg, frag, s.header).NeedMore?;
      assert Take(t, Header(cfg, frag, s.header).needed) == Intake(bytes[..i + 1], [], i + 1);
      HeaderOneByOne(cfg, frag, bytes, i + 1);
    } else {
      assert bytes[..n] + bytes[n..] == bytes;
      assert bytes[..n][..n] == bytes[..n];
    }
  }

  /** A transport that returns one byte at a time makes one call read every header byte separately and
      then one byte of the payload. */
  lemma SlowestCall(cfg: Config, frag: Fragment, bytes: seq<byte>)
    requires Header(cfg, frag, bytes).Good?
    requires Header(cfg, frag, bytes).decoded.headerLen < |bytes| && Header(cfg, frag, bytes).decoded.payloadLen > 0
    ensures var d := Header(cfg, frag, bytes).decoded;
            var p := PlanRecv(cfg, frag, OneByOne(bytes), Intake([], [], 0), 0);
            p.calls == d.headerLen + 1 && p.consumed == bytes[..d.headerLen + 1] && p.rc == RcProgress
  {
    HeaderGood(cfg, frag, bytes);
    var n := Header(cfg, frag, bytes).decoded.headerLen;
    assert bytes[..0] == [];
    HeaderOneByOne(cfg, frag, bytes, 0);
    HeaderAlone(cfg, frag, bytes);
  }
}
