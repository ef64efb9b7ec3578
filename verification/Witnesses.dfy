/** Concrete runs that show where the code falls short of its documentation. */
module Witnesses {
  import opened Types
  import opened Codec
  import opened Mask
  import opened Protocol
  import opened Stream
  import opened Delivery
  import opened Receive
  import opened Endpoint
  import opened EndToEnd

  /** A receive call on an endpoint whose next call is known. */
  method RecvAs(e: Endpoint, ghost before: Trace, ghost h: HeaderRead, ghost plan: Plan)
    requires e.Inv() && !e.Busy() && e.RxTrace() == before && e.HeaderPhase() == h && e.Planned() == plan
    modifies e.Footprint(), e.thread
    ensures e.Inv() && !e.Busy() && e.RxTrace() == After(before, plan)
    ensures e.received == After(before, plan).taken + plan.stage
    ensures plan.chunks == [] ==>
              && e.InHand() == Intake(h.intake.header, plan.stage, plan.calls)
              && e.conn.payloadBytesProcessed == old(e.conn.payloadBytesProcessed)
              && e.conn.rxFragment == old(e.conn.rxFragment)
  {
    hide Endpoint.Inv, Endpoint.HeaderPhase, Endpoint.Planned, Endpoint.OnlyQueued, Endpoint.SameRx, Endpoint.Staged;
    var rc := e.Recv([]);
    TakenIsReceived(e);
  }

  lemma TakenIsReceived(e: Endpoint)
    requires e.Inv()
    ensures e.received == e.RxTrace().taken + e.RxTrace().stage
  {
    e.PlanFacts();
  }

  // ---------------------------------------------------------------- dropped bytes

  const SMALL := Config(Client, 125, 125)

  /** A frame header and the first of two payload bytes, a failure, then two more bytes. */
  function Leaky(): Reader {
    (k: nat, len: nat) =>
      if k == 0 then Read([130, 2, 136])
      else if k == 1 then ReadFailed
      else if k == 2 then Read([0, 130])
      else Read([])
  }

  /** A final binary frame of two bytes. */
  const TWO_BYTES := DecodedHeader(FrameHeader(BINARY, false, false, false, true, 2, false), 2, 2, None)

  lemma TwoByteHeader()
    ensures Header(SMALL, NO_FRAGMENT, [130, 2]) == Good(TWO_BYTES)
  {
    var s: seq<byte> := [130, 2];
    assert s[..2] == s;
  }

  lemma LeakyHeader()
    ensures ReadHeader(SMALL, NO_FRAGMENT, Leaky(), Intake([], [], 0))
         == HeaderRead(Intake([130, 2], [136], 1), Moved)
  {
    TwoByteHeader();
    assert Header(SMALL, NO_FRAGMENT, []) == NeedMore(2);
    hide Header, ReadHeader;
    ReadHeaderStep(SMALL, NO_FRAGMENT, Leaky(), Intake([], [], 0));
    ReadHeaderStep(SMALL, NO_FRAGMENT, Leaky(), Intake([], [130, 2, 136], 1));
    assert Take(Intake([], [130, 2, 136], 1), 2) == Intake([130, 2], [136], 1);
    ReadHeaderDone(SMALL, NO_FRAGMENT, Leaky(), Intake([130, 2], [136], 1));
  }

  lemma LeakyFirst()
    ensures PlanRecv(SMALL, NO_FRAGMENT, Leaky(), Intake([], [], 0), 0)
         == Plan(RcCallbackError, [130, 2], [], [136], [], 2)
  {
    LeakyHeader();
    TwoByteHeader();
    hide Header, ReadHeader;
  }

  lemma LeakySecond()
    ensures ReadHeader(SMALL, NO_FRAGMENT, Leaky(), Intake([130, 2], [], 2))
         == HeaderRead(Intake([130, 2], [], 2), Moved)
    ensures PlanRecv(SMALL, NO_FRAGMENT, Leaky(), Intake([130, 2], [], 2), 0)
         == Plan(RcProgress, [0, 130], [Chunk(BINARY, true, [0, 130], 0, 2, true)], [], [], 3)
  {
    TwoByteHeader();
    ReadHeaderDone(SMALL, NO_FRAGMENT, Leaky(), Intake([130, 2], [], 2));
    hide Header, ReadHeader;
    assert TakePayload(Leaky(), [], 2, 2) == PayloadRead([0, 130], [], [], 3, Moved);
    assert PlanHeader(Intake([130, 2], [], 2), HeaderRead(Intake([130, 2], [], 2), Moved)).consumed == [];
  }

  lemma WhatWasSent()
    ensures Parse(SMALL, NO_FRAGMENT, [130, 2, 136, 0, 130])
         == Parsed([Frame(BINARY, true, [136, 0])], NO_FRAGMENT, [130])
  {
    var s: seq<byte> := [130, 2, 136, 0, 130];
    var last: seq<byte> := [130];
    assert s[..2] == [130, 2] && s[2..4] == [136, 0] && s[4..] == last;
    TwoByteHeader();
    HeaderStable(SMALL, NO_FRAGMENT, [130, 2], [136, 0, 130]);
    assert [130, 2] + [136, 0, 130] == s;
    assert ParseOne(SMALL, NO_FRAGMENT, last).Partial?;
    hide Header;
    assert ParseOne(SMALL, NO_FRAGMENT, s) == Done(Frame(BINARY, true, [136, 0]), 4, NO_FRAGMENT);
    hide ParseOne;
    assert Parse(SMALL, NO_FRAGMENT, last) == Parsed([], NO_FRAGMENT, last);
  }

  lemma OneWholeChunk(c: Chunk)
    requires c.offset == 0 && |c.payload| == c.frameLen && c.endOfFrame
    ensures Assemble([c]) == Some(Assembly([Frame(c.opcode, c.fin, c.payload)], None))
  {
    var none: seq<Chunk>, empty: seq<byte>, frame := [], [], Frame(c.opcode, c.fin, c.payload);
    assert Assemble(none) == Some(Assembly([], None));
    AssemblePush(none, c);
    assert none + [c] == [c] && empty + c.payload == c.payload;
    assert [] + [frame] == [frame];
  }

  /** Why dropped bytes matter. The bytes received begin with a frame that carries 136 and 0; a read fails
      while 136 is staged, the receiver drops it and delivers 0 and 130, a frame nobody sent. */
  method DroppedBytesCorrupt(th: Thread, p: Platform, storage: array<FrameNode>) returns (e: Endpoint)
    requires th.callbackDepth == 0
    modifies th, storage
    ensures e.Inv() && e.conn.cfg == SMALL && e.received == [130, 2, 136, 0, 130] && e.lost == [136]
    ensures DeliveredFrames(e) == [Frame(BINARY, true, [0, 130])]
    ensures Parse(SMALL, NO_FRAGMENT, e.received).frames == [Frame(BINARY, true, [136, 0])]
  {
    hide Endpoint.Inv, Endpoint.TxState, Endpoint.Staged, Parse, Assemble, ReadHeader, PlanRecv;
    var t := new Transport(Leaky(), (k, len) => 0);
    var r := Init(SMALL, t, th, p, storage, true);
    e := r.value;
    LeakyHeader();
    LeakyFirst();
    var start := Trace([], [], [], [], [], 0);
    RecvAs(e, start, HeaderRead(Intake([130, 2], [136], 1), Moved), Plan(RcCallbackError, [130, 2], [], [136], [], 2));
    ghost var middle := Trace([130, 2], [130, 2, 136], [136], [], [], 2);
    assert e.RxTrace() == middle;
    LeakySecond();
    ghost var chunk := Chunk(BINARY, true, [0, 130], 0, 2, true);
    RecvAs(e, middle, HeaderRead(Intake([130, 2], [], 2), Moved), Plan(RcProgress, [0, 130], [chunk], [], [], 3));
    assert e.RxTrace() == Trace([130, 2, 0, 130], [130, 2, 136, 0, 130], [136], [chunk], [], 3);
    OneWholeChunk(chunk);
    WhatWasSent();
  }

  // ---------------------------------------------------------------- many reads

  /** The longest header, masked with a 64-bit length, and one payload byte. */
  function LongFrame(key: MaskingKey): seq<byte> {
    match EncodeHeader(FrameHeader(BINARY, false, false, false, true, 127, true), 65536, Some(key))
    case Ok(bytes) => bytes + [0]
    case Err(_) => []
  }

  const LARGE := Config(Server, MAX_PAYLOAD_LEN, MAX_PAYLOAD_LEN)

  lemma LongFrameHeader(key: MaskingKey)
    ensures var s := Header(LARGE, NO_FRAGMENT, LongFrame(key));
            |LongFrame(key)| == 15 && s.Good? && s.decoded.headerLen == 14 && s.decoded.payloadLen == 65536
  {
    var header := FrameHeader(BINARY, false, false, false, true, 127, true);
    EncodeDecode(header, 65536, Some(key), []);
    var bytes := EncodeHeader(header, 65536, Some(key)).value;
    assert bytes + [] == bytes && (bytes + [0])[..14] == bytes && (bytes + [0])[1] == 255;
  }

  /** A transport that returns single bytes makes one receive call read it fifteen times. */
  method FifteenReads(th: Thread, p: Platform, storage: array<FrameNode>, key: MaskingKey) returns (e: Endpoint)
    requires th.callbackDepth == 0
    modifies th, storage
    ensures e.Inv() && e.transport.recvCalls == 15 && e.done + e.current == LongFrame(key)
  {
    hide Endpoint.RxInv, Endpoint.TxInv, Header, LongFrame, OneByOne, PlanRecv, ReadHeader;
    var bytes := LongFrame(key);
    var t := new Transport(OneByOne(bytes), (k, len) => 0);
    var r := Init(LARGE, t, th, p, storage, true);
    e := r.value;
    LongFrameHeader(key);
    SlowestCall(LARGE, NO_FRAGMENT, bytes);
    assert bytes[..15] == bytes;
    RecvAs(e, e.RxTrace(), e.HeaderPhase(), e.Planned());
  }
}
