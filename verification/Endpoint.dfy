/** The callback-driven connection (src/c_api.zig). */
module Endpoint {
  import opened Types
  import opened Format
  import opened Bytes
  import opened Codec
  import opened Mask
  import opened Protocol
  import opened Stream
  import opened Wire
  import opened Ring
  import opened Connection
  import opened Delivery
  import opened Receive
  import opened Transmit
  import opened Guard

  const MAX_CHUNK_SIZE: nat := 4096
  const MAX_SEND_CALLBACKS: nat := 64
  const MAX_SEND_BYTES: nat := 262144
  const MAX_UNMASKED_CHUNK: nat := 65536

  /** The thread-local count of active callbacks. */
  class Thread {
    var callbackDepth: nat
  }

  /** An arbitrary transport: what the k-th call does may depend on k and on the size offered. A read
      longer than the size offered, or a write count beyond it, is an over-report. */
  class Transport {
    const onRecv: Reader
    const onSend: Writer
    var recvCalls: nat
    var sendCalls: nat
    ghost var lastRecv: Transfer
    ghost var lastSend: Transfer

    constructor (r: Reader, s: Writer)
      ensures onRecv == r && onSend == s && recvCalls == sendCalls == 0
    {
      onRecv, onSend := r, s;
      recvCalls, sendCalls := 0, 0;
    }

    /** Every write of at least one byte is accepted in part or in full. */
    ghost predicate NeverBlocks() {
      forall k: nat, len: nat :: len > 0 ==> 0 < onSend(k, len) <= len
    }

    method Recv(buf: array<byte>, off: nat, len: nat) returns (n: int)
      requires off + len <= buf.Length
      modifies `recvCalls, `lastRecv, buf
      ensures recvCalls == old(recvCalls) + 1
      ensures lastRecv == Classify(n, len) == Outcome(onRecv(old(recvCalls), len), len)
      ensures var r := onRecv(old(recvCalls), len);
              n == (if r.ReadFailed? then -1 else |r.bytes|) && (0 <= n <= len ==> buf[off..off + n] == r.bytes)
      ensures buf[..off] == old(buf[..off])
    {
      var r := onRecv(recvCalls, len);
      recvCalls := recvCalls + 1;
      lastRecv := Fault;
      if r.ReadFailed? { return -1; }
      lastRecv := Classify(|r.bytes|, len);
      CopyInto(buf, off, r.bytes[..if |r.bytes| <= len then |r.bytes| else len]);
      return |r.bytes|;
    }

    method Send(bytes: seq<byte>) returns (n: int)
      modifies `sendCalls, `lastSend
      ensures sendCalls == old(sendCalls) + 1 && n == onSend(old(sendCalls), |bytes|)
      ensures lastSend == Classify(n, |bytes|)
    {
      n := onSend(sendCalls, |bytes|);
      sendCalls := sendCalls + 1;
      lastSend := Classify(n, |bytes|);
    }
  }

  datatype TxStatus =
    TxStatus(queue: seq<FrameNode>, fragment: Fragment, queued: seq<FrameNode>, finished: seq<FrameNode>)

  /** Frames were added to the queue and nothing else happened; a started head is still the head. */
  ghost predicate OnlyAdds(a: TxStatus, b: TxStatus) {
    && a.finished == b.finished && a.queued <= b.queued
    && |b.queue| - |a.queue| == |b.queued| - |a.queued|
    && (a.queue != [] && a.queue[0] != Fresh(a.queue[0]) ==> b.queue != [] && b.queue[0] == a.queue[0])
    && (a.queued == b.queued ==> a == b)
  }

  function MapFrameError(e: Error): ReturnCode {
    match e
    case PayloadTooLarge | InvalidLength | InvalidOpcode | MaskingKeyRequired
       | PayloadMasked | PayloadNotMasked | BufferTooShort => RcInvalidArgument
    case InvalidUtf8 => RcInvalidUtf8
    case _ => RcProtocolError
  }

  datatype Reaction = Reaction(state: TxStatus, codes: seq<ReturnCode>)

  /** Queueing one frame on a ring with this much room in all. */
  function Enqueue(cfg: Config, room: nat, t: TxStatus, node: FrameNode): (TxStatus, ReturnCode) {
    match ValidateOutgoing(cfg, t.fragment, node)
    case Err(e) => (t, MapFrameError(e))
    case Ok(next) =>
      if |t.queue| < room then (TxStatus(Placed(t.queue, node), next, t.queued + [node], t.finished), RcOk)
      else (t, RcQueueFull)
  }

  /** Queueing frames one after the other. */
  function React(cfg: Config, room: nat, t: TxStatus, nodes: seq<FrameNode>): (r: Reaction)
    ensures |r.codes| == |nodes|
  {
    if nodes == [] then Reaction(t, [])
    else
      var r := React(cfg, room, t, nodes[..|nodes| - 1]);
      var (state, code) := Enqueue(cfg, room, r.state, nodes[|nodes| - 1]);
      Reaction(state, r.codes + [code])
  }

  /** Whatever the application queues, frames are only added and a started head stays the head; and what
      it queues is never refused for being queued from the callback. */
  lemma {:induction false} ReactOnlyAdds(cfg: Config, room: nat, t: TxStatus, nodes: seq<FrameNode>)
    ensures OnlyAdds(t, React(cfg, room, t, nodes).state)
    ensures RcReentrant !in React(cfg, room, t, nodes).codes
  {
    if nodes != [] {
      hide ValidateOutgoing, MayOvertake;
      ReactOnlyAdds(cfg, room, t, nodes[..|nodes| - 1]);
    }
  }

  /** The codes of queueing in numerals, on a connection whose open message is `frag`. */
  lemma QueueCodes(cfg: Config, room: nat, t: TxStatus, node: FrameNode)
    requires Consistent(t.fragment)
    ensures var code := Enqueue(cfg, room, t, node).1;
            var sized := 2 <= node.headerLen <= 14;
            var header := if sized then DecodeHeader(node.headerBuf[..node.headerLen]) else Err(InvalidLength);
            var fits := header.Ok? && HeaderFits(cfg, node, header.value);
            var admitted := && fits && node.headerSent == 0 && node.payloadSent == 0
                            && InOrder(t.fragment, header.value.header.opcode)
                            && WithinMessage(cfg, t.fragment, header.value.header.opcode, |node.payload|);
            var misplaced := sized && (|| node.headerSent != 0 || node.payloadSent != 0
                                       || header == Err(ProtocolError)
                                       || (fits && !InOrder(t.fragment, header.value.header.opcode)));
            code == if admitted then (if |t.queue| < room then RcOk else RcQueueFull)
                    else if misplaced then RcProtocolError
                    else RcInvalidArgument
  {
    AdmissionMeans(cfg, t.fragment, node);
    OutgoingErrors(cfg, t.fragment, node);
    hide ValidateOutgoing, DecodeHeader;
  }

  class Endpoint {
    const conn: Conn
    const transport: Transport
    const thread: Thread
    const platform: Platform
    const rxStage: array<byte>
    const txChunk: array<byte>

    var callbackState: CallbackState
    var rxStageLen: nat
    var rxStageOff: nat
    var txChunkLen: nat
    var txChunkStart: nat
    var txChunkSent: nat

    /** Since initialization or the last reset: bytes the transport returned, bytes that left the stage in
        the order they arrived, and of these the bytes of completed frames, the bytes of the frame in
        progress and the bytes dropped by a failed payload read; and the chunks delivered. */
    ghost var received: seq<byte>
    ghost var taken: seq<byte>
    ghost var done: seq<byte>
    ghost var current: seq<byte>
    ghost var lost: seq<byte>
    ghost var chunks: seq<Chunk>

    /** Since initialization or the last reset_tx: bytes the transport accepted. */
    ghost var wire: seq<byte>

    constructor (c: Conn, t: Transport, th: Thread, p: Platform)
      requires c.RxValid() && c.Settled() && c.AtFrameBoundary() && c.rxFragment == NO_FRAGMENT
      requires c.TxValid() && c.txDone == [] && c.Queue() == []
      ensures Inv() && conn == c && transport == t && thread == th && fresh(rxStage) && fresh(txChunk)
      ensures rxStageLen == rxStageOff == 0
      ensures received == taken == done == current == lost == wire == [] && chunks == []
      ensures callbackState == NoCallback
    {
      hide RxInv, TxInv, Conn.RxValid, Conn.TxValid, Conn.Settled, Ring.Valid, Ring.Contents, Ring.Slot;
      conn, transport, thread, platform := c, t, th, p;
      rxStage := new byte[MAX_FRAME_HEADER_LEN];
      txChunk := new byte[MAX_CHUNK_SIZE];
      callbackState := NoCallback;
      rxStageLen, rxStageOff := 0, 0;
      txChunkLen, txChunkStart, txChunkSent := 0, 0, 0;
      received, taken, done, current, lost, chunks, wire := [], [], [], [], [], [], [];
      new;
      RxInitially();
      TxInitially();
    }

    lemma RxInitially()
      requires Separate() && conn.RxValid() && conn.Settled() && conn.AtFrameBoundary()
      requires conn.rxFragment == NO_FRAGMENT && rxStageLen == rxStageOff == 0
      requires received == taken == done == current == lost == [] && chunks == []
      ensures RxInv()
    {
      hide Agrees, Header;
      AgreesInitially(conn.cfg);
    }

    lemma TxInitially()
      requires Separate() && conn.TxValid() && conn.txDone == [] && conn.Queue() == []
      requires txChunkLen == txChunkStart == txChunkSent == 0 && wire == []
      ensures TxInv() && Line() == []
    {
      hide LegalOrder, OnlyHeadStarted, Ring.Contents, Ring.Slot;
    }

    ghost predicate Separate() {
      conn.headerBuf != rxStage && conn.headerBuf != txChunk && rxStage != txChunk
      && rxStage.Length == MAX_FRAME_HEADER_LEN && txChunk.Length == MAX_CHUNK_SIZE
    }

    /** Everything this endpoint owns; the thread counter is shared. */
    ghost function Footprint(): set<object> {
      {this, conn, conn.headerBuf, conn.txQueue, conn.txQueue.buffer, transport, rxStage, txChunk}
    }

    ghost predicate Busy()
      reads thread, `callbackState
    {
      thread.callbackDepth != 0 || callbackState != NoCallback
    }

    // -------------------------------------------------------------- receive invariant

    /** The staged bytes that have not been taken. */
    ghost function Staged(): (s: seq<byte>)
      reads `rxStageLen, `rxStageOff, rxStage
      ensures rxStageOff <= rxStageLen <= rxStage.Length ==> |s| == rxStageLen - rxStageOff
    {
      if rxStageOff <= rxStageLen <= rxStage.Length then rxStage[rxStageOff..rxStageLen] else []
    }

    /** No byte is duplicated or reordered: what the transport returned is what left the stage, then the
        bytes in hand, then the stage. Bytes that left it went into completed frames and the current
        frame, except those in `lost`. */
    ghost predicate Conserved(held: seq<byte>)
      reads `received, `taken, `done, `current, `lost, `rxStageLen, `rxStageOff, rxStage
    {
      && rxStageOff <= rxStageLen <= rxStage.Length
      && received == taken + held + Staged()
      && |taken| == |done| + |current| + |lost|
      && (lost == [] ==> taken == done + current)
    }

    /** The receive machine and the delivered chunks agree with the reference parser. */
    ghost predicate RxCore()
      reads `done, `current, `chunks
      reads conn`payloadBytesProcessed, conn`headerBytesRead, conn`headerBytesNeeded, conn`decodedHeader
      reads conn`rxState, conn`rxFragment, conn.headerBuf
    {
      && conn.RxValid()
      && |current| == conn.headerBytesRead + conn.payloadBytesProcessed
      && current[..conn.headerBytesRead] == conn.HeaderSoFar()
      && Agrees(conn.cfg, conn.rxFragment, conn.headerBytesRead, done, current, chunks)
    }

    /** The state variables are settled and no completed frame awaits delivery. */
    ghost predicate RxReady()
      reads `received, `taken, `done, `current, `lost, `chunks, `rxStageLen, `rxStageOff, rxStage
      reads conn`payloadBytesProcessed, conn`headerBytesRead, conn`headerBytesNeeded, conn`decodedHeader
      reads conn`rxState, conn`rxFragment, conn.headerBuf
    {
      && Separate() && RxCore() && conn.RxValid() && conn.Settled() && Conserved([])
      && (conn.rxState == ReadPayload ==> conn.payloadBytesProcessed < conn.Status().decoded.payloadLen)
    }

    /** Between calls nothing is staged behind a complete header. */
    ghost predicate RxInv()
      reads `received, `taken, `done, `current, `lost, `chunks, `rxStageLen, `rxStageOff, rxStage
      reads conn`payloadBytesProcessed, conn`headerBytesRead, conn`headerBytesNeeded, conn`decodedHeader
      reads conn`rxState, conn`rxFragment, conn.headerBuf
    {
      RxReady() && (conn.rxState == ReadPayload ==> Staged() == [])
    }

    /** No receive variable has changed, nor any trace of what was consumed or delivered. */
    twostate predicate SameRx()
      reads `received, `done, `current, `chunks, conn
    {
      && received == old(received) && done == old(done) && current == old(current) && chunks == old(chunks)
      && conn.headerBytesRead == old(conn.headerBytesRead) && conn.rxState == old(conn.rxState)
      && conn.payloadBytesProcessed == old(conn.payloadBytesProcessed)
      && conn.rxFragment == old(conn.rxFragment) && conn.decodedHeader == old(conn.decodedHeader)
      && conn.headerBytesNeeded == old(conn.headerBytesNeeded)
    }

    /** What the receive machine starts from. */
    ghost function InHand(): Intake
      reads conn`headerBytesRead, conn.headerBuf, `rxStageLen, `rxStageOff, rxStage, transport`recvCalls
    {
      Intake(conn.HeaderSoFar(), Staged(), transport.recvCalls)
    }

    /** How far the header loop will get from here. */
    ghost function HeaderPhase(): HeaderRead
      reads conn`headerBytesRead, conn`rxFragment, conn.headerBuf, `rxStageLen, `rxStageOff, rxStage
      reads transport`recvCalls
    {
      ReadHeader(conn.cfg, conn.rxFragment, transport.onRecv, InHand())
    }

    /** What the payload step will do from here. */
    ghost function PayloadPhase(progressed: bool): Plan
      reads conn`payloadBytesProcessed, conn`headerBytesRead, conn`rxFragment, conn.headerBuf
      reads `rxStageLen, `rxStageOff, rxStage, transport`recvCalls
    {
      PlanPayload(conn.cfg, conn.rxFragment, transport.onRecv, InHand(), conn.payloadBytesProcessed, progressed)
    }

    /** What a receive call will do from here. */
    ghost function Planned(): Plan
      reads conn`payloadBytesProcessed, conn`headerBytesRead, conn`rxFragment, conn.headerBuf
      reads `rxStageLen, `rxStageOff, rxStage, transport`recvCalls
    {
      PlanRecv(conn.cfg, conn.rxFragment, transport.onRecv, InHand(), conn.payloadBytesProcessed)
    }

    /** A receive call from here will drop staged bytes. */
    ghost predicate WillDrop()
      reads conn`headerBytesRead, conn`rxFragment, conn.headerBuf, `rxStageLen, `rxStageOff, rxStage
      reads transport`recvCalls
    {
      DropsStage(conn.cfg, conn.rxFragment, transport.onRecv, InHand())
    }

    /** Everything a receive call moves. */
    ghost function RxTrace(): Trace
      reads `taken, `done, `current, `lost, `chunks, `rxStageLen, `rxStageOff, rxStage, transport`recvCalls
    {
      Trace(done + current, taken, lost, chunks, Staged(), transport.recvCalls)
    }

    /** The call did what the plan says: bytes consumed, dropped and staged, chunks and reads. */
    twostate predicate Follows(new rc: ReturnCode, plan: Plan)
      reads `taken, `done, `current, `lost, `chunks, `rxStageLen, `rxStageOff, rxStage, transport`recvCalls
    {
      rc == plan.rc && RxTrace() == After(old(RxTrace()), plan)
    }

    /** The queue, the open message and the histories of the transmit side. */
    ghost function TxState(): TxStatus
      reads conn`txFragment, conn`txDone, conn`queued, conn.txQueue, conn.txQueue.buffer
    {
      TxStatus(Queued(), conn.txFragment, conn.queued, conn.txDone)
    }

    /** The transmit side is as the application's reaction to the delivery leaves it; without a delivery
        nothing has changed. */
    twostate predicate OnlyQueued(reaction: seq<FrameNode>)
      reads `chunks, conn`txFragment, conn`txDone, conn`queued, conn.txQueue, conn.txQueue.buffer
    {
      TxState() == if chunks == old(chunks) then old(TxState())
                   else React(conn.cfg, conn.txQueue.buffer.Length, old(TxState()), reaction).state
    }

    // -------------------------------------------------------------- transmit invariant

    /** The queue, the accepted bytes and the chunk cache fit together. */
    ghost predicate TxLoop()
      reads `wire, `txChunkLen, `txChunkStart, `txChunkSent, txChunk
      reads conn`txFragment, conn`txDone, conn`queued, conn.txQueue, conn.txQueue.buffer
    {
      && Separate()
      && conn.TxValid()
      && OnWire(conn.txDone, conn.Queue(), wire)
      && txChunkLen <= txChunk.Length
      && CacheAgrees(conn.Queue(), txChunk[..txChunkLen], txChunkStart, txChunkSent)
    }

    /** Between calls every queued frame still has bytes to send. */
    ghost predicate TxInv()
      reads `wire, `txChunkLen, `txChunkStart, `txChunkSent, txChunk
      reads conn`txFragment, conn`txDone, conn`queued, conn.txQueue, conn.txQueue.buffer
    {
      TxLoop() && (conn.Queue() != [] ==> !Finished(conn.Queue()[0]))
    }

    ghost predicate Inv()
      reads this, conn, conn.headerBuf, rxStage, conn.txQueue, conn.txQueue.buffer, txChunk
    {
      RxInv() && TxInv()
    }

    // -------------------------------------------------------------- callbacks

    method CallRecv(buf: array<byte>, off: nat, len: nat) returns (n: int)
      requires off + len <= buf.Length
      modifies thread, `callbackState, `received, transport`recvCalls, transport`lastRecv, buf
      ensures thread.callbackDepth == old(thread.callbackDepth) && callbackState == NoCallback
      ensures transport.recvCalls == old(transport.recvCalls) + 1
      ensures transport.lastRecv == Classify(n, len) == Outcome(transport.onRecv(old(transport.recvCalls), len), len)
      ensures 0 < n <= len ==> buf[off..off + n] == transport.onRecv(old(transport.recvCalls), len).bytes
      ensures received == old(received) + (if 0 < n <= len then buf[off..off + n] else [])
      ensures buf[..off] == old(buf[..off])
    {
      thread.callbackDepth := thread.callbackDepth + 1;
      callbackState := InRecv;
      n := transport.Recv(buf, off, len);
      callbackState := NoCallback;
      thread.callbackDepth := thread.callbackDepth - 1;
      if 0 < n <= len { received := received + buf[off..off + n]; }
    }

    method CallSend(bytes: seq<byte>) returns (n: int)
      modifies thread, `callbackState, `wire, transport`sendCalls, transport`lastSend
      ensures thread.callbackDepth == old(thread.callbackDepth) && callbackState == NoCallback
      ensures transport.sendCalls == old(transport.sendCalls) + 1 && transport.lastSend == Classify(n, |bytes|)
      ensures n == transport.onSend(old(transport.sendCalls), |bytes|)
      ensures wire == if 0 < n <= |bytes| then old(wire) + bytes[..n] else old(wire)
      ensures transport.NeverBlocks() && |bytes| > 0 ==> 0 < n <= |bytes|
    {
      thread.callbackDepth := thread.callbackDepth + 1;
      callbackState := InSend;
      n := transport.Send(bytes);
      callbackState := NoCallback;
      thread.callbackDepth := thread.callbackDepth - 1;
      if 0 < n <= |bytes| { wire := wire + bytes[..n]; }
    }

    /** Delivers a chunk. The application may react by queueing frames and can change nothing else:
        receive state, staging and the progress of a started head are untouched. */
    method CallOnFrame(chunk: Chunk, reaction: seq<FrameNode>) returns (codes: seq<ReturnCode>)
      requires TxInv() && !Busy()
      modifies thread, `callbackState, `chunks
      modifies conn`txFragment, conn`queued, conn.txQueue, conn.txQueue.buffer
      ensures TxInv() && !Busy()
      ensures chunks == old(chunks) + [chunk]
      ensures Reaction(TxState(), codes)
           == React(conn.cfg, conn.txQueue.buffer.Length, old(TxState()), reaction)
      ensures RcReentrant !in codes
    {
      hide TxInv, Enqueue, TxState;
      codes := [];
      thread.callbackDepth := thread.callbackDepth + 1;
      callbackState := InOnFrame;
      chunks := chunks + [chunk];
      for i := 0 to |reaction|
        invariant TxInv() && callbackState == InOnFrame && thread.callbackDepth == 1
        invariant chunks == old(chunks) + [chunk]
        invariant Reaction(TxState(), codes)
               == React(conn.cfg, conn.txQueue.buffer.Length, old(TxState()), reaction[..i])
      {
        assert reaction[..i + 1][..i] == reaction[..i];
        var rc := QueueFrame(reaction[i]);
        codes := codes + [rc];
      }
      assert reaction[..|reaction|] == reaction;
      ReactOnlyAdds(conn.cfg, conn.txQueue.buffer.Length, old(TxState()), reaction);
      callbackState := NoCallback;
      thread.callbackDepth := thread.callbackDepth - 1;
    }

    // -------------------------------------------------------------- queueing

    /** Queues a prepared node, also from within on_frame (src/c_api.zig:652-680). */
    method QueueFrame(node: FrameNode) returns (rc: ReturnCode)
      requires TxInv()
      modifies conn`txFragment, conn`queued, conn.txQueue`head, conn.txQueue`tail, conn.txQueue`len, conn.txQueue.buffer
      ensures TxInv()
      ensures rc == RcReentrant <==> thread.callbackDepth != 0 && callbackState != InOnFrame
      ensures rc != RcReentrant ==>
                (TxState(), rc) == Enqueue(conn.cfg, conn.txQueue.buffer.Length, old(TxState()), node)
      ensures rc == RcOk ==>
                && ValidateOutgoing(conn.cfg, old(conn.txFragment), node) == Ok(conn.txFragment)
                && conn.queued == old(conn.queued) + [node] && WellFormed(node)
                && var op, q := FrameOf(node).opcode, old(Queued());
                   Queued() == if (op == 0x9 || op == 0xa)
                                  && (q == [] || (q[0].headerSent == 0 && q[0].payloadSent == 0))
                               then [node] + q else q + [node]
      ensures rc == RcProtocolError ==> ValidateOutgoing(conn.cfg, old(conn.txFragment), node) == Err(ProtocolError)
      ensures rc in {RcOk, RcQueueFull, RcReentrant, RcProtocolError, RcInvalidArgument}
      ensures rc != RcOk ==> TxState() == old(TxState())
    {
      hide ValidateOutgoing, LegalOrder, OnlyHeadStarted, OnWire, CacheAgrees, WellFormed, FrameOf;
      hide Ring.Contents, Ring.Slot;
      if !MayQueue(thread.callbackDepth, callbackState) { return RcReentrant; }
      ghost var q, frag := conn.Queue(), conn.txFragment;
      var r := conn.QueueFrame(node);
      OutgoingErrors(conn.cfg, frag, node);
      if r.Fail? {
        return if r.error == QueueFull then RcQueueFull else MapFrameError(r.error);
      }
      QueuedKeepsWire(conn.cfg, frag, conn.txDone, q, wire, node, txChunk[..txChunkLen], txChunkStart, txChunkSent);
      return RcOk;
    }

    static lemma QueuedKeepsWire(cfg: Config, frag: Fragment, done: seq<FrameNode>, q: seq<FrameNode>, wire: seq<byte>,
                                 node: FrameNode, chunk: seq<byte>, start: nat, sent: nat)
      requires OnWire(done, q, wire) && CacheAgrees(q, chunk, start, sent)
      requires q != [] ==> !Finished(q[0])
      requires ValidateOutgoing(cfg, frag, node).Ok?
      ensures OnWire(done, Placed(q, node), wire) && CacheAgrees(Placed(q, node), chunk, start, sent)
      ensures !Finished(Placed(q, node)[0])
      ensures q != [] && q[0] != Fresh(q[0]) ==> Placed(q, node)[0] == q[0]
    {
      AdmittedIsFresh(cfg, frag, node);
      hide ValidateOutgoing, MaskOpt, DecodeHeader, MayOvertake, Images, Image;
      OnWireQueue(done, q, wire, node);
      hide OnWire, WellFormed;
      CacheSurvives(q, node, chunk, start, sent);
    }

    static lemma CacheSurvives(q: seq<FrameNode>, node: FrameNode, chunk: seq<byte>, start: nat, sent: nat)
      requires CacheAgrees(q, chunk, start, sent) && node == Fresh(node)
      ensures CacheAgrees(Placed(q, node), chunk, start, sent)
    {
      hide NodeHeader, MaskOpt, MayOvertake, NodeKey;
      if Placed(q, node) == q + [node] { assert q != [] ==> Placed(q, node)[0] == q[0]; }
    }

    // -------------------------------------------------------------- receiving

    /** A stop code other than progress is the transport's doing. */
    ghost predicate Explained(rc: ReturnCode)
      reads transport`lastRecv
    {
      && (rc == RcOk ==> transport.lastRecv == WouldBlock)
      && (rc == RcCallbackError ==> transport.lastRecv == Fault)
    }

    /** One transport read into the empty stage; None means bytes are now staged. */
    method FillStage(progressed: bool) returns (stop: Option<ReturnCode>)
      requires Conserved([]) && rxStage.Length == MAX_FRAME_HEADER_LEN && !Busy() && rxStageOff == rxStageLen
      modifies thread, `callbackState, `received, `rxStageLen, `rxStageOff
      modifies transport`recvCalls, transport`lastRecv, rxStage
      ensures Conserved([]) && !Busy() && transport.recvCalls == old(transport.recvCalls) + 1
      ensures var answer := transport.onRecv(old(transport.recvCalls), MAX_FRAME_HEADER_LEN);
              && transport.lastRecv == Outcome(answer, MAX_FRAME_HEADER_LEN)
              && (stop.None? <==> transport.lastRecv == Moved)
              && (stop.None? ==> Staged() == answer.bytes)
      ensures stop.Some? ==>
                && received == old(received) && rxStageOff == old(rxStageOff) && rxStageLen == old(rxStageLen)
                && stop.value == StopCode(transport.lastRecv, progressed)
    {
      var read := CallRecv(rxStage, 0, rxStage.Length);
      if read < 0 { return Some(RcCallbackError); }
      if read == 0 { return Some(if progressed then RcProgress else RcOk); }
      if read > rxStage.Length { return Some(RcCallbackError); }
      rxStageLen := read;
      rxStageOff := 0;
      return None;
    }

    /** The header grew by bytes that are booked as taken and as part of the current frame. */
    twostate predicate HeaderGrew()
      reads `taken, `current, conn`headerBytesRead, conn.headerBuf
      reads `rxStageLen, `rxStageOff, rxStage, transport`recvCalls
    {
      && old(InHand().header) <= InHand().header
      && var more := InHand().header[|old(InHand().header)|..];
         current == old(current) + more && taken == old(taken) + more
    }

    static lemma Chain(a: seq<byte>, b: seq<byte>, c: seq<byte>, t: seq<byte>)
      requires a <= b <= c
      ensures t + b[|a|..] + c[|b|..] == t + c[|a|..]
    {
      assert b[|a|..] + c[|b|..] == c[|a|..];
    }

    /** Bytes in hand may be counted as taken. */
    static lemma BookTaken(t: seq<byte>, held: seq<byte>, rest: seq<byte>)
      ensures t + [] + (held + rest) == t + held + rest == t + held + [] + rest == t + (held + rest)
    {
    }

    lemma StageBounds()
      requires Conserved([])
      ensures rxStageOff <= rxStageLen <= rxStage.Length
    {
    }

    /** Takes the first bytes off the stage. */
    method Unstage(n: nat) returns (bytes: seq<byte>)
      requires Conserved([]) && n <= rxStageLen - rxStageOff
      modifies `rxStageOff
      ensures bytes == old(Staged())[..n] && Conserved(bytes) && Staged() == old(Staged())[n..]
    {
      ghost var staged := Staged();
      bytes := rxStage[rxStageOff..rxStageOff + n];
      rxStageOff := rxStageOff + n;
      assert staged == bytes + Staged();
      BookTaken(taken, bytes, Staged());
    }

    /** Counts bytes in hand as part of the current frame, which they may complete. */
    ghost method Book(raw: seq<byte>, complete: bool)
      requires Conserved(raw)
      modifies `taken, `done, `current
      ensures Conserved([]) && taken == old(taken) + raw && done + current == old(done + current) + raw
      ensures if complete then done == old(done) + (old(current) + raw) && current == []
              else done == old(done) && current == old(current) + raw
    {
      BookTaken(taken, raw, Staged());
      BookTaken(done, current, raw);
      taken, current := taken + raw, current + raw;
      if complete {
        done, current := done + current, [];
        assert done + current == done;
      }
    }

    /** Moves staged bytes into the header buffer, as many as the header still needs. */
    method TakeHeader() returns (r: Check)
      requires Separate() && RxCore() && Conserved([]) && conn.rxState != ReadPayload
      requires rxStageOff < rxStageLen <= rxStage.Length && conn.headerBytesRead < conn.headerBytesNeeded
      modifies `taken, `done, `current, `rxStageOff, conn.headerBuf, conn`headerBytesRead
      ensures r == Pass && RxCore() && Conserved([]) && conn.headerBytesRead > old(conn.headerBytesRead)
      ensures InHand() == Take(old(InHand()), conn.headerBytesNeeded)
      ensures done == old(done) && HeaderGrew()
    {
      hide Agrees, Header, Conserved, Staged;
      ghost var before, header := InHand(), conn.HeaderSoFar();
      assert current == current[..conn.headerBytesRead] == header;
      var bytes := Unstage(Min(conn.headerBytesNeeded - conn.headerBytesRead, rxStageLen - rxStageOff));
      assert Take(before, conn.headerBytesNeeded) == Intake(header + bytes, Staged(), before.calls);
      hide Take;
      AgreesHeader(conn.cfg, conn.rxFragment, done, header, chunks, bytes);
      r := conn.FeedHeader(bytes);
      Book(bytes, false);
    }

    /** AdvanceRx on a connection whose traces agree: only the cached state variables move. */
    method Settle() returns (r: Result<RxAction>)
      requires RxCore()
      modifies conn`headerBytesNeeded, conn`decodedHeader, conn`rxState
      ensures RxCore() && conn.RxValid() && conn.Settled()
      ensures if conn.Status().Bad? then r == Err(conn.Status().error) && conn.Rejected()
              else r.Ok? && Asks(r.value) && !conn.Rejected()
      ensures old(conn.Settled()) ==> SameRx()
      ensures old(RxInv()) ==> RxInv() && SameRx()
      ensures r == Ok(NeedHeader) <==> conn.Status().NeedMore?
      ensures old(RxInv()) ==> r != Ok(EmitFrame) && (conn.rxState == ReadPayload ==> r == Ok(NeedPayload))
    {
      hide Agrees, Header;
      r := conn.AdvanceRx();
    }

    /** What the settled machine asks for next. */
    ghost predicate Asks(action: RxAction)
      requires conn.RxValid()
      reads conn`payloadBytesProcessed, conn`headerBytesRead, conn`headerBytesNeeded, conn`decodedHeader
      reads conn`rxState, conn`rxFragment, conn.headerBuf
    {
      match conn.Status()
      case NeedMore(n) => action == NeedHeader && conn.headerBytesRead < conn.headerBytesNeeded == n
      case Bad(e) => false
      case Good(d) => conn.rxState == ReadPayload && conn.decodedHeader == Some(d)
                      && action == (if conn.payloadBytesProcessed == d.payloadLen then EmitFrame else NeedPayload)
    }

    /** Feeds staged bytes to the header and asks what comes next. */
    method AdvanceHeader() returns (stop: Option<ReturnCode>, action: RxAction)
      requires Separate() && RxCore() && conn.RxValid() && conn.Settled() && Conserved([]) && Asks(NeedHeader)
      requires rxStageOff < rxStageLen <= rxStage.Length
      modifies `taken, `done, `current, `rxStageOff, conn.headerBuf
      modifies conn`headerBytesRead, conn`headerBytesNeeded, conn`decodedHeader, conn`rxState
      ensures RxCore() && conn.RxValid() && conn.Settled() && Conserved([])
      ensures done == old(done) && HeaderGrew() && HeaderPhase() == old(HeaderPhase())
      ensures conn.headerBytesRead > old(conn.headerBytesRead) && |current| > |old(current)|
      ensures conn.payloadBytesProcessed == 0
      ensures stop == None || stop == Some(RcProtocolError)
      ensures if stop == None then Asks(action) else RxInv() && conn.Rejected()
    {
      hide Agrees, Header, ReadHeader;
      action := NeedHeader;
      ReadHeaderStep(conn.cfg, conn.rxFragment, transport.onRecv, InHand());
      var took := TakeHeader();
      if took.Fail? { return Some(RcProtocolError), action; }
      var settled := Settle();
      if settled.Err? { return Some(RcProtocolError), action; }
      return None, settled.value;
    }

    /** The need_header step (src/c_api.zig:367-389): at most one read, at least one header byte. */
    method RecvHeader(progressed: bool) returns (stop: Option<ReturnCode>, action: RxAction)
      requires Separate() && RxCore() && conn.RxValid() && conn.Settled() && Conserved([]) && !Busy()
      requires Asks(NeedHeader)
      modifies thread, `callbackState, `received, `taken, `done, `current, `rxStageLen, `rxStageOff
      modifies transport`recvCalls, transport`lastRecv, rxStage, conn.headerBuf
      modifies conn`headerBytesRead, conn`headerBytesNeeded, conn`decodedHeader, conn`rxState
      ensures RxCore() && conn.RxValid() && conn.Settled() && Conserved([]) && !Busy()
      ensures old(transport.recvCalls) <= transport.recvCalls <= old(transport.recvCalls) + 1
      ensures done == old(done) && HeaderGrew()
      ensures stop == None || stop == Some(RcProtocolError) ==>
                && conn.headerBytesRead > old(conn.headerBytesRead) && |current| > |old(current)|
                && conn.payloadBytesProcessed == 0 && HeaderPhase() == old(HeaderPhase())
                && (if stop == None then Asks(action) else RxInv() && conn.Rejected())
      ensures stop != None && stop != Some(RcProtocolError) ==>
                && stop.value == StopCode(transport.lastRecv, progressed) && transport.lastRecv != Moved
                && transport.recvCalls > old(transport.recvCalls)
                && old(HeaderPhase()) == HeaderRead(InHand(), transport.lastRecv)
                && SameRx() && Staged() == old(Staged()) == [] && RxInv() && !conn.Rejected()
    {
      hide RxCore, Header, ReadHeader, Conserved, Staged;
      StageBounds();
      action := NeedHeader;
      if conn.headerBytesNeeded - conn.headerBytesRead == 0 { return Some(RcProtocolError), action; }
      if rxStageOff == rxStageLen {
        ghost var before := InHand();
        ReadHeaderStep(conn.cfg, conn.rxFragment, transport.onRecv, before);
        stop := FillStage(progressed);
        assert InHand().header == before.header;
        if stop.Some? { return; }
        StageBounds();
      }
      stop, action := AdvanceHeader();
    }

    /** Copies staged bytes into the chunk buffer. */
    method TakeStaged(chunkBuf: array<byte>, chunkSize: nat) returns (chunkLen: nat)
      requires Conserved([]) && chunkSize <= chunkBuf.Length && chunkBuf != rxStage
      modifies `rxStageOff, chunkBuf
      ensures chunkLen == Min(chunkSize, |old(Staged())|)
      ensures Conserved(chunkBuf[..chunkLen]) && chunkBuf[..chunkLen] == old(Staged())[..chunkLen]
      ensures Staged() == old(Staged())[chunkLen..]
    {
      chunkLen := 0;
      if rxStageOff < rxStageLen {
        chunkLen := Min(chunkSize, rxStageLen - rxStageOff);
        var bytes := Unstage(chunkLen);
        CopyInto(chunkBuf, 0, bytes);
        assert chunkBuf[..chunkLen] == bytes;
      }
    }

    /** Reads payload behind the bytes already held in the buffer. A read that faults drops them. */
    method ReadChunk(chunkBuf: array<byte>, held: nat, chunkSize: nat, progressed: bool)
      returns (chunkLen: nat, stop: Option<ReturnCode>)
      requires held < chunkSize <= chunkBuf.Length && chunkBuf != rxStage && !Busy()
      requires Conserved(chunkBuf[..held]) && rxStageOff == rxStageLen
      modifies thread, `callbackState, `received, `taken, `lost, transport`recvCalls, transport`lastRecv, chunkBuf
      ensures !Busy() && transport.recvCalls == old(transport.recvCalls) + 1
      ensures Gathered(TakePayload(transport.onRecv, old(chunkBuf[..held]), old(transport.recvCalls), chunkSize),
                       chunkBuf, chunkSize, progressed, chunkLen, stop)
    {
      hide After;
      ghost var moved := chunkBuf[..held];
      AfterDrop(RxTrace());
      chunkLen := held;
      var read := CallRecv(chunkBuf, held, chunkSize - held);
      assert chunkBuf[..held] == moved;
      if read < 0 || read > chunkSize - held {
        BookTaken(taken, moved, []);
        lost := lost + moved;
        taken := taken + moved;
        return chunkLen, Some(RcCallbackError);
      }
      if read == 0 && held == 0 { return chunkLen, Some(if progressed then RcProgress else RcOk); }
      ghost var extra := chunkBuf[held..held + read];
      assert chunkBuf[..held + read] == moved + extra;
      BookTaken(taken, moved, extra);
      chunkLen := held + read;
      return chunkLen, None;
    }

    /** The chunk buffer, the stage and the traces after collecting payload as `t` says. */
    twostate predicate Gathered(t: PayloadRead, chunkBuf: array<byte>, chunkSize: nat, progressed: bool,
                                new chunkLen: nat, new stop: Option<ReturnCode>)
      requires chunkSize <= chunkBuf.Length
      reads `received, `taken, `done, `current, `lost, `chunks, `rxStageLen, `rxStageOff, rxStage, chunkBuf
      reads transport`recvCalls, transport`lastRecv
    {
      && Staged() == t.stage && transport.recvCalls == t.calls
      && (stop.None? <==> t.outcome == Moved)
      && if stop.None?
         then && 0 < chunkLen <= chunkSize && chunkBuf[..chunkLen] == t.raw && Conserved(t.raw)
              && RxTrace() == old(RxTrace()).(stage := t.stage, calls := t.calls)
         else && transport.lastRecv == t.outcome && stop.value == StopCode(transport.lastRecv, progressed)
              && Conserved([]) && received == old(received)
              && RxTrace() == After(old(RxTrace()), Plan(stop.value, [], [], t.dropped, t.stage, t.calls))
    }

    /** Collects payload bytes: staged bytes first, then at most one transport read. */
    method GatherChunk(chunkBuf: array<byte>, chunkSize: nat, progressed: bool)
      returns (chunkLen: nat, stop: Option<ReturnCode>)
      requires Conserved([]) && !Busy() && 0 < chunkSize <= chunkBuf.Length && chunkBuf != rxStage
      modifies thread, `callbackState, `received, `taken, `lost, `rxStageOff
      modifies transport`recvCalls, transport`lastRecv, chunkBuf
      ensures !Busy() && (stop.Some? ==> transport.recvCalls > old(transport.recvCalls))
      ensures Gathered(TakePayload(transport.onRecv, old(Staged()), old(transport.recvCalls), chunkSize),
                       chunkBuf, chunkSize, progressed, chunkLen, stop)
    {
      chunkLen := TakeStaged(chunkBuf, chunkSize);
      if chunkLen == chunkSize { return chunkLen, None; }
      assert chunkBuf[..chunkLen] == old(Staged()) && Staged() == [];
      chunkLen, stop := ReadChunk(chunkBuf, chunkLen, chunkSize, progressed);
    }

    /** Unmasks a received chunk in place; an unmasked frame is left alone. */
    method Unmask(buf: array<byte>, n: nat, decoded: DecodedHeader, offset: nat) returns (ok: bool)
      requires n <= buf.Length && decoded.header.mask == decoded.key.Some?
      modifies buf
      ensures ok && buf[..n] == MaskOpt(old(buf[..n]), decoded.key, offset)
    {
      if decoded.header.mask {
        if decoded.key == None { return false; }
        MaskInPlace(platform, buf, n, decoded.key.value, offset);
      }
      return true;
    }

    /** With `raw` booked, the chunks `all` are what the reference parser makes of the bytes consumed. */
    ghost predicate Continues(raw: seq<byte>, all: seq<Chunk>)
      reads `done, `current
      reads conn`payloadBytesProcessed, conn`headerBytesRead, conn`headerBytesNeeded, conn`decodedHeader
      reads conn`rxState, conn`rxFragment, conn.headerBuf
    {
      && conn.RxValid() && conn.rxState == ReadPayload
      && |current| == conn.headerBytesRead + conn.payloadBytesProcessed
      && current[..conn.headerBytesRead] == conn.HeaderSoFar()
      && var d := conn.Status().decoded;
         && |raw| <= d.payloadLen - conn.payloadBytesProcessed
         && (raw == [] ==> d.payloadLen == 0)
         && if |raw| == d.payloadLen - conn.payloadBytesProcessed
            then Agrees(conn.cfg, CommitFragment(conn.rxFragment, d), 0, done + (current + raw), [], all)
            else Agrees(conn.cfg, conn.rxFragment, conn.headerBytesRead, done, current + raw, all)
    }

    lemma ChunkContinues(chunk: Chunk, raw: seq<byte>)
      requires RxCore() && conn.RxValid() && conn.rxState == ReadPayload
      requires |raw| <= conn.Status().decoded.payloadLen - conn.payloadBytesProcessed
      requires raw == [] ==> conn.Status().decoded.payloadLen == 0
      requires chunk == ChunkFor(conn.Status().decoded, conn.payloadBytesProcessed, raw)
      ensures Continues(raw, chunks + [chunk]) && |chunk.payload| == |raw|
    {
      hide Agrees, Header, MaskOpt;
      HeaderGood(conn.cfg, conn.rxFragment, conn.HeaderSoFar());
      AgreesPayload(conn.cfg, conn.rxFragment, done, current, chunks, conn.Status().decoded, raw);
    }

    /** Books delivered payload bytes and completes the frame if they end it. */
    method Consume(n: nat, endOfFrame: bool, ghost raw: seq<byte>) returns (rc: ReturnCode)
      requires Separate() && conn.RxValid() && conn.Settled() && Conserved(raw) && |raw| == n
      requires Continues(raw, chunks)
      requires endOfFrame <==> n == conn.Status().decoded.payloadLen - conn.payloadBytesProcessed
      requires endOfFrame || Staged() == []
      modifies `taken, `done, `current
      modifies conn`payloadBytesProcessed, conn`headerBytesRead, conn`headerBytesNeeded, conn`decodedHeader
      modifies conn`rxState, conn`rxFragment
      ensures RxInv() && rc == RcProgress && !conn.Rejected()
      ensures done + current == old(done + current) + raw && taken == old(taken) + raw
    {
      hide Agrees, Header, Conserved, Staged;
      Book(raw, endOfFrame);
      if n > 0 {
        var advanced := conn.AdvancePayloadRead(n);
        if advanced.Fail? { return RcProtocolError; }
      }
      if endOfFrame {
        var completed := conn.CompleteFrame();
        if completed.Fail? { return RcProtocolError; }
      }
      return RcProgress;
    }

    /** Delivering a chunk moves nothing but the chunk's bytes. */
    ghost function Delivery(raw: seq<byte>, chunk: Chunk): Plan
      reads `rxStageLen, `rxStageOff, rxStage, transport`recvCalls
    {
      Plan(RcProgress, raw, [chunk], [], Staged(), transport.recvCalls)
    }

    /** Hands a chunk to the application and books its bytes. */
    method Announce(chunk: Chunk, ghost raw: seq<byte>, reaction: seq<FrameNode>) returns (rc: ReturnCode)
      requires Separate() && RxCore() && conn.RxValid() && conn.Settled() && TxInv() && !Busy() && Conserved(raw)
      requires conn.rxState == ReadPayload
      requires |raw| <= conn.Status().decoded.payloadLen - conn.payloadBytesProcessed
      requires raw == [] ==> conn.Status().decoded.payloadLen == 0
      requires |raw| == conn.Status().decoded.payloadLen - conn.payloadBytesProcessed || Staged() == []
      requires chunk == ChunkFor(conn.Status().decoded, conn.payloadBytesProcessed, raw)
      modifies thread, `callbackState, `taken, `done, `current, `chunks
      modifies conn`payloadBytesProcessed, conn`headerBytesRead, conn`headerBytesNeeded, conn`decodedHeader
      modifies conn`rxState, conn`rxFragment
      modifies conn`txFragment, conn`queued, conn.txQueue, conn.txQueue.buffer
      ensures RxInv() && TxInv() && !Busy() && rc == RcProgress && !conn.Rejected()
      ensures RxTrace() == After(old(RxTrace()), old(Delivery(raw, chunk))) && chunks != old(chunks)
      ensures OnlyQueued(reaction)
    {
      hide TxInv, RxCore, RxInv, Continues, Header, MaskOpt, Conserved, Staged, TxState, React, After;
      hide Ring.Contents, Ring.Slot;
      AfterDelivery(RxTrace(), raw, chunk, Staged(), transport.recvCalls);
      ChunkContinues(chunk, raw);
      var codes := CallOnFrame(chunk, reaction);
      rc := Consume(|chunk.payload|, chunk.endOfFrame, raw);
    }

    /** Unmasks a chunk and delivers it. */
    method Deliver(chunkBuf: array<byte>, chunkLen: nat, reaction: seq<FrameNode>) returns (rc: ReturnCode)
      requires Separate() && RxCore() && conn.RxValid() && conn.Settled() && TxInv() && !Busy()
      requires chunkBuf != conn.headerBuf && chunkBuf != rxStage && chunkBuf != txChunk
      requires chunkLen <= chunkBuf.Length && Conserved(chunkBuf[..chunkLen])
      requires conn.rxState == ReadPayload
      requires chunkLen <= conn.Status().decoded.payloadLen - conn.payloadBytesProcessed
      requires chunkLen == 0 ==> conn.Status().decoded.payloadLen == 0
      requires chunkLen == conn.Status().decoded.payloadLen - conn.payloadBytesProcessed || Staged() == []
      modifies chunkBuf, thread, `callbackState, `taken, `done, `current, `chunks
      modifies conn`payloadBytesProcessed, conn`headerBytesRead, conn`headerBytesNeeded, conn`decodedHeader
      modifies conn`rxState, conn`rxFragment
      modifies conn`txFragment, conn`queued, conn.txQueue, conn.txQueue.buffer
      ensures RxInv() && TxInv() && !Busy() && rc == RcProgress && !conn.Rejected()
      ensures var raw := old(chunkBuf[..chunkLen]);
              var chunk := ChunkFor(old(conn.Status().decoded), old(conn.payloadBytesProcessed), raw);
              RxTrace() == After(old(RxTrace()), old(Delivery(raw, chunk))) && chunks != old(chunks)
      ensures OnlyQueued(reaction)
    {
      hide TxInv, RxCore, RxInv, Header, MaskOpt, Conserved, Staged, TxState, React, RxTrace, After;
      hide Ring.Contents, Ring.Slot;
      var decoded, offset := conn.decodedHeader.value, conn.payloadBytesProcessed;
      var endOfFrame := chunkLen == decoded.payloadLen - offset;
      ghost var raw := chunkBuf[..chunkLen];
      HeaderGood(conn.cfg, conn.rxFragment, conn.HeaderSoFar());
      var ok := Unmask(chunkBuf, chunkLen, decoded, offset);
      if !ok { return RcProtocolError; }
      var chunk := Chunk(decoded.header.opcode, decoded.header.fin, chunkBuf[..chunkLen], offset,
                         decoded.payloadLen, endOfFrame);
      assert chunk == ChunkFor(decoded, offset, raw);
      rc := Announce(chunk, raw, reaction);
    }

    /** Announces a frame without payload and completes it (src/c_api.zig:444-459). */
    method EmitEmpty(reaction: seq<FrameNode>) returns (rc: ReturnCode)
      requires Separate() && RxCore() && conn.RxValid() && conn.Settled() && TxInv() && !Busy() && Conserved([])
      requires conn.rxState == ReadPayload && conn.Status().decoded.payloadLen == conn.payloadBytesProcessed == 0
      modifies thread, `callbackState, `taken, `done, `current, `chunks
      modifies conn`payloadBytesProcessed, conn`headerBytesRead, conn`headerBytesNeeded, conn`decodedHeader
      modifies conn`rxState, conn`rxFragment
      modifies conn`txFragment, conn`queued, conn.txQueue, conn.txQueue.buffer
      ensures RxInv() && TxInv() && !Busy() && rc == RcProgress && !conn.Rejected()
      ensures RxTrace() == After(old(RxTrace()), old(Delivery([], ChunkFor(conn.Status().decoded, 0, []))))
      ensures chunks != old(chunks) && OnlyQueued(reaction)
    {
      hide TxInv, RxCore, RxInv, Header, Conserved, Staged, TxState, React, RxTrace, After;
      hide Ring.Contents, Ring.Slot;
      var decoded := conn.decodedHeader.value;
      assert MaskOpt([], decoded.key, 0) == [];
      var chunk := Chunk(decoded.header.opcode, decoded.header.fin, [], 0, 0, true);
      assert chunk == ChunkFor(decoded, 0, []);
      rc := Announce(chunk, [], reaction);
    }

    lemma Opened()
      requires RxReady()
      ensures Separate() && RxCore() && conn.RxValid() && conn.Settled() && Conserved([])
      ensures conn.rxState == ReadPayload ==> conn.payloadBytesProcessed < conn.Status().decoded.payloadLen
    {
    }

    lemma StageFits()
      requires RxReady()
      ensures |Staged()| <= MAX_FRAME_HEADER_LEN
    {
      hide RxCore, Conn.RxValid, Conn.Settled;
    }

    /** Collects the next chunk of the frame whose header is complete. */
    method Collect(chunkBuf: array<byte>, progressed: bool) returns (chunkLen: nat, stop: Option<ReturnCode>)
      requires RxReady() && !Busy() && conn.rxState == ReadPayload
      requires chunkBuf.Length == MAX_CHUNK_SIZE && chunkBuf != rxStage && chunkBuf != conn.headerBuf
      modifies thread, `callbackState, `received, `taken, `lost, `rxStageOff
      modifies transport`recvCalls, transport`lastRecv, chunkBuf
      ensures !Busy() && conn.RxValid() && conn.Settled() && RxCore()
      ensures stop.Some? ==>
                && RxInv() && Follows(stop.value, old(PayloadPhase(progressed))) && received == old(received)
                && Explained(stop.value) && transport.recvCalls > old(transport.recvCalls)
      ensures stop.None? ==>
                && 0 < chunkLen <= chunkBuf.Length && Conserved(chunkBuf[..chunkLen])
                && var d, at, raw := conn.Status().decoded, conn.payloadBytesProcessed, chunkBuf[..chunkLen];
                   && chunkLen <= d.payloadLen - at
                   && (chunkLen == d.payloadLen - at || Staged() == [])
                   && old(PayloadPhase(progressed)) == Delivery(raw, ChunkFor(d, at, raw))
                   && RxTrace() == old(RxTrace()).(stage := Staged(), calls := transport.recvCalls)
    {
      hide RxCore, Header, Conserved, Staged, TakePayload, ChunkFor, PlanPayload, RxTrace, After;
      StageFits();
      var decoded := conn.decodedHeader.value;
      TakePayloadFacts(transport.onRecv, Staged(), transport.recvCalls, decoded, conn.payloadBytesProcessed);
      PlanOfPayload(conn.cfg, conn.rxFragment, transport.onRecv, InHand(), conn.payloadBytesProcessed, progressed);
      var remaining := decoded.payloadLen - conn.payloadBytesProcessed;
      var chunkSize := Min(chunkBuf.Length, remaining);
      chunkLen, stop := GatherChunk(chunkBuf, chunkSize, progressed);
    }

    /** The need_payload step (src/c_api.zig:390-443). */
    method RecvPayload(progressed: bool, reaction: seq<FrameNode>) returns (rc: ReturnCode)
      requires RxReady() && TxInv() && !Busy() && conn.rxState == ReadPayload
      modifies thread, `callbackState, `received, `taken, `done, `current, `lost, `chunks, `rxStageOff
      modifies transport`recvCalls, transport`lastRecv
      modifies conn`payloadBytesProcessed, conn`headerBytesRead, conn`headerBytesNeeded, conn`decodedHeader
      modifies conn`rxState, conn`rxFragment
      modifies conn`txFragment, conn`queued, conn.txQueue, conn.txQueue.buffer
      ensures RxInv() && TxInv() && !Busy() && !conn.Rejected() && OnlyQueued(reaction)
      ensures Follows(rc, old(PayloadPhase(progressed)))
      ensures chunks == old(chunks) ==>
                SameRx() && Explained(rc) && transport.recvCalls > old(transport.recvCalls)
    {
      hide TxInv, RxInv, RxReady, RxCore, Header, Conserved, Staged, TxState, React, ChunkFor;
      hide PayloadPhase, RxTrace, Ring.Contents, Ring.Slot;
      Opened();
      var chunkBuf := new byte[MAX_CHUNK_SIZE];
      var chunkLen, stop := Collect(chunkBuf, progressed);
      if stop.Some? { return stop.value; }
      rc := Deliver(chunkBuf, chunkLen, reaction);
    }

    lemma HeaderDone()
      requires !conn.Status().NeedMore?
      ensures HeaderPhase() == HeaderRead(InHand(), Moved)
    {
    }

    /** What the header loop leaves behind. */
    twostate lemma HeaderTrace(h: HeaderRead)
      requires HeaderGrew() && done == old(done) && lost == old(lost) && chunks == old(chunks) && h.intake == InHand()
      ensures |old(InHand().header)| <= |h.intake.header|
      ensures RxTrace() == After(old(RxTrace()), PlanHeader(old(InHand()), h))
      ensures PlanHeader(old(InHand()), h).consumed != [] <==> |current| > |old(current)|
    {
      var more := InHand().header[|old(InHand().header)|..];
      BookTaken(done, old(current), more);
      assert taken == old(taken) + more + [];
    }

    /** The receive loop up to a complete header: reads at most one chunk per missing header byte. */
    method RecvHeaders() returns (stop: Option<ReturnCode>, action: RxAction, progressed: bool)
      requires RxInv() && !Busy() && Asks(NeedHeader)
      modifies thread, `callbackState, `received, `taken, `done, `current, `rxStageLen, `rxStageOff
      modifies transport`recvCalls, transport`lastRecv, rxStage, conn.headerBuf
      modifies conn`headerBytesRead, conn`headerBytesNeeded, conn`decodedHeader, conn`rxState
      ensures !Busy() && old(transport.recvCalls) <= transport.recvCalls <= old(transport.recvCalls) + 14
      ensures !progressed ==> SameRx() && Staged() == old(Staged())
      ensures progressed <==> |current| > |old(current)|
      ensures RxTrace() == After(old(RxTrace()), PlanHeader(old(InHand()), old(HeaderPhase())))
      ensures old(HeaderPhase()).intake == InHand()
      ensures progressed == (PlanHeader(old(InHand()), old(HeaderPhase())).consumed != [])
      ensures stop.Some? ==>
                && RxInv() && (stop.value == RcProtocolError <==> conn.Rejected())
                && (stop.value == RcProtocolError <==> old(HeaderPhase()).outcome == Moved)
                && (stop.value != RcProtocolError ==>
                      && stop.value == StopCode(transport.lastRecv, progressed)
                      && old(HeaderPhase()).outcome == transport.lastRecv
                      && transport.recvCalls > old(transport.recvCalls))
      ensures stop.None? ==>
                && RxCore() && conn.RxValid() && conn.Settled() && Conserved([]) && Asks(action) && action != NeedHeader
                && old(HeaderPhase()).outcome == Moved
                && (action == NeedPayload ==> RxReady())
                && (action == EmitFrame ==> progressed && conn.payloadBytesProcessed == 0)
    {
      hide RxCore, Header, Conserved, Staged, RxTrace, After, PlanHeader, InHand, HeaderPhase;
      action, progressed := NeedHeader, false;
      while action == NeedHeader
        invariant RxCore() && conn.RxValid() && conn.Settled() && Conserved([]) && !Busy()
        invariant Asks(action)
        invariant progressed ==> conn.payloadBytesProcessed == 0 && |current| > |old(current)|
        invariant 0 <= transport.recvCalls - old(transport.recvCalls)
                    <= conn.headerBytesRead - old(conn.headerBytesRead)
        invariant done == old(done) && HeaderGrew()
        invariant HeaderPhase() == old(HeaderPhase())
        invariant !progressed ==> SameRx() && Staged() == old(Staged()) && action == NeedHeader
        decreases MAX_FRAME_HEADER_LEN - conn.headerBytesRead
      {
        ghost var h := InHand().header;
        stop, action := RecvHeader(progressed);
        Chain(old(InHand().header), h, InHand().header, old(current));
        Chain(old(InHand().header), h, InHand().header, old(taken));
        if stop == None || stop == Some(RcProtocolError) { progressed := true; }
        if stop.Some? {
          if stop.value == RcProtocolError { HeaderDone(); }
          HeaderTrace(old(HeaderPhase()));
          return;
        }
      }
      HeaderDone();
      HeaderTrace(old(HeaderPhase()));
      return None, action, progressed;
    }

    /** The need_payload and emit_frame steps, which end the call. */
    method Finish(action: RxAction, progressed: bool, reaction: seq<FrameNode>) returns (rc: ReturnCode)
      requires Separate() && RxCore() && conn.RxValid() && conn.Settled() && Conserved([]) && TxInv() && !Busy()
      requires Asks(action) && action != NeedHeader
      requires action == NeedPayload ==> RxReady()
      requires action == EmitFrame ==> progressed && conn.payloadBytesProcessed == 0
      modifies thread, `callbackState, `received, `taken, `done, `current, `lost, `chunks, `rxStageOff
      modifies transport`recvCalls, transport`lastRecv
      modifies conn`payloadBytesProcessed, conn`headerBytesRead, conn`headerBytesNeeded, conn`decodedHeader
      modifies conn`rxState, conn`rxFragment
      modifies conn`txFragment, conn`queued, conn.txQueue, conn.txQueue.buffer
      ensures RxInv() && TxInv() && !Busy() && !conn.Rejected() && OnlyQueued(reaction)
      ensures Follows(rc, old(PayloadPhase(progressed)))
      ensures rc in {RcCallbackError, RcProgress, RcOk}
      ensures rc == RcOk ==> !progressed
      ensures rc != RcProgress ==> conn.rxState == ReadPayload
      ensures chunks == old(chunks) ==> SameRx()
      ensures rc != RcProgress ==> SameRx() && Explained(rc) && transport.recvCalls > old(transport.recvCalls)
    {
      hide TxInv, RxCore, Header, Conserved, Staged, TxState, React, Ring.Contents, Ring.Slot;
      if action == NeedPayload {
        rc := RecvPayload(progressed, reaction);
      } else {
        rc := EmitEmpty(reaction);
      }
    }

    lemma TraceStarts()
      ensures RxTrace().stage == InHand().stage && RxTrace().calls == InHand().calls
    {
    }

    /** What the invariant says about the planned call. */
    lemma PlanFacts()
      requires RxInv()
      ensures var p := Planned();
              && p.calls <= transport.recvCalls + 15
              && (conn.rxState == ReadPayload ==> p.calls <= transport.recvCalls + 1)
              && |p.chunks| <= 1
              && (p.rc == RcOk ==> p.stage == p.consumed == p.dropped == [] && p.chunks == [])
              && (p.rc == RcProgress ==> p.consumed != [])
              && p.dropped == (if WillDrop() then HeaderPhase().intake.stage else [])
              && (WillDrop() ==> p.rc == RcCallbackError && p.dropped != [] && p.stage == [])
      ensures received == taken + Staged() && (lost == [] ==> taken == done + current)
    {
      hide Agrees, Header, PlanRecv, ReadHeader;
      StageFits();
      PlanBounds(conn.cfg, conn.rxFragment, transport.onRecv, InHand(), conn.payloadBytesProcessed);
      PlanProgress(conn.cfg, conn.rxFragment, transport.onRecv, InHand(), conn.payloadBytesProcessed);
      DropsExactly(conn.cfg, conn.rxFragment, transport.onRecv, InHand(), conn.payloadBytesProcessed);
    }

    /** Without a delivery the machine is where the header phase took it. */
    twostate predicate MidFrame()
      reads conn, transport`recvCalls, conn.headerBuf, `rxStageLen, `rxStageOff, rxStage
    {
      && conn.HeaderSoFar() == old(HeaderPhase()).intake.header
      && conn.payloadBytesProcessed == old(conn.payloadBytesProcessed) && conn.rxFragment == old(conn.rxFragment)
    }

    /** What the return code of a receive call says about the transport and the receive state. */
    twostate predicate Ended(new rc: ReturnCode)
      reads `received, `done, `current, `lost, `chunks, conn, transport`lastRecv, transport`recvCalls
      reads conn.headerBuf, `rxStageLen, `rxStageOff, rxStage
    {
      && (chunks == old(chunks) ==> MidFrame())
      && rc in {RcOk, RcProgress, RcProtocolError, RcCallbackError}
      && (rc == RcOk || rc == RcCallbackError ==> Explained(rc) && transport.recvCalls > old(transport.recvCalls))
      && (rc == RcOk ==> SameRx())
      && (rc == RcCallbackError && lost != old(lost) ==> conn.rxState == ReadPayload)
    }

    /** The header loop as the first part of the planned call: it ends the call, or leaves what the payload
        step has to do. */
    method HeaderPart() returns (stop: Option<ReturnCode>, action: RxAction, progressed: bool)
      requires RxInv() && !Busy() && Asks(NeedHeader)
      modifies thread, `callbackState, `received, `taken, `done, `current, `rxStageLen, `rxStageOff
      modifies transport`recvCalls, transport`lastRecv, rxStage, conn.headerBuf
      modifies conn`headerBytesRead, conn`headerBytesNeeded, conn`decodedHeader, conn`rxState
      ensures !Busy() && MidFrame() && old(transport.recvCalls) <= transport.recvCalls
      ensures !progressed ==> SameRx()
      ensures stop.Some? ==>
                && RxInv() && (stop.value == RcProtocolError <==> conn.Rejected())
                && Follows(stop.value, old(Planned())) && Ended(stop.value)
      ensures stop.None? ==>
                && RxCore() && conn.RxValid() && conn.Settled() && Conserved([]) && Asks(action) && action != NeedHeader
                && (action == NeedPayload ==> RxReady())
                && (action == EmitFrame ==> progressed && conn.payloadBytesProcessed == 0)
                && old(Planned()).rc == PayloadPhase(progressed).rc
                && After(old(RxTrace()), old(Planned())) == After(RxTrace(), PayloadPhase(progressed))
    {
      hide RxReady, RxCore, Conserved, Staged, Header, Conn.RxValid, Conn.Settled;
      hide ReadHeader, PlanRecv, PlanHeader, PlanPayload, RxTrace, After, Asks, Conn.HeaderSoFar;
      Opened();
      TraceStarts();
      PlanSplit(conn.cfg, conn.rxFragment, transport.onRecv, InHand(), conn.payloadBytesProcessed, RxTrace());
      stop, action, progressed := RecvHeaders();
    }

    /** A call that starts inside a header. */
    method RecvFromHeader(reaction: seq<FrameNode>) returns (rc: ReturnCode)
      requires RxInv() && TxInv() && !Busy() && Asks(NeedHeader)
      modifies thread, `callbackState, `received, `taken, `done, `current, `lost, `chunks, `rxStageLen, `rxStageOff
      modifies transport`recvCalls, transport`lastRecv, rxStage, conn.headerBuf
      modifies conn`payloadBytesProcessed, conn`headerBytesRead, conn`headerBytesNeeded, conn`decodedHeader
      modifies conn`rxState, conn`rxFragment
      modifies conn`txFragment, conn`queued, conn.txQueue, conn.txQueue.buffer
      ensures RxInv() && TxInv() && !Busy() && OnlyQueued(reaction)
      ensures Follows(rc, old(Planned())) && Ended(rc)
      ensures rc == RcProtocolError <==> conn.Rejected()
    {
      hide TxInv, RxReady, RxCore, Conserved, Staged, Header, TxState, React, Conn.RxValid, Conn.Settled;
      hide Planned, PayloadPhase, HeaderPhase, RxTrace, After, Asks, Conn.HeaderSoFar, Ring.Contents, Ring.Slot;
      Opened();
      var stop, action, progressed := HeaderPart();
      if stop.Some? { return stop.value; }
      rc := Finish(action, progressed, reaction);
    }

    /** The body of zslay_conn_recv behind its guard. */
    method RecvUnguarded(reaction: seq<FrameNode>) returns (rc: ReturnCode)
      requires RxInv() && TxInv() && !Busy()
      modifies thread, `callbackState, `received, `taken, `done, `current, `lost, `chunks, `rxStageLen, `rxStageOff
      modifies transport`recvCalls, transport`lastRecv, rxStage, conn.headerBuf
      modifies conn`payloadBytesProcessed, conn`headerBytesRead, conn`headerBytesNeeded, conn`decodedHeader
      modifies conn`rxState, conn`rxFragment
      modifies conn`txFragment, conn`queued, conn.txQueue, conn.txQueue.buffer
      ensures RxInv() && TxInv() && !Busy() && OnlyQueued(reaction)
      ensures Follows(rc, old(Planned())) && Ended(rc)
      ensures rc == RcProtocolError <==> conn.Rejected()
      ensures old(conn.Rejected()) ==> SameRx() && transport.recvCalls == old(transport.recvCalls)
    {
      hide TxInv, RxReady, RxCore, Conserved, Staged, Header, TxState, React, Conn.RxValid, Conn.Settled;
      hide ReadHeader, PlanRecv, PlanHeader, PlanPayload, RxTrace, After, Ring.Contents, Ring.Slot;
      TraceStarts();
      PlanSplit(conn.cfg, conn.rxFragment, transport.onRecv, InHand(), conn.payloadBytesProcessed, RxTrace());
      Opened();
      var settled := Settle();
      if settled.Err? { return RcProtocolError; }
      Opened();
      if settled.value == NeedHeader {
        rc := RecvFromHeader(reaction);
      } else {
        rc := Finish(settled.value, false, reaction);
      }
    }

    /** One bounded unit of receive work (src/c_api.zig:357-463). */
    method Recv(reaction: seq<FrameNode>) returns (rc: ReturnCode)
      requires Inv()
      modifies thread, `callbackState, `received, `taken, `done, `current, `lost, `chunks, `rxStageLen, `rxStageOff
      modifies transport`recvCalls, transport`lastRecv, rxStage, conn.headerBuf
      modifies conn`payloadBytesProcessed, conn`headerBytesRead, conn`headerBytesNeeded, conn`decodedHeader
      modifies conn`rxState, conn`rxFragment
      modifies conn`txFragment, conn`queued, conn.txQueue, conn.txQueue.buffer
      ensures Inv() && Busy() == old(Busy())
      ensures rc == RcReentrant <==> old(Busy())
      // The call does exactly what the reference call does with the same transport.
      ensures !old(Busy()) ==> Follows(rc, old(Planned()))
      ensures transport.recvCalls <= old(transport.recvCalls) + 15
      ensures old(conn.rxState) == ReadPayload ==> transport.recvCalls <= old(transport.recvCalls) + 1
      ensures |chunks| <= |old(chunks)| + 1
      // OK means the transport had nothing, a callback error that it failed or over-reported.
      ensures rc == RcOk || rc == RcCallbackError ==> Explained(rc) && transport.recvCalls > old(transport.recvCalls)
      // Nothing was consumed and the connection is as it was; after OK nothing is staged.
      ensures rc == RcReentrant || rc == RcOk ==>
                && SameRx() && TxState() == old(TxState())
                && taken == old(taken) && lost == old(lost) && Staged() == old(Staged())
      ensures rc == RcOk ==> Staged() == []
      ensures !old(Busy()) && chunks == old(chunks) ==> MidFrame()
      // The application can only add frames, and only when it is given a chunk; then its reaction is queued.
      ensures OnlyAdds(old(TxState()), TxState()) && OnlyQueued(reaction)
      ensures rc == RcProgress ==> |done| + |current| > |old(done)| + |old(current)|
      // A protocol error means the header in hand is rejected, and it stays rejected without further reads.
      ensures !old(Busy()) ==> (rc == RcProtocolError <==> conn.Rejected())
      ensures !old(Busy()) && old(conn.Rejected()) ==> SameRx() && transport.recvCalls == old(transport.recvCalls)
      // Bytes are dropped exactly when DropsStage says so: all that is staged behind the header then.
      ensures !old(Busy()) ==>
                lost == old(lost) + if old(WillDrop()) then old(HeaderPhase()).intake.stage else []
      ensures !old(Busy()) && old(WillDrop()) ==>
                && lost != old(lost) && rc == RcCallbackError && conn.rxState == ReadPayload && Staged() == []
                && (old(lost) == [] ==> received == done + current + lost)
    {
      hide TxInv, RxReady, Staged, Planned, HeaderPhase, WillDrop, Header, TxState, React;
      hide Conn.RxValid, Conn.Settled, Ring.Contents, Ring.Slot;
      if !MayDrive(thread.callbackDepth, callbackState) { return RcReentrant; }
      PlanFacts();
      ReactOnlyAdds(conn.cfg, conn.txQueue.buffer.Length, TxState(), reaction);
      ghost var plan, was := Planned(), done + current;
      rc := RecvUnguarded(reaction);
      assert |done + current| == |was| + |plan.consumed|;
      PlanFacts();
    }

    // -------------------------------------------------------------- sending

    /** The transmit queue, front first. */
    ghost function Queued(): seq<FrameNode>
      reads conn.txQueue, conn.txQueue.buffer
    {
      if conn.txQueue.Valid() then conn.Queue() else []
    }

    /** All frames of this history, without their progress, in wire order. */
    ghost function Line(): seq<FrameNode>
      reads conn`txDone, conn.txQueue, conn.txQueue.buffer
    {
      AllFresh(conn.txDone + Queued())
    }

    /** AdvanceTx with the wire trace: a finished head leaves the queue for the history. */
    method Prune() returns (r: Option<TxAction>)
      requires TxLoop()
      modifies conn`txDone, conn.txQueue`head, conn.txQueue`len
      ensures TxInv() && r == NextWrite(Queued()) && (r == None ==> Queued() == [])
      ensures Line() == old(Line()) && Queued() == Pruned(old(Queued()))
    {
      hide LegalOrder, OnWire, WellFormed, MaskOpt, Ring.Contents, Ring.Slot;
      ghost var q, before := conn.Queue(), conn.txDone;
      r := conn.AdvanceTx();
      if q != [] && Finished(q[0]) {
        OnWirePrune(before, q, wire);
        assert q[..1] == [q[0]];
      } else {
        assert conn.txDone == before;
      }
    }

    static lemma SliceOfSlice<T>(s: seq<T>, lo: nat, hi: nat, n: nat)
      requires lo <= hi <= |s| && n <= hi - lo
      ensures s[lo..hi][..n] == s[lo..lo + n]
    {
    }

    /** Sends header bytes of the head. */
    method SendHeader() returns (stop: Option<ReturnCode>, n: nat)
      requires TxLoop() && !Busy() && NextWrite(Queued()) == Some(WriteHeader)
      modifies thread, `callbackState, `wire, transport`sendCalls, transport`lastSend, conn.txQueue.buffer
      ensures TxLoop() && Wrote(stop, n, Offer(old(Queued())[0], conn.cfg.role == Client, 0))
      ensures n <= if conn.cfg.role == Server then 10 else MAX_FRAME_HEADER_LEN
    {
      hide OnWire, CacheAgrees, WellFormed, Conn.TxValid, Transport.NeverBlocks, Ring.Valid, Ring.Contents, Ring.Slot;
      HeadFollowsRole();
      stop, n := Some(RcProtocolError), 0;
      var buf := conn.GetTxHeaderBuffer();
      if |buf| == 0 { return; }
      var sent := CallSend(buf);
      if sent == 0 { stop := Some(RcOk); return; }
      if sent < 0 || sent > |buf| { stop := Some(RcCallbackError); return; }
      SliceOfSlice(Queued()[0].headerBuf, Queued()[0].headerSent, Queued()[0].headerLen, sent);
      var ok := BookHeader(sent, old(wire));
      if !ok { return; }
      return None, sent;
    }

    /** Books header bytes of the head that have just been accepted. */
    method BookHeader(sent: nat, ghost was: seq<byte>) returns (ok: bool)
      requires Separate() && conn.TxValid() && OnWire(conn.txDone, Queued(), was) && Queued() != []
      requires txChunkLen <= txChunk.Length
      requires CacheAgrees(Queued(), txChunk[..txChunkLen], txChunkStart, txChunkSent)
      requires 0 < sent <= Queued()[0].headerLen - Queued()[0].headerSent
      requires Queued()[0].headerLen <= MAX_FRAME_HEADER_LEN
      requires var x := Queued()[0]; wire == was + x.headerBuf[x.headerSent..x.headerSent + sent]
      modifies conn.txQueue.buffer
      ensures ok && TxLoop() && Line() == old(Line())
      ensures Queued() == Written(old(Queued()), sent)
    {
      hide LegalOrder, OnWire, CacheAgrees, WellFormed, MaskOpt, Ring.Contents, Ring.Slot;
      ghost var q := conn.Queue();
      HeaderKeepsCache(q, txChunk[..txChunkLen], txChunkStart, txChunkSent, sent);
      var r := conn.AdvanceTxHeader(sent);
      if r.Fail? { return false; }
      OnWireHeader(conn.txDone, q, was, sent);
      HeadKeepsFrames(conn.txDone, q, conn.Queue()[0]);
      return true;
    }

    /** Refills the masked chunk cache from the unsent payload of the head. */
    method FillChunk(key: MaskingKey, offset: nat) returns (ok: bool)
      requires TxLoop() && NextWrite(Queued()) == Some(WritePayload)
      requires WellFormed(Queued()[0]) && NodeKey(Queued()[0]) == Some(key) && offset == Queued()[0].payloadSent
      requires txChunkLen == 0
      modifies txChunk, `txChunkLen, `txChunkStart, `txChunkSent
      ensures ok && TxLoop() && txChunkLen != 0
    {
      hide LegalOrder, OnWire, WellFormed, MaskOpt, Ring.Contents, Ring.Slot;
      ghost var q := conn.Queue();
      var remaining := conn.GetTxPayload();
      if remaining.Err? { return false; }
      var chunkLen := Min(txChunk.Length, |remaining.value|);
      if chunkLen == 0 { return false; }
      CopyInto(txChunk, 0, remaining.value[..chunkLen]);
      ghost var plain := txChunk[..chunkLen];
      assert plain == q[0].payload[offset..offset + chunkLen];
      MaskInPlace(platform, txChunk, chunkLen, key, offset);
      assert txChunk[..chunkLen] == MaskSeq(plain, key, offset);
      MaskedSlice(q[0].payload, offset, chunkLen, key);
      txChunkStart, txChunkLen, txChunkSent := offset, chunkLen, 0;
      return true;
    }

    static lemma MaskedSlice(payload: seq<byte>, offset: nat, n: nat, key: MaskingKey)
      requires offset + n <= |payload|
      ensures MaskSeq(payload[offset..offset + n], key, offset) == MaskOpt(payload, Some(key), 0)[offset..offset + n]
    {
      MaskOptSlice(payload, offset, offset + n, Some(key));
    }

    /** Books payload bytes of the head that have just been accepted. */
    method BookPayload(sent: nat, ghost was: seq<byte>) returns (ok: bool)
      requires conn.TxValid() && OnWire(conn.txDone, Queued(), was) && NextWrite(Queued()) == Some(WritePayload)
      requires 0 < sent <= |Queued()[0].payload| - Queued()[0].payloadSent
      requires WellFormed(Queued()[0])
      requires var x := Queued()[0];
               wire == was + MaskOpt(x.payload, NodeKey(x), 0)[x.payloadSent..x.payloadSent + sent]
      modifies conn.txQueue.buffer
      ensures ok && conn.TxValid() && OnWire(conn.txDone, Queued(), wire) && Line() == old(Line())
      ensures var x := old(Queued())[0];
              Queued() == [x.(payloadSent := x.payloadSent + sent)] + old(Queued())[1..]
    {
      hide LegalOrder, OnWire, WellFormed, MaskOpt, Ring.Contents, Ring.Slot;
      ghost var q := conn.Queue();
      var r := conn.AdvanceTxPayload(sent);
      if r.Fail? { return false; }
      OnWirePayload(conn.txDone, q, was, sent);
      HeadKeepsFrames(conn.txDone, q, conn.Queue()[0]);
      return true;
    }

    static lemma CacheBounds(q: seq<FrameNode>, chunk: seq<byte>, start: nat, sent: nat)
      requires CacheAgrees(q, chunk, start, sent) && |chunk| != 0
      ensures q != [] && WellFormed(q[0]) && sent < |chunk|
    {
    }

    /** The cache is empty until the header is sent. */
    static lemma HeaderKeepsCache(q: seq<FrameNode>, chunk: seq<byte>, start: nat, sent: nat, n: nat)
      requires CacheAgrees(q, chunk, start, sent) && q != [] && q[0].headerSent + n <= q[0].headerLen && n > 0
      ensures CacheAgrees([q[0].(headerSent := q[0].headerSent + n)] + q[1..], chunk, start, sent)
    {
      hide DecodeHeader;
    }

    /** A cached chunk is offered up to its end, which is the end of the payload or of its 4096 bytes. */
    static lemma CacheOffer(q: seq<FrameNode>, chunk: seq<byte>, start: nat, sent: nat)
      requires CacheAgrees(q, chunk, start, sent) && |chunk| != 0
      ensures Offer(q[0], true, 0) == |chunk| - sent
    {
      hide WellFormed, MaskOpt;
      assert q[0].payloadSent % 4096 == sent;
    }

    static lemma EmptyCache(q: seq<FrameNode>, chunk: seq<byte>)
      requires BetweenChunks(q) && |chunk| == 0
      ensures CacheAgrees(q, chunk, 0, 0)
    {
    }

    /** Books bytes sent from the cache, and empties it when it has been sent in full. */
    method BookCached(sent: nat, ghost was: seq<byte>) returns (ok: bool)
      requires Separate() && conn.TxValid() && OnWire(conn.txDone, Queued(), was)
      requires NextWrite(Queued()) == Some(WritePayload) && WellFormed(Queued()[0])
      requires txChunkSent < txChunkLen <= txChunk.Length && 0 < sent <= txChunkLen - txChunkSent
      requires CacheAgrees(Queued(), txChunk[..txChunkLen], txChunkStart, txChunkSent)
      requires wire == was + txChunk[..txChunkLen][txChunkSent..txChunkSent + sent]
      modifies conn.txQueue.buffer, `txChunkLen, `txChunkStart, `txChunkSent
      ensures ok && TxLoop() && Line() == old(Line())
      ensures Queued() == Written(old(Queued()), sent)
    {
      hide OnWire, CacheAgrees, BetweenChunks, WellFormed, MaskOpt, LegalOrder, OnlyHeadStarted;
      hide Ring.Contents, Ring.Slot;
      CachedSlice(Queued(), txChunk[..txChunkLen], txChunkStart, txChunkSent, sent);
      txChunkSent := txChunkSent + sent;
      ok := BookPayload(sent, was);
      if txChunkSent == txChunkLen {
        txChunkLen, txChunkStart, txChunkSent := 0, 0, 0;
        EmptyCache(Queued(), txChunk[..0]);
      }
    }

    /** Sends from the masked chunk cache. */
    method SendCached() returns (stop: Option<ReturnCode>, n: nat)
      requires TxLoop() && !Busy() && NextWrite(Queued()) == Some(WritePayload) && txChunkLen != 0
      modifies thread, `callbackState, `wire, transport`sendCalls, transport`lastSend, conn.txQueue.buffer
      modifies `txChunkLen, `txChunkStart, `txChunkSent
      ensures TxLoop() && Wrote(stop, n, Offer(old(Queued())[0], true, 0)) && n <= MAX_CHUNK_SIZE
    {
      hide OnWire, CacheAgrees, WellFormed, MaskOpt, Conn.TxValid, Ring.Valid, Ring.Contents, Ring.Slot;
      hide Transport.NeverBlocks, Offer;
      CacheOffer(Queued(), txChunk[..txChunkLen], txChunkStart, txChunkSent);
      CacheBounds(Queued(), txChunk[..txChunkLen], txChunkStart, txChunkSent);
      stop, n := Some(RcProtocolError), 0;
      var chunk := txChunk[txChunkSent..txChunkLen];
      var sent := CallSend(chunk);
      if sent == 0 { stop := Some(RcOk); return; }
      if sent < 0 || sent > |chunk| { stop := Some(RcCallbackError); return; }
      assert chunk[..sent] == txChunk[..txChunkLen][txChunkSent..txChunkSent + sent];
      var ok := BookCached(sent, old(wire));
      if !ok { return; }
      return None, sent;
    }

    /** Sends masked payload, refilling the cache when it does not match the head's progress. */
    method SendMasked(key: MaskingKey) returns (stop: Option<ReturnCode>, n: nat)
      requires TxLoop() && !Busy() && NextWrite(Queued()) == Some(WritePayload)
      requires WellFormed(Queued()[0]) && NodeKey(Queued()[0]) == Some(key)
      modifies thread, `callbackState, `wire, transport`sendCalls, transport`lastSend, conn.txQueue.buffer
      modifies txChunk, `txChunkLen, `txChunkStart, `txChunkSent
      ensures TxLoop() && Wrote(stop, n, Offer(old(Queued())[0], true, 0)) && n <= MAX_CHUNK_SIZE
    {
      hide OnWire, WellFormed, MaskOpt, LegalOrder, Offer, Ring.Contents, Ring.Slot;
      stop, n := Some(RcProtocolError), 0;
      var offset := conn.GetTxPayloadOffset();
      if offset.Err? { return; }
      var matches := txChunkLen != 0 && offset.value >= txChunkStart && offset.value - txChunkStart == txChunkSent;
      if !matches {
        var filled := FillChunk(key, offset.value);
        if !filled { return; }
      }
      stop, n := SendCached();
    }

    /** Sends unmasked payload straight from the borrowed buffer, within the byte budget. */
    method SendPlain(bytesSent: nat) returns (stop: Option<ReturnCode>, n: nat)
      requires TxLoop() && !Busy() && NextWrite(Queued()) == Some(WritePayload)
      requires WellFormed(Queued()[0]) && NodeKey(Queued()[0]) == None && bytesSent < MAX_SEND_BYTES
      modifies thread, `callbackState, `wire, transport`sendCalls, transport`lastSend, conn.txQueue.buffer
      ensures TxLoop() && Wrote(stop, n, Offer(old(Queued())[0], false, bytesSent)) && n <= MAX_SEND_BYTES - bytesSent
    {
      hide OnWire, CacheAgrees, WellFormed, Conn.TxValid, Transport.NeverBlocks, Ring.Valid, Ring.Contents, Ring.Slot;
      ghost var x := Queued()[0];
      stop, n := Some(RcProtocolError), 0;
      var remaining := conn.GetTxPayload();
      if remaining.Err? { return; }
      var budget := MAX_SEND_BYTES - bytesSent;
      var chunkLen := Min(|remaining.value|, Min(MAX_UNMASKED_CHUNK, budget));
      if chunkLen == 0 { return; }
      var chunk := remaining.value[..chunkLen];
      SliceOfSlice(x.payload, x.payloadSent, |x.payload|, chunkLen);
      assert x.payload[x.payloadSent..|x.payload|] == x.payload[x.payloadSent..];
      var sent := CallSend(chunk);
      if sent == 0 { stop := Some(RcOk); return; }
      if sent < 0 || sent > chunkLen { stop := Some(RcCallbackError); return; }
      SliceOfSlice(x.payload, x.payloadSent, x.payloadSent + chunkLen, sent);
      var ok := BookPlain(sent, old(wire));
      if !ok { return; }
      return None, sent;
    }

    /** Books unmasked payload bytes. */
    method BookPlain(sent: nat, ghost was: seq<byte>) returns (ok: bool)
      requires Separate() && conn.TxValid() && OnWire(conn.txDone, Queued(), was)
      requires NextWrite(Queued()) == Some(WritePayload) && WellFormed(Queued()[0]) && NodeKey(Queued()[0]) == None
      requires 0 < sent <= |Queued()[0].payload| - Queued()[0].payloadSent && txChunkLen <= txChunk.Length
      requires CacheAgrees(Queued(), txChunk[..txChunkLen], txChunkStart, txChunkSent)
      requires var x := Queued()[0]; wire == was + x.payload[x.payloadSent..x.payloadSent + sent]
      modifies conn.txQueue.buffer
      ensures ok && TxLoop() && Line() == old(Line())
      ensures Queued() == Written(old(Queued()), sent)
    {
      hide OnWire, CacheAgrees, BetweenChunks, WellFormed, LegalOrder, OnlyHeadStarted, Ring.Contents, Ring.Slot;
      PlainKeepsCache(Queued(), txChunk[..txChunkLen], txChunkStart, txChunkSent, sent);
      ok := BookPayload(sent, was);
    }

    /** An unmasked head never has a cached chunk. */
    static lemma PlainKeepsCache(q: seq<FrameNode>, chunk: seq<byte>, start: nat, sent: nat, n: nat)
      requires CacheAgrees(q, chunk, start, sent) && q != [] && WellFormed(q[0]) && NodeKey(q[0]) == None
      ensures CacheAgrees([q[0].(payloadSent := q[0].payloadSent + n)] + q[1..], chunk, start, sent)
    {
      hide DecodeHeader;
    }

    static lemma SubSlice<T>(s: seq<T>, lo: nat, hi: nat, at: nat, n: nat)
      requires lo <= hi <= |s| && at + n <= hi - lo
      ensures s[lo..hi][at..at + n] == s[lo + at..lo + at + n]
    {
      var a, b := s[lo..hi][at..at + n], s[lo + at..lo + at + n];
      forall k | 0 <= k < n ensures a[k] == b[k] {
        assert s[lo..hi][at + k] == s[lo + (at + k)];
      }
      assert a == b;
    }

    /** The next bytes of the cache are the next bytes of the head's image, and the cache keeps
        agreeing with the head as both advance. */
    static lemma CachedSlice(q: seq<FrameNode>, chunk: seq<byte>, start: nat, sent: nat, n: nat)
      requires CacheAgrees(q, chunk, start, sent) && 0 < n <= |chunk| - sent
      ensures var x := q[0];
              && x.payloadSent + n <= |x.payload|
              && chunk[sent..sent + n] == MaskOpt(x.payload, NodeKey(x), 0)[x.payloadSent..x.payloadSent + n]
              && var next := [x.(payloadSent := x.payloadSent + n)] + q[1..];
                 if sent + n < |chunk| then CacheAgrees(next, chunk, start, sent + n) else BetweenChunks(next)
    {
      hide MaskOpt, DecodeHeader;
      var x := q[0];
      var body := MaskOpt(x.payload, NodeKey(x), 0);
      SubSlice(body, start, start + |chunk|, sent, n);
      SameImage(x, x.(payloadSent := x.payloadSent + n));
    }

    /** The outcome of one write that offered `size` bytes: n bytes of progress, or a stop that changed
        nothing. */
    twostate predicate Wrote(new stop: Option<ReturnCode>, n: nat, size: nat)
      reads `wire, `callbackState, thread, transport, conn`txDone, conn.txQueue, conn.txQueue.buffer
    {
      && !Busy() && transport.sendCalls == old(transport.sendCalls) + 1
      && Line() == old(Line()) && conn.txDone == old(conn.txDone)
      && old(wire) <= wire && |wire| == |old(wire)| + n
      && transport.lastSend == Classify(transport.onSend(old(transport.sendCalls), size), size)
      && (stop.None? ==>
            && transport.lastSend == Moved && n == transport.onSend(old(transport.sendCalls), size)
            && Queued() == Written(old(Queued()), n))
      && (transport.NeverBlocks() ==> stop.None?)
      && (stop.Some? ==>
            && n == 0 && Queued() == old(Queued())
            && stop == Some(if transport.lastSend == WouldBlock then RcOk else RcCallbackError)
            && transport.lastSend != Moved)
    }

    lemma HeadFollowsRole()
      requires TxLoop() && Queued() != []
      ensures var x := Queued()[0];
              && WellFormed(x)
              && NodeKey(x).Some? == (conn.cfg.role == Client)
              && (conn.cfg.role == Server ==> x.headerLen <= 10)
    {
      var line := conn.txDone + conn.Queue();
      assert line[|conn.txDone|] == conn.Queue()[0];
      AcceptMasks(conn.cfg, line, |conn.txDone|);
    }

    /** One write: header bytes, masked payload or plain payload of the head. */
    method SendOnce(action: TxAction, bytesSent: nat) returns (stop: Option<ReturnCode>, n: nat)
      requires TxInv() && !Busy() && NextWrite(Queued()) == Some(action) && bytesSent < MAX_SEND_BYTES
      modifies thread, `callbackState, `wire, transport`sendCalls, transport`lastSend, conn.txQueue.buffer
      modifies txChunk, `txChunkLen, `txChunkStart, `txChunkSent
      ensures TxLoop() && (stop.Some? ==> TxInv())
      ensures Wrote(stop, n, Offer(old(Queued())[0], conn.cfg.role == Client, bytesSent))
      ensures if conn.cfg.role == Client then n <= MAX_CHUNK_SIZE else bytesSent + n <= MAX_SEND_BYTES + 9
    {
      hide OnWire, WellFormed, MaskOpt, LegalOrder, CacheAgrees, OnlyHeadStarted;
      hide Transport.NeverBlocks, Ring.Contents, Ring.Slot;
      stop, n := Some(RcProtocolError), 0;
      HeadFollowsRole();
      match action
      case WriteHeader =>
        stop, n := SendHeader();
      case WritePayload =>
        var key := conn.GetTxMaskingKey();
        if key.Err? { return; }
        if key.value.Some? {
          stop, n := SendMasked(key.value.value);
        } else {
          stop, n := SendPlain(bytesSent);
        }
    }

    lemma Unpack()
      requires Inv()
      ensures Separate() && TxLoop() && conn.RxValid() && rxStageOff <= rxStageLen <= rxStage.Length
    {
    }

    /** What a send call will do from here. */
    ghost function PlannedSend(): SendPlan
      reads conn.txQueue, conn.txQueue.buffer, transport`sendCalls
    {
      PlanSend(transport.onSend, conn.cfg.role == Client, Queued(), transport.sendCalls, 0, 0)
    }

    /** The body of zslay_conn_send behind its guard. */
    method SendUnguarded() returns (rc: ReturnCode)
      requires TxLoop() && !Busy()
      modifies thread, `callbackState, `wire, transport`sendCalls, transport`lastSend
      modifies txChunk, `txChunkLen, `txChunkStart, `txChunkSent
      modifies conn`txDone, conn.txQueue`head, conn.txQueue`len, conn.txQueue.buffer
      ensures TxInv() && !Busy()
      ensures rc in {RcOk, RcProgress, RcCallbackError}
      ensures Line() == old(Line()) && old(wire) <= wire
      ensures SendPlan(rc, Queued(), transport.sendCalls, |wire| - |old(wire)|) == old(PlannedSend())
      ensures transport.sendCalls <= old(transport.sendCalls) + 64
      ensures |wire| <= |old(wire)| + if conn.cfg.role == Server then 262153 else 262144
      ensures rc == RcOk ==>
                Queued() == [] || (transport.sendCalls > old(transport.sendCalls) && transport.lastSend == WouldBlock)
      ensures rc == RcCallbackError ==> transport.sendCalls > old(transport.sendCalls) && transport.lastSend == Fault
      ensures rc == RcProgress ==>
                && Queued() != [] && |wire| >= |old(wire)| + 64
                && (transport.sendCalls == old(transport.sendCalls) + 64 || |wire| >= |old(wire)| + 262144)
      ensures transport.NeverBlocks() ==> rc == RcProgress || (rc == RcOk && Queued() == [])
    {
      hide TxInv, TxLoop, PlanSend, Offer, Transport.NeverBlocks, Ring.Contents, Ring.Slot;
      var callbacks, bytesSent := 0, 0;
      while true
        invariant TxLoop() && !Busy() && Line() == old(Line()) && old(wire) <= wire
        invariant callbacks <= MAX_SEND_CALLBACKS && transport.sendCalls == old(transport.sendCalls) + callbacks
        invariant callbacks <= bytesSent == |wire| - |old(wire)|
        invariant if conn.cfg.role == Client then bytesSent <= MAX_CHUNK_SIZE * callbacks
                  else bytesSent <= MAX_SEND_BYTES + 9
        invariant old(PlannedSend())
               == PlanSend(transport.onSend, conn.cfg.role == Client, Queued(), transport.sendCalls,
                           callbacks, bytesSent)
        decreases MAX_SEND_CALLBACKS - callbacks
      {
        PlanSendStep(transport.onSend, conn.cfg.role == Client, Queued(), transport.sendCalls, callbacks, bytesSent);
        var action := Prune();
        if action == None { return RcOk; }
        if callbacks >= MAX_SEND_CALLBACKS || bytesSent >= MAX_SEND_BYTES {
          var pending := conn.TxPending();
          return if pending != 0 then RcProgress else RcOk;
        }
        var stop, n := SendOnce(action.value, bytesSent);
        if stop.Some? { return stop.value; }
        bytesSent := bytesSent + n;
        callbacks := callbacks + 1;
      }
    }

    /** Bounded transmit work (src/c_api.zig:466-554). */
    method Send() returns (rc: ReturnCode)
      requires Inv()
      modifies thread, `callbackState, `wire, transport`sendCalls, transport`lastSend
      modifies txChunk, `txChunkLen, `txChunkStart, `txChunkSent
      modifies conn`txDone, conn.txQueue`head, conn.txQueue`len, conn.txQueue.buffer
      ensures Inv() && Busy() == old(Busy())
      ensures rc == RcReentrant <==> old(Busy())
      ensures rc in {RcOk, RcProgress, RcCallbackError, RcReentrant}
      // Frames are neither lost, duplicated, altered nor reordered, and the wire only grows.
      ensures Line() == old(Line()) && old(wire) <= wire
      // The call does exactly what the reference call does with the same transport.
      ensures !old(Busy()) ==>
                SendPlan(rc, Queued(), transport.sendCalls, |wire| - |old(wire)|) == old(PlannedSend())
      ensures transport.sendCalls <= old(transport.sendCalls) + 64
      ensures |wire| <= |old(wire)| + if conn.cfg.role == Server then 262153 else 262144
      ensures rc == RcOk ==>
                Queued() == [] || (transport.sendCalls > old(transport.sendCalls) && transport.lastSend == WouldBlock)
      ensures rc == RcCallbackError ==> transport.sendCalls > old(transport.sendCalls) && transport.lastSend == Fault
      ensures rc == RcProgress ==>
                && Queued() != [] && |wire| >= |old(wire)| + 64
                && (transport.sendCalls == old(transport.sendCalls) + 64 || |wire| >= |old(wire)| + 262144)
      ensures rc == RcReentrant ==> wire == old(wire) && Queued() == old(Queued()) && conn.txDone == old(conn.txDone)
      ensures transport.NeverBlocks() && !old(Busy()) ==> rc == RcProgress || (rc == RcOk && Queued() == [])
    {
      hide RxInv, TxInv, TxLoop, Transport.NeverBlocks, Ring.Contents, Ring.Slot;
      if !MayDrive(thread.callbackDepth, callbackState) { return RcReentrant; }
      Unpack();
      rc := SendUnguarded();
    }

    // -------------------------------------------------------------- resets

    /** Empties the stage; the receive traces start over. */
    method ClearStage()
      requires rxStageLen <= rxStage.Length
      modifies rxStage, `rxStageLen, `rxStageOff, `received, `taken, `done, `current, `lost, `chunks
      ensures rxStageLen == rxStageOff == 0
      ensures received == taken == done == current == lost == [] && chunks == []
    {
      CopyInto(rxStage, 0, seq(rxStageLen, _ => 0));
      rxStageLen, rxStageOff := 0, 0;
      received, taken, done, current, lost, chunks := [], [], [], [], [], [];
    }

    method ClearChunk()
      requires txChunkLen <= txChunk.Length
      modifies txChunk, `txChunkLen, `txChunkStart, `txChunkSent
      ensures txChunkLen == txChunkStart == txChunkSent == 0
    {
      CopyInto(txChunk, 0, seq(txChunkLen, _ => 0));
      txChunkLen, txChunkStart, txChunkSent := 0, 0, 0;
    }

    /** Abandons all receive state; afterwards the connection receives like a new one. */
    method Reset() returns (rc: ReturnCode)
      requires Inv()
      modifies `received, `taken, `done, `current, `lost, `chunks, `rxStageLen, `rxStageOff, rxStage
      modifies conn`payloadBytesProcessed, conn`headerBytesRead, conn`headerBytesNeeded, conn`decodedHeader
      modifies conn`rxState, conn`rxFragment
      ensures Inv()
      ensures rc == if Busy() then RcReentrant else RcOk
      ensures rc == RcReentrant ==> SameRx() && Staged() == old(Staged())
      ensures rc == RcOk ==>
                && conn.AtFrameBoundary() && conn.rxFragment == NO_FRAGMENT && rxStageLen == rxStageOff == 0
                && received == taken == done == current == lost == [] && chunks == []
    {
      hide TxInv, TxLoop, RxInv, Conn.RxValid, Conn.Settled, Ring.Contents, Ring.Slot;
      Unpack();
      if !MayDrive(thread.callbackDepth, callbackState) { return RcReentrant; }
      conn.ResetRx();
      assert TxInv();
      ClearStage();
      assert TxInv();
      RxInitially();
      return RcOk;
    }

    /** Drops queued frames, the open fragment and the cached chunk; a new wire history begins. */
    method ResetTx() returns (rc: ReturnCode)
      requires Inv()
      modifies `wire, `txChunkLen, `txChunkStart, `txChunkSent, txChunk
      modifies conn`txFragment, conn`txDone, conn`queued, conn.txQueue`head, conn.txQueue`tail, conn.txQueue`len
      ensures Inv()
      ensures rc == if Busy() then RcReentrant else RcOk
      ensures rc == RcReentrant ==> Line() == old(Line()) && wire == old(wire)
      ensures rc == RcOk ==> Line() == [] && wire == [] && txChunkLen == 0 && conn.txFragment == NO_FRAGMENT
    {
      hide RxInv, OnWire, CacheAgrees, Conn.TxValid, Ring.Valid, Ring.Contents, Ring.Slot;
      Unpack();
      if !MayDrive(thread.callbackDepth, callbackState) { return RcReentrant; }
      conn.ResetTx();
      assert RxInv();
      ClearChunk();
      assert RxInv() && conn.TxValid();
      wire := [];
      TxInitially();
      return RcOk;
    }

    // -------------------------------------------------------------- preparing

    /** The code of prepare_frame: malformed arguments, then the first rule the frame breaks, whatever the
        key, then a failed mask callback. */
    static function PrepareCode(cfg: Config, utf8: seq<byte> -> bool, fin: byte, opcode: byte, payload: seq<byte>,
                                masked: byte, mask: Option<MaskingKey>): ReturnCode
    {
      if fin > 1 || masked > 1 || opcode >= 16 || !IsKnown(opcode) then RcInvalidArgument
      else
        var anyKey := if masked == 1 then Some([0, 0, 0, 0]) else None;
        match PrepareCheck(cfg, utf8, fin == 1, opcode, payload, masked == 1, anyKey)
        case Fail(e) => MapFrameError(e)
        case Pass => if masked == 1 && mask == None then RcCallbackError else RcOk
    }

    /** These codes in numerals. */
    static lemma PrepareCodes(cfg: Config, utf8: seq<byte> -> bool, fin: byte, opcode: byte, payload: seq<byte>,
                              masked: byte, mask: Option<MaskingKey>)
      ensures var code := PrepareCode(cfg, utf8, fin, opcode, payload, masked, mask);
              var shape := fin <= 1 && masked <= 1 && ShapeAllowed(cfg, fin == 1, opcode, |payload|);
              var maskFits := (masked == 1) == (cfg.role == Client);
              var close := CloseAllowed(utf8, opcode, payload);
              && (code == RcOk <==> shape && maskFits && close && (masked == 1 ==> mask.Some?))
              && (code == RcCallbackError <==> shape && maskFits && close && masked == 1 && mask.None?)
              && (code == RcInvalidUtf8 <==>
                    shape && maskFits && opcode == 0x8 && HasCloseCode(payload) && !utf8(payload[2..]))
              && (code == RcInvalidArgument <==>
                    || fin > 1 || masked > 1 || !KnownOpcode(opcode) || TooLong(cfg, opcode, |payload|)
                    || (shape && !maskFits))
              && (code == RcProtocolError <==>
                    && fin <= 1 && masked <= 1 && KnownOpcode(opcode) && !TooLong(cfg, opcode, |payload|)
                    && (|| !ControlAllowed(fin == 1, opcode, |payload|)
                        || (maskFits && opcode == 0x8 && payload != [] && !HasCloseCode(payload))))
    {
      if fin <= 1 && masked <= 1 && opcode < 16 && IsKnown(opcode) {
        PrepareMeans(cfg, utf8, fin == 1, opcode, payload, masked == 1,
                     if masked == 1 then Some([0, 0, 0, 0]) else None);
      }
      hide PrepareCheck;
    }

    /** Builds a node, asking the mask callback for a key when the frame is masked
        (src/c_api.zig:586-649). `mask` is what the mask callback produces, None when it fails. */
    method PrepareFrame(utf8: seq<byte> -> bool, fin: byte, opcode: byte, payload: seq<byte>, masked: byte,
                        mask: Option<MaskingKey>) returns (rc: ReturnCode, node: Option<FrameNode>)
      requires ValidConfig(conn.cfg)
      modifies thread, `callbackState
      ensures thread.callbackDepth == old(thread.callbackDepth) && callbackState == old(callbackState)
      ensures rc == RcReentrant <==> thread.callbackDepth != 0 && callbackState != InOnFrame
      ensures rc != RcReentrant ==>
                rc == PrepareCode(conn.cfg, utf8, fin, opcode, payload, masked, mask)
      ensures rc == RcOk ==>
                && PrepareCheck(conn.cfg, utf8, fin == 1, opcode, payload, masked == 1,
                                if masked == 1 then mask else None).Pass?
                && node.Some?
                && IsNodeFor(node.value, fin == 1, opcode, payload, if masked == 1 then mask else None)
      ensures rc != RcOk ==> node == None
      ensures rc == RcProtocolError ==> opcode < 16 && IsControl(opcode)
      ensures rc == RcInvalidUtf8 ==> opcode == CLOSE && |payload| >= 2 && !utf8(payload[2..])
    {
      node := None;
      if !MayQueue(thread.callbackDepth, callbackState) { return RcReentrant, node; }
      if fin > 1 || masked > 1 { return RcInvalidArgument, node; }
      if opcode >= 16 || !IsKnown(opcode) { return RcInvalidArgument, node; }
      var valid := ValidateOutgoingFrame(conn.cfg, fin == 1, opcode, |payload|, masked == 1);
      if valid.Fail? { return MapFrameError(valid.error), node; }
      if opcode == CLOSE {
        var close := ValidateClosePayload(utf8, payload);
        if close.Fail? { return MapFrameError(close.error), node; }
      }
      var key: Option<MaskingKey> := None;
      if masked == 1 {
        var previous := callbackState;
        thread.callbackDepth := thread.callbackDepth + 1;
        callbackState := InMask;
        key := mask;
        callbackState := previous;
        thread.callbackDepth := thread.callbackDepth - 1;
        if key == None { return RcCallbackError, node; }
      }
      var prepared := Protocol.PrepareFrame(conn.cfg, utf8, fin == 1, opcode, payload, masked == 1, key);
      // Every check of the builder has already been made above.
      assert prepared.Ok?;
      return RcOk, Some(prepared.value);
    }

    lemma QueueSound()
      requires TxLoop()
      ensures AllWellFormed(Queued())
    {
    }

    /** The number of frames whose payload is still borrowed: exactly those with bytes left to send. */
    method TxPending() returns (n: nat)
      requires TxInv()
      ensures n == |Queued()| && forall i :: 0 <= i < |Queued()| ==> !Finished(Queued()[i])
    {
      hide LegalOrder, OnWire, CacheAgrees, Ring.Contents, Ring.Slot;
      n := conn.TxPending();
      ghost var q := conn.Queue();
      QueueSound();
      forall i | 0 <= i < |q| ensures !Finished(q[i]) {
        assert WellFormed(q[i]);
      }
    }

    // -------------------------------------------------------------- draining

    /** Wire bytes not yet accepted by the transport. */
    ghost function Backlog(): int
      reads `wire, conn`txDone, conn.txQueue, conn.txQueue.buffer
    {
      if AllWellFormed(Line()) then |Images(Line())| - |wire| else 0
    }

    lemma BacklogIsWhatRemains()
      requires TxInv()
      ensures AllWellFormed(Line()) && wire <= Images(Line()) && Backlog() >= 0
      ensures Backlog() == 0 <==> Queued() == []
    {
      hide WellFormed, Images, LegalOrder, CacheAgrees, Ring.Contents, Ring.Slot;
      var line := conn.txDone + Queued();
      WireIsPrefix(conn.txDone, Queued(), wire);
      FreshSound(line);
      ImagesIgnoreProgress(line, Line());
    }

    static lemma FreshSound(line: seq<FrameNode>)
      requires AllWellFormed(line)
      ensures AllWellFormed(AllFresh(line)) && AllFresh(AllFresh(line)) == AllFresh(line)
    {
      hide DecodeHeader;
      var f := AllFresh(line);
      forall i | 0 <= i < |f| ensures WellFormed(f[i]) {
        SameImage(line[i], f[i]);
      }
    }

    /** Calling send for as long as it reports progress drains the queue of a transport that never
        blocks, in at most one call per 64 bytes of backlog and one more. */
    method Drain() returns (calls: nat)
      requires Inv() && !Busy() && transport.NeverBlocks()
      modifies thread, `callbackState, `wire, transport`sendCalls, transport`lastSend
      modifies txChunk, `txChunkLen, `txChunkStart, `txChunkSent
      modifies conn`txDone, conn.txQueue`head, conn.txQueue`len, conn.txQueue.buffer
      ensures Inv() && Queued() == [] && Line() == old(Line())
      ensures AllWellFormed(Line()) && wire == Images(Line())
      ensures 64 * (calls - 1) <= old(Backlog())
    {
      hide RxInv, TxInv, Transport.NeverBlocks, WellFormed, Images, Ring.Contents, Ring.Slot;
      calls := 0;
      var rc := RcProgress;
      BacklogIsWhatRemains();
      while rc == RcProgress
        invariant Inv() && !Busy() && Line() == old(Line()) && old(wire) <= wire
        invariant rc == RcProgress ==> 64 * calls <= |wire| - |old(wire)|
        invariant rc != RcProgress ==> Queued() == [] && calls >= 1 && 64 * (calls - 1) <= |wire| - |old(wire)|
        decreases if rc == RcProgress then 1 else 0, Backlog()
      {
        BacklogIsWhatRemains();
        rc := Send();
        BacklogIsWhatRemains();
        calls := calls + 1;
      }
      BacklogIsWhatRemains();
    }
  }

  /** Creates an endpoint as zslay_conn_init does: not from a callback, within the wire format's limits,
      and with a mask callback when the role needs one (src/c_api.zig:286-341). */
  method Init(config: Config, t: Transport, th: Thread, p: Platform, storage: array<FrameNode>, hasGenMask: bool)
    returns (r: Option<Endpoint>)
    ensures r.Some? <==>
              && th.callbackDepth == 0 && (config.role == Client ==> hasGenMask)
              && config.maxFrameLen <= 0x7fff_ffff_ffff_ffff && config.maxMessageLen <= 0x7fff_ffff_ffff_ffff
    ensures r.Some? ==>
              var e := r.value;
              && e.Inv() && !e.Busy() && e.conn.cfg == config && e.transport == t && e.thread == th
              && e.conn.txQueue.buffer == storage && fresh(e.Footprint() - {t, storage})
              && e.RxTrace() == Trace([], [], [], [], [], t.recvCalls) && e.received == [] && e.wire == []
              && e.InHand().header == [] && e.conn.rxFragment == NO_FRAGMENT && e.conn.payloadBytesProcessed == 0
              && e.TxState() == TxStatus([], NO_FRAGMENT, [], [])
  {
    hide Endpoint.RxInv, Endpoint.TxInv, Conn.RxValid, Conn.TxValid, Conn.Settled, Ring.Contents, Ring.Slot;
    if th.callbackDepth != 0 { return None; }
    if config.role == Client && !hasGenMask { return None; }
    if !ValidConfig(config) { return None; }
    var c := new Conn(config, storage);
    var e := new Endpoint(c, t, th, p);
    return Some(e);
  }
}
