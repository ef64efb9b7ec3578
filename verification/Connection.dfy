/** The I/O-agnostic connection state machine (src/event.zig). */
module Connection {
  import opened Types
  import opened Bytes
  import opened Codec
  import opened Protocol
  import opened Stream
  import opened Wire
  import opened Ring

  datatype RxAction = NeedHeader | NeedPayload | EmitFrame
  datatype TxAction = WriteHeader | WritePayload
  datatype RxState = ReadBaseHeader | ReadExtendedHeader | ReadPayload

  /** Only the head of a transmit queue has been started, and within its own bounds. */
  ghost predicate OnlyHeadStarted(q: seq<FrameNode>) {
    && (q != [] ==> q[0].headerSent <= q[0].headerLen && q[0].payloadSent <= |q[0].payload|)
    && forall i :: 1 <= i < |q| ==> q[i] == Fresh(q[i])
  }

  /** The next write a queue asks for. */
  function NextWrite(q: seq<FrameNode>): Option<TxAction> {
    if q == [] then None
    else if q[0].headerSent < q[0].headerLen then Some(WriteHeader)
    else if q[0].payloadSent < |q[0].payload| then Some(WritePayload)
    else None
  }

  /** A queue without its head once the head is finished. */
  function Pruned(q: seq<FrameNode>): seq<FrameNode> {
    if q != [] && Finished(q[0]) then q[1..] else q
  }

  /** Where a new frame goes: a ping or pong overtakes a queue whose head is unsent. */
  function Placed(q: seq<FrameNode>, node: FrameNode): seq<FrameNode> {
    if MayOvertake(node) && (q == [] || q[0] == Fresh(q[0])) then [node] + q else q + [node]
  }

  /** The placement in the terms of the protocol: a ping or pong goes first when nothing is queued or the
      head has not been started, and every other frame goes last. */
  lemma PlacedMeans(q: seq<FrameNode>, node: FrameNode)
    requires WellFormed(node)
    ensures var op := FrameOf(node).opcode;
            Placed(q, node)
            == if (op == 0x9 || op == 0xa) && (q == [] || (q[0].headerSent == 0 && q[0].payloadSent == 0))
               then [node] + q else q + [node]
  {
    KeyFromHeader(node);
    hide WellFormed, FrameOf;
  }

  lemma PlacedIsLegal(cfg: Config, frag: Fragment, queued: seq<FrameNode>,
                      done: seq<FrameNode>, q: seq<FrameNode>, node: FrameNode)
    requires LegalOrder(cfg, frag, queued, done + q) && OnlyHeadStarted(q)
    requires ValidateOutgoing(cfg, frag, node).Ok?
    ensures LegalOrder(cfg, ValidateOutgoing(cfg, frag, node).value, queued + [node], done + Placed(q, node))
    ensures OnlyHeadStarted(Placed(q, node))
  {
    hide LegalOrder, ValidateOutgoing, WellFormed, MayOvertake, OnlyHeadStarted;
    AdmittedIsFresh(cfg, frag, node);
    PlacedKeepsHead(q, node);
    if Placed(q, node) == q + [node] {
      LegalOrderAppend(cfg, frag, queued, done + q, node);
      assert done + Placed(q, node) == (done + q) + [node];
    } else {
      LegalOrderPreempt(cfg, frag, queued, done, q, node);
      assert done + Placed(q, node) == done + [node] + q;
    }
  }

  lemma PlacedKeepsHead(q: seq<FrameNode>, node: FrameNode)
    requires OnlyHeadStarted(q) && node == Fresh(node)
    ensures OnlyHeadStarted(Placed(q, node))
  {
    hide MayOvertake;
    if Placed(q, node) == q + [node] {
      assert q != [] ==> (q + [node])[0] == q[0];
    }
  }

  lemma HeadProgress(cfg: Config, frag: Fragment, queued: seq<FrameNode>,
                     done: seq<FrameNode>, q: seq<FrameNode>, y: FrameNode)
    requires LegalOrder(cfg, frag, queued, done + q) && OnlyHeadStarted(q) && q != []
    requires Fresh(y) == Fresh(q[0]) && y.headerSent <= y.headerLen && y.payloadSent <= |y.payload|
    ensures LegalOrder(cfg, frag, queued, done + ([y] + q[1..]))
    ensures OnlyHeadStarted([y] + q[1..])
  {
    hide LegalOrder;
    LegalOrderProgress(cfg, frag, queued, done + q, done + ([y] + q[1..]));
  }

  class Conn {
    const cfg: Config
    const headerBuf: array<byte>
    const txQueue: Ring<FrameNode>

    var payloadBytesProcessed: nat
    var headerBytesRead: nat
    var headerBytesNeeded: nat
    var decodedHeader: Option<DecodedHeader>
    var rxState: RxState
    var rxFragment: Fragment
    var txFragment: Fragment

    /** Frames sent in full and every frame ever queued, since initialization or the last reset_tx. */
    ghost var txDone: seq<FrameNode>
    ghost var queued: seq<FrameNode>

    constructor (config: Config, storage: array<FrameNode>)
      requires ValidConfig(config)
      ensures cfg == config && fresh(headerBuf) && fresh(txQueue) && txQueue.buffer == storage
      ensures RxValid() && Settled() && AtFrameBoundary() && rxFragment == NO_FRAGMENT
      ensures TxValid() && txDone == queued == Queue() == [] && txFragment == NO_FRAGMENT
    {
      cfg := config;
      headerBuf := new byte[MAX_FRAME_HEADER_LEN];
      txQueue := new Ring(storage);
      payloadBytesProcessed, headerBytesRead, headerBytesNeeded := 0, 0, 2;
      decodedHeader, rxState := None, ReadBaseHeader;
      rxFragment, txFragment := NO_FRAGMENT, NO_FRAGMENT;
      txDone, queued := [], [];
    }

    // -------------------------------------------------------------- receive

    /** The header bytes of the current frame received so far. */
    ghost function HeaderSoFar(): seq<byte>
      reads `headerBytesRead, headerBuf
    {
      if headerBytesRead <= headerBuf.Length then headerBuf[..headerBytesRead] else []
    }

    /** What those bytes mean to the reference parser. */
    ghost function Status(): HeaderStatus
      reads `headerBytesRead, `rxFragment, headerBuf
    {
      Header(cfg, rxFragment, HeaderSoFar())
    }

    /** Each receive state fixes the relation between the bytes read, the bytes needed, the decoded
        header and the payload progress. */
    ghost predicate RxValid()
      reads `payloadBytesProcessed, `headerBytesRead, `headerBytesNeeded, `decodedHeader, `rxState, `rxFragment
      reads headerBuf
    {
      && headerBuf.Length == MAX_FRAME_HEADER_LEN
      && ValidConfig(cfg)
      && Consistent(rxFragment)
      && headerBytesRead <= headerBytesNeeded <= headerBuf.Length
      && match rxState
         case ReadBaseHeader => headerBytesNeeded == 2 && decodedHeader == None && payloadBytesProcessed == 0
         case ReadExtendedHeader =>
           && 2 <= headerBytesRead && headerBytesNeeded == HeaderBytesNeeded(headerBuf[1]) > 2
           && decodedHeader == None && payloadBytesProcessed == 0
         case ReadPayload =>
           && Status().Good? && decodedHeader == Some(Status().decoded)
           && headerBytesRead == headerBytesNeeded == Status().decoded.headerLen
           && payloadBytesProcessed <= Status().decoded.payloadLen
    }

    /** The state variables have caught up with the bytes read. */
    ghost predicate Settled()
      requires RxValid()
      reads `payloadBytesProcessed, `headerBytesRead, `headerBytesNeeded, `decodedHeader, `rxState, `rxFragment
      reads headerBuf
    {
      && (Status().Good? ==> rxState == ReadPayload)
      && (Status().NeedMore? ==> headerBytesNeeded == Status().needed)
      && (rxState == ReadBaseHeader && headerBytesRead == 2 ==> HeaderBytesNeeded(headerBuf[1]) == 2)
    }

    method AcceptHeader() returns (r: Check)
      requires RxValid() && rxState != ReadPayload
      requires 2 <= headerBytesRead == headerBytesNeeded == HeaderBytesNeeded(headerBuf[1])
      modifies `decodedHeader, `rxState
      ensures RxValid() && !Status().NeedMore?
      ensures Status().Bad? ==> r == Fail(Status().error) && rxState == old(rxState)
      ensures Status().Good? ==> r == Pass && rxState == ReadPayload
    {
      var bytes := headerBuf[..headerBytesNeeded];
      assert bytes[1] == headerBuf[1] && bytes == bytes[..headerBytesNeeded];
      match DecodeHeader(bytes)
      case Err(e) => return Fail(e);
      case Ok(decoded) =>
        var valid := ValidateIncoming(cfg, rxFragment, decoded);
        if valid.Fail? { return valid; }
        decodedHeader := Some(decoded);
        rxState := ReadPayload;
        HeaderGood(cfg, rxFragment, HeaderSoFar());
        return Pass;
    }

    /** Drives the receive machine. The action depends only on the bytes received so far and the
        fragment state, neither of which changes here: a rejection is therefore repeated for ever. */
    method AdvanceRx() returns (r: Result<RxAction>)
      requires RxValid()
      modifies `headerBytesNeeded, `decodedHeader, `rxState
      ensures RxValid() && Settled()
      ensures match Status()
              case NeedMore(n) => r == Ok(NeedHeader) && headerBytesRead < headerBytesNeeded == n
              case Bad(e) => r == Err(e) && Rejected()
              case Good(d) =>
                && decodedHeader == Some(d) && rxState == ReadPayload
                && r == Ok(if payloadBytesProcessed == d.payloadLen then EmitFrame else NeedPayload)
      ensures old(Settled()) ==> rxState == old(rxState) && headerBytesNeeded == old(headerBytesNeeded)
                                 && decodedHeader == old(decodedHeader)
    {
      while true
        invariant RxValid()
        invariant rxState == old(rxState) || rxState == ReadPayload
        invariant headerBytesNeeded == old(headerBytesNeeded)
        invariant rxState == old(rxState) ==> decodedHeader == old(decodedHeader)
        invariant old(Settled()) ==> rxState == old(rxState)
        decreases if rxState == ReadPayload then 0 else 1
      {
        match rxState
        case ReadBaseHeader =>
          if headerBytesRead < headerBytesNeeded { return Ok(NeedHeader); }
          headerBytesNeeded := HeaderBytesNeeded(headerBuf[1]);
          if headerBytesNeeded > 2 {
            rxState := ReadExtendedHeader;
            return Ok(NeedHeader);
          }
          var accepted := AcceptHeader();
          if accepted.Fail? { return Err(accepted.error); }
        case ReadExtendedHeader =>
          if headerBytesRead < headerBytesNeeded { return Ok(NeedHeader); }
          var accepted := AcceptHeader();
          if accepted.Fail? { return Err(accepted.error); }
        case ReadPayload =>
          if decodedHeader == None { return Err(ProtocolError); }
          var decoded := decodedHeader.value;
          if payloadBytesProcessed > decoded.payloadLen { return Err(InvalidLength); }
          if decoded.payloadLen - payloadBytesProcessed == 0 { return Ok(EmitFrame); }
          return Ok(NeedPayload);
      }
    }

    /** The current header has been refused. */
    ghost predicate Rejected()
      requires RxValid()
      reads `payloadBytesProcessed, `headerBytesRead, `headerBytesNeeded, `decodedHeader, `rxState, `rxFragment
      reads headerBuf
    {
      Status().Bad? && rxState != ReadPayload && headerBytesRead == headerBytesNeeded
    }

    ghost predicate AtFrameBoundary()
      reads `payloadBytesProcessed, `headerBytesRead, `decodedHeader, `rxState
    {
      rxState == ReadBaseHeader && headerBytesRead == 0 && decodedHeader == None && payloadBytesProcessed == 0
    }

    /** No byte of the next frame has been read; in a valid state the other three tests add nothing. */
    method IsAtFrameBoundary() returns (b: bool)
      requires RxValid()
      ensures b <==> HeaderSoFar() == []
      ensures b == AtFrameBoundary()
    {
      b := rxState == ReadBaseHeader && headerBytesRead == 0 && decodedHeader == None && payloadBytesProcessed == 0;
    }

    method ResetFrameState()
      requires headerBuf.Length == MAX_FRAME_HEADER_LEN && ValidConfig(cfg) && Consistent(rxFragment)
      modifies `payloadBytesProcessed, `headerBytesRead, `headerBytesNeeded, `decodedHeader, `rxState
      ensures RxValid() && Settled() && AtFrameBoundary()
    {
      rxState := ReadBaseHeader;
      headerBytesRead := 0;
      headerBytesNeeded := 2;
      decodedHeader := None;
      payloadBytesProcessed := 0;
    }

    /** Completes a fully received frame; fails, changing nothing, in every other state. */
    method CompleteFrame() returns (r: Check)
      requires RxValid()
      modifies `payloadBytesProcessed, `headerBytesRead, `headerBytesNeeded, `decodedHeader, `rxState, `rxFragment
      ensures RxValid()
      ensures r.Pass? <==> old(rxState) == ReadPayload
                           && old(payloadBytesProcessed) == old(Status().decoded.payloadLen)
      ensures r.Pass? ==> AtFrameBoundary() && Settled()
                          && rxFragment == CommitFragment(old(rxFragment), old(Status().decoded))
      ensures r.Fail? ==> r == Fail(ProtocolError) && unchanged(this)
    {
      if decodedHeader == None { return Fail(ProtocolError); }
      var decoded := decodedHeader.value;
      if payloadBytesProcessed != decoded.payloadLen { return Fail(ProtocolError); }
      // The committed state counts nothing when closed, as before.
      assert Consistent(CommitFragment(rxFragment, decoded)) by {
        IncomingIsNextFragment(cfg, rxFragment, decoded);
      }
      rxFragment := CommitFragment(rxFragment, decoded);
      ResetFrameState();
      return Pass;
    }

    method ResetRx()
      requires RxValid()
      modifies `payloadBytesProcessed, `headerBytesRead, `headerBytesNeeded, `decodedHeader, `rxState, `rxFragment
      ensures RxValid() && Settled() && AtFrameBoundary() && rxFragment == NO_FRAGMENT
    {
      ResetFrameState();
      rxFragment := NO_FRAGMENT;
    }

    method AdvanceHeaderRead(bytes: nat) returns (r: Check)
      requires RxValid()
      modifies `headerBytesRead
      ensures RxValid()
      ensures r.Pass? <==> 0 < bytes <= headerBytesNeeded - old(headerBytesRead)
      ensures headerBytesRead == if r.Pass? then old(headerBytesRead) + bytes else old(headerBytesRead)
      ensures old(Rejected()) ==> r == Fail(InvalidLength)
    {
      if headerBytesRead > headerBytesNeeded { return Fail(InvalidLength); }
      var remaining := headerBytesNeeded - headerBytesRead;
      if bytes == 0 || bytes > remaining { return Fail(InvalidLength); }
      headerBytesRead := headerBytesRead + bytes;
      return Pass;
    }

    /** Copies bytes into the slice handed out by get_header_buffer and reports them as read. */
    method FeedHeader(bytes: seq<byte>) returns (r: Check)
      requires RxValid() && 0 < |bytes| <= headerBytesNeeded - headerBytesRead
      modifies `headerBytesRead, headerBuf
      ensures RxValid() && r == Pass
      ensures headerBytesRead == old(headerBytesRead) + |bytes|
      ensures HeaderSoFar() == old(HeaderSoFar()) + bytes
    {
      hide Header;
      var lo := headerBytesRead;
      assert rxState != ReadPayload;
      CopyInto(headerBuf, lo, bytes);
      assert headerBuf[..lo] == old(headerBuf[..lo]) && headerBuf[lo..lo + |bytes|] == bytes;
      assert headerBuf[..lo + |bytes|] == headerBuf[..lo] + headerBuf[lo..lo + |bytes|];
      assert lo >= 2 ==> headerBuf[1] == headerBuf[..lo][1] == old(headerBuf[1]);
      r := AdvanceHeaderRead(|bytes|);
    }

    method AdvancePayloadRead(bytes: nat) returns (r: Check)
      requires RxValid()
      modifies `payloadBytesProcessed
      ensures RxValid()
      ensures r.Pass? <==> rxState == ReadPayload
                           && 0 < bytes <= Status().decoded.payloadLen - old(payloadBytesProcessed)
      ensures payloadBytesProcessed
              == if r.Pass? then old(payloadBytesProcessed) + bytes else old(payloadBytesProcessed)
    {
      if decodedHeader == None { return Fail(ProtocolError); }
      var decoded := decodedHeader.value;
      if payloadBytesProcessed > decoded.payloadLen { return Fail(InvalidLength); }
      var remaining := decoded.payloadLen - payloadBytesProcessed;
      if bytes == 0 || bytes > remaining { return Fail(InvalidLength); }
      payloadBytesProcessed := payloadBytesProcessed + bytes;
      return Pass;
    }

    // -------------------------------------------------------------- transmit

    ghost function Queue(): seq<FrameNode>
      requires txQueue.Valid()
      reads txQueue, txQueue.buffer
    {
      txQueue.Contents()
    }

    /** Finished frames followed by queued frames are a legal wire order of everything queued, and
        only the head of the queue has been started. */
    ghost predicate TxValid()
      reads `txFragment, `txDone, `queued, txQueue, txQueue.buffer
    {
      && txQueue.Valid()
      && LegalOrder(cfg, txFragment, queued, txDone + Queue())
      && OnlyHeadStarted(Queue())
      && (forall i :: 0 <= i < |txDone| ==> Finished(txDone[i]))
    }

    /** Moves a finished head to the history and names the next write of the frame behind it. */
    method AdvanceTx() returns (r: Option<TxAction>)
      requires TxValid()
      modifies `txDone, txQueue`head, txQueue`len
      ensures TxValid()
      ensures Queue() == Pruned(old(Queue()))
      ensures txDone == old(txDone) + old(Queue())[..|old(Queue())| - |Queue()|]
      ensures txDone + Queue() == old(txDone + Queue())
      ensures r == NextWrite(Queue()) && (r == None ==> Queue() == [])
    {
      hide LegalOrder, WellFormed, AllWellFormed, Ring.Contents, Ring.Slot;
      ghost var q, done := Queue(), txDone;
      LegalOrderSound(cfg, txFragment, queued, txDone + q);
      while true
        invariant TxValid() && txDone + Queue() == done + q
        invariant (Queue() == q && txDone == done)
                  || (q != [] && Finished(q[0]) && Queue() == q[1..] && txDone == done + [q[0]])
        decreases txQueue.len
      {
        var front := txQueue.Front();
        if front == None { return None; }
        var node := front.value;
        if node.headerSent < node.headerLen { return Some(WriteHeader); }
        if node.payloadSent < |node.payload| { return Some(WritePayload); }
        ghost var before := txDone + Queue();
        assert Queue() == q by {
          if Queue() == q[1..] { NodeHasHeader(done, q, 1); }
        }
        txQueue.DiscardFront();
        txDone := txDone + [node];
        assert before == txDone + Queue();
      }
    }

    lemma NodeHasHeader(done: seq<FrameNode>, q: seq<FrameNode>, i: nat)
      requires AllWellFormed(done + q) && i < |q|
      ensures q[i].headerLen >= 2
    {
      assert q[i] == (done + q)[|done| + i];
    }

    method AdvanceTxHeader(bytes: nat) returns (r: Check)
      requires TxValid()
      modifies txQueue.buffer
      ensures TxValid()
      ensures r.Pass? <==> old(Queue()) != []
                           && 0 < bytes <= old(Queue())[0].headerLen - old(Queue())[0].headerSent
      ensures Queue() == if r.Fail? then old(Queue())
                         else [old(Queue())[0].(headerSent := old(Queue())[0].headerSent + bytes)] + old(Queue())[1..]
    {
      hide LegalOrder, Ring.Contents, Ring.Slot;
      var front := txQueue.Front();
      if front == None { return Fail(InvalidLength); }
      var node := front.value;
      if node.headerSent > node.headerLen { return Fail(InvalidLength); }
      var remaining := node.headerLen - node.headerSent;
      if bytes == 0 || bytes > remaining { return Fail(InvalidLength); }
      var advanced := node.(headerSent := node.headerSent + bytes);
      HeadProgress(cfg, txFragment, queued, txDone, Queue(), advanced);
      txQueue.SetFront(advanced);
      return Pass;
    }

    method AdvanceTxPayload(bytes: nat) returns (r: Check)
      requires TxValid()
      modifies txQueue.buffer
      ensures TxValid()
      ensures r.Pass? <==> old(Queue()) != []
                           && 0 < bytes <= |old(Queue())[0].payload| - old(Queue())[0].payloadSent
      ensures Queue() == if r.Fail? then old(Queue())
                         else [old(Queue())[0].(payloadSent := old(Queue())[0].payloadSent + bytes)] + old(Queue())[1..]
    {
      hide LegalOrder, Ring.Contents, Ring.Slot;
      var front := txQueue.Front();
      if front == None { return Fail(InvalidLength); }
      var node := front.value;
      if node.payloadSent > |node.payload| { return Fail(InvalidLength); }
      var remaining := |node.payload| - node.payloadSent;
      if bytes == 0 || bytes > remaining { return Fail(InvalidLength); }
      var advanced := node.(payloadSent := node.payloadSent + bytes);
      HeadProgress(cfg, txFragment, queued, txDone, Queue(), advanced);
      txQueue.SetFront(advanced);
      return Pass;
    }

    /** The unsent header bytes of the head node. */
    method GetTxHeaderBuffer() returns (bytes: seq<byte>)
      requires TxValid()
      ensures Queue() == [] ==> bytes == []
      ensures Queue() != [] ==> Queue()[0].headerSent <= Queue()[0].headerLen <= MAX_FRAME_HEADER_LEN
                                && bytes == Queue()[0].headerBuf[Queue()[0].headerSent..Queue()[0].headerLen]
    {
      ghost var q := Queue();
      LegalOrderSound(cfg, txFragment, queued, txDone + q);
      hide LegalOrder, Ring.Contents, Ring.Slot;
      assert q != [] ==> q[0] == (txDone + q)[|txDone|];
      var front := txQueue.Front();
      if front == None { return []; }
      return front.value.headerBuf[front.value.headerSent..front.value.headerLen];
    }

    /** The unsent plaintext payload of the head node. */
    method GetTxPayload() returns (r: Result<seq<byte>>)
      requires TxValid()
      ensures Queue() == [] ==> r == Err(InvalidLength)
      ensures Queue() != [] ==> Queue()[0].payloadSent <= |Queue()[0].payload|
                                && r == Ok(Queue()[0].payload[Queue()[0].payloadSent..])
    {
      hide LegalOrder, Ring.Contents, Ring.Slot;
      var front := txQueue.Front();
      if front == None { return Err(InvalidLength); }
      if front.value.payloadSent > |front.value.payload| { return Err(InvalidLength); }
      return Ok(front.value.payload[front.value.payloadSent..]);
    }

    /** The absolute payload offset of the head node. */
    method GetTxPayloadOffset() returns (r: Result<nat>)
      requires TxValid()
      ensures r == if Queue() == [] then Err(InvalidLength) else Ok(Queue()[0].payloadSent)
    {
      hide LegalOrder, Ring.Contents, Ring.Slot;
      var front := txQueue.Front();
      if front == None { return Err(InvalidLength); }
      if front.value.payloadSent > |front.value.payload| { return Err(InvalidLength); }
      return Ok(front.value.payloadSent);
    }

    /** The masking key of the head node, read back from its serialized header. */
    method GetTxMaskingKey() returns (r: Result<Option<MaskingKey>>)
      requires TxValid()
      ensures Queue() == [] ==> r == Err(InvalidLength)
      ensures Queue() != [] ==> WellFormed(Queue()[0]) && r == Ok(NodeKey(Queue()[0]))
    {
      ghost var q := Queue();
      LegalOrderSound(cfg, txFragment, queued, txDone + q);
      hide LegalOrder, Ring.Contents, Ring.Slot;
      assert q != [] ==> q[0] == (txDone + q)[|txDone|];
      var front := txQueue.Front();
      if front == None { return Err(InvalidLength); }
      KeyFromHeader(front.value);
      return TxMaskingKey(front.value);
    }

    method TxPending() returns (n: nat)
      requires txQueue.Valid()
      ensures n == |Queue()|
    {
      n := txQueue.len;
    }

    /** Drops the queue and any open fragment; a new history begins. */
    method ResetTx()
      requires TxValid()
      modifies `txFragment, `txDone, `queued, txQueue`head, txQueue`tail, txQueue`len
      ensures TxValid() && Queue() == [] && txDone == [] && queued == [] && txFragment == NO_FRAGMENT
    {
      hide LegalOrder, Ring.Contents, Ring.Slot;
      txQueue.Clear();
      txFragment := NO_FRAGMENT;
      txDone, queued := [], [];
      assert txDone + Queue() == [];
      LegalOrderEmpty(cfg);
    }

    method ControlCanPreempt() returns (b: bool)
      requires txQueue.Valid()
      ensures b <==> Queue() == [] || Queue()[0] == Fresh(Queue()[0])
    {
      var head := txQueue.Front();
      if head == None { return true; }
      return head.value.headerSent == 0 && head.value.payloadSent == 0;
    }

    /** Validates a node and appends it, or lets a ping or pong overtake an unsent queue. Any failure
        leaves queue and fragment state as they were. */
    method QueueFrame(node: FrameNode) returns (r: Check)
      requires TxValid()
      modifies `txFragment, `queued, txQueue`head, txQueue`tail, txQueue`len, txQueue.buffer
      ensures TxValid()
      ensures var next := ValidateOutgoing(cfg, old(txFragment), node);
              && (next.Err? ==> r == Fail(next.error))
              && (next.Ok? && old(|Queue()|) >= txQueue.buffer.Length ==> r == Fail(QueueFull))
              && (next.Ok? && old(|Queue()|) < txQueue.buffer.Length ==> r == Pass)
              && (r.Pass? ==> next.Ok? && txFragment == next.value && queued == old(queued) + [node])
      ensures r.Fail? ==> Queue() == old(Queue()) && txFragment == old(txFragment) && queued == old(queued)
      ensures r.Pass? ==> Queue() == Placed(old(Queue()), node)
      ensures r.Pass? ==>
                && WellFormed(node)
                && var op, q := FrameOf(node).opcode, old(Queue());
                   Queue() == if (op == 0x9 || op == 0xa)
                                 && (q == [] || (q[0].headerSent == 0 && q[0].payloadSent == 0))
                              then [node] + q else q + [node]
    {
      hide LegalOrder, ValidateOutgoing, OnlyHeadStarted, WellFormed, FrameOf, Ring.Contents, Ring.Slot;
      var next := ValidateOutgoing(cfg, txFragment, node);
      if next.Err? { return Fail(next.error); }
      PlacedIsLegal(cfg, txFragment, queued, txDone, Queue(), node);
      var preempt := false;
      if MayOvertake(node) { preempt := ControlCanPreempt(); }
      var ok;
      if preempt {
        ok := txQueue.PushFront(node);
      } else {
        ok := txQueue.PushBack(node);
      }
      if !ok { return Fail(QueueFull); }
      txFragment := next.value;
      queued := queued + [node];
      AdmittedIsFresh(cfg, old(txFragment), node);
      PlacedMeans(old(Queue()), node);
      return Pass;
    }
  }

  /** Creates a connection unless a limit is beyond the wire format (src/event.zig:79-89). */
  method Init(config: Config, storage: array<FrameNode>) returns (r: Result<Conn>)
    ensures r.Ok? <==>
              config.maxFrameLen <= 0x7fff_ffff_ffff_ffff && config.maxMessageLen <= 0x7fff_ffff_ffff_ffff
    ensures r.Err? ==> r.error == InvalidLength
    ensures r.Ok? ==> var c := r.value;
              && fresh(c) && fresh(c.headerBuf) && fresh(c.txQueue)
              && c.cfg == config && c.txQueue.buffer == storage
              && c.RxValid() && c.Settled() && c.AtFrameBoundary() && c.rxFragment == NO_FRAGMENT
              && c.TxValid() && c.txFragment == NO_FRAGMENT && c.txDone == c.queued == c.Queue() == []
  {
    if config.maxFrameLen > MAX_PAYLOAD_LEN { return Err(InvalidLength); }
    if config.maxMessageLen > MAX_PAYLOAD_LEN { return Err(InvalidLength); }
    var c := new Conn(config, storage);
    return Ok(c);
  }
}
