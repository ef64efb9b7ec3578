/** Theorems about whole runs of one endpoint and of two endpoints joined by a byte channel. */
module EndToEnd {
  import opened Types
  import opened Mask
  import opened Protocol
  import opened Stream
  import opened Wire
  import opened Delivery
  import opened Endpoint

  /** The frames an endpoint has delivered in full. */
  ghost function DeliveredFrames(e: Endpoint): seq<Frame>
    reads e`chunks
  {
    var a := Assemble(e.chunks);
    if a.Some? then a.value.frames else []
  }

  /** Split independence: however the transport cut the stream, the chunks delivered so far reassemble,
      with sound metadata, to exactly the frames the one-shot parser finds in the bytes consumed; the
      fragment state is the open message of those frames and they obey the message grammar. */
  lemma ReceivedIsParsed(e: Endpoint)
    requires e.RxInv()
    ensures Assemble(e.chunks).Some? && forall i :: 0 <= i < |e.chunks| ==> Contiguous(e.chunks, i)
    ensures Parse(e.conn.cfg, NO_FRAGMENT, e.done + e.current)
         == Parsed(DeliveredFrames(e), e.conn.rxFragment, e.current)
    ensures Tracks(e.conn.cfg, e.conn.rxFragment, DeliveredFrames(e))
    ensures e.received == e.taken + e.Staged() && |e.taken| == |e.done| + |e.current| + |e.lost|
    ensures e.lost == [] ==> e.received == e.done + e.current + e.Staged()
  {
    var cfg := e.conn.cfg;
    RxFacts(e);
    hide Endpoint.RxInv, Parse, Header, Tracks, Agrees, Assemble, Contiguous;
    DeliveredIsParsed(cfg, e.conn.rxFragment, e.conn.headerBytesRead, e.done, e.current, e.chunks);
    ChunkMetadata(e.chunks);
    TracksNothing(cfg);
    ParsedIsGrammatical(cfg, NO_FRAGMENT, [], e.done + e.current);
    assert [] + DeliveredFrames(e) == DeliveredFrames(e);
  }

  lemma RxFacts(e: Endpoint)
    requires e.RxInv()
    ensures Agrees(e.conn.cfg, e.conn.rxFragment, e.conn.headerBytesRead, e.done, e.current, e.chunks)
    ensures e.conn.headerBytesRead <= |e.current|
    ensures var s := Header(e.conn.cfg, e.conn.rxFragment, e.current[..e.conn.headerBytesRead]);
            && (s.Good? ==> s.decoded.headerLen == e.conn.headerBytesRead
                            && |e.current| < e.conn.headerBytesRead + s.decoded.payloadLen)
            && (!s.Good? ==> |e.current| == e.conn.headerBytesRead)
    ensures e.received == e.taken + e.Staged() && |e.taken| == |e.done| + |e.current| + |e.lost|
    ensures e.lost == [] ==> e.received == e.done + e.current + e.Staged()
  {
    hide Agrees, Header;
    assert e.done + e.current + [] == e.done + e.current;
  }

  lemma TracksNothing(cfg: Config)
    ensures Tracks(cfg, NO_FRAGMENT, [])
  {
  }

  /** The frames of an endpoint's history in wire order: finished ones first, then the queue. */
  ghost function History(e: Endpoint): seq<FrameNode>
    reads e.conn`txDone, e.conn.txQueue, e.conn.txQueue.buffer
  {
    e.conn.txDone + e.Queued()
  }

  /** The accepted bytes are a prefix of whole serialized frames in a legal order of everything queued,
      cut inside the head at most: frames never interleave. Exactly the frames queued are in that order, and
      all that are neither ping nor pong are in the order they were queued. */
  lemma SentIsWholeFrames(e: Endpoint)
    requires e.TxInv()
    ensures AllWellFormed(History(e)) && AllWellFormed(e.conn.txDone)
    ensures LegalOrder(e.conn.cfg, e.conn.txFragment, e.conn.queued, History(e))
    ensures AllWellFormed(e.conn.queued)
    ensures Others(FramesOf(History(e))) == Others(FramesOf(e.conn.queued))
    ensures multiset(FramesOf(History(e))) == multiset(FramesOf(e.conn.queued))
    ensures e.wire <= Images(History(e))
    ensures e.Queued() == [] ==> e.wire == Images(e.conn.txDone)
    ensures e.Queued() != [] ==>
              var x := e.Queued()[0];
              && x.headerSent + x.payloadSent < |Image(x)|
              && e.wire == Images(e.conn.txDone) + Image(x)[..x.headerSent + x.payloadSent]
  {
    LegalOrderMeans(e.conn.cfg, e.conn.txFragment, e.conn.queued, History(e));
    hide LegalOrder, WellFormed, Images, Image, Others;
    WireIsPrefix(e.conn.txDone, e.Queued(), e.wire);
  }

  /** End-to-end identity. Whatever part of the sender's bytes has reached a peer with the opposite role
      and the same limits: the peer has rejected nothing and has delivered a prefix of the sender's
      frames in wire order; once it has consumed all bytes accepted so far, in particular once it has
      received them and reports OK, it has delivered exactly the frames sent in full, opcode, fin and
      payload. */
  lemma EndToEndIdentity(a: Endpoint, b: Endpoint)
    requires a.TxInv() && b.RxInv() && Peers(a.conn.cfg, b.conn.cfg)
    requires b.lost == [] && b.received <= a.wire
    ensures b.conn.RxValid() && !b.conn.Rejected()
    ensures AllWellFormed(History(a)) && DeliveredFrames(b) <= FramesOf(History(a))
    ensures AllWellFormed(a.conn.txDone)
    ensures b.done + b.current == a.wire ==> DeliveredFrames(b) == FramesOf(a.conn.txDone)
    ensures b.received == a.wire && b.Staged() == [] ==> DeliveredFrames(b) == FramesOf(a.conn.txDone)
  {
    var tx, rx, line, got := a.conn.cfg, b.conn.cfg, History(a), b.done + b.current;
    SentIsWholeFrames(a);
    ReceivedIsParsed(b);
    assert Accept(tx, line).Ok?;
    RejectedByParser(b);
    hide LegalOrder, WellFormed, Image, Images, Parse, ParseOne, Accept, Tracks;
    assert got <= b.received;
    PrefixParses(tx, rx, line, got);
    if got == a.wire { FinishedAreDelivered(tx, rx, a.conn.txDone, a.Queued(), a.wire); }
  }

  /** A rejected connection is one on which the reference parser rejects the frame in progress. */
  lemma RejectedByParser(b: Endpoint)
    requires b.RxInv()
    ensures b.conn.Rejected() ==> ParseOne(b.conn.cfg, b.conn.rxFragment, b.current).Reject?
  {
    if b.conn.Rejected() { assert b.current == b.conn.HeaderSoFar(); }
  }

  // ---------------------------------------------------------------- runs

  /** A call on the public interface. DoRecv carries the frames the application queues from on_frame. */
  datatype Call =
    | DoRecv(reaction: seq<FrameNode>)
    | DoSend
    | DoQueue(node: FrameNode)
    | DoReset
    | DoResetTx

  method Perform(e: Endpoint, call: Call)
    requires e.Inv()
    modifies e.Footprint(), e.thread
    ensures e.Inv() && e.Busy() == old(e.Busy())
  {
    hide Endpoint.RxInv, Endpoint.TxInv, Endpoint.SameRx, ValidateOutgoing;
    var rc;
    match call
    case DoRecv(reaction) => rc := e.Recv(reaction);
    case DoSend => rc := e.Send();
    case DoQueue(node) => rc := e.QueueFrame(node);
    case DoReset => rc := e.Reset();
    case DoResetTx => rc := e.ResetTx();
  }

  /** b has rejected nothing and delivered a prefix of a's frames, and all finished ones once it has
      consumed, or received and unstaged, everything a's transport accepted. */
  ghost predicate InStep(a: Endpoint, b: Endpoint)
    reads a, a.conn, a.conn.txQueue, a.conn.txQueue.buffer
    reads b, b.conn, b.conn.headerBuf, b.rxStage
  {
    && b.conn.RxValid() && !b.conn.Rejected()
    && AllWellFormed(History(a)) && DeliveredFrames(b) <= FramesOf(History(a))
    && AllWellFormed(a.conn.txDone)
    && (b.done + b.current == a.wire || (b.received == a.wire && b.Staged() == []) ==>
          DeliveredFrames(b) == FramesOf(a.conn.txDone))
  }

  /** Any interleaving of calls on two peers ends in a state where the end-to-end identity holds in the
      current epoch: if what b received since its last reset is part of what a sent since its last
      reset_tx, b is in step with a. */
  method AnyRun(a: Endpoint, b: Endpoint, calls: seq<(bool, Call)>)
    requires a.Inv() && b.Inv() && Peers(a.conn.cfg, b.conn.cfg)
    requires a.thread == b.thread && a.Footprint() !! b.Footprint()
    modifies a.Footprint(), b.Footprint(), a.thread
    ensures a.Inv() && b.Inv()
    ensures b.lost == [] && b.received <= a.wire ==> InStep(a, b)
  {
    hide Endpoint.Inv;
    for i := 0 to |calls|
      invariant a.Inv() && b.Inv()
    {
      if calls[i].0 {
        Perform(a, calls[i].1);
      } else {
        Perform(b, calls[i].1);
      }
    }
    Conclude(a, b);
  }

  lemma Conclude(a: Endpoint, b: Endpoint)
    requires a.Inv() && b.Inv() && Peers(a.conn.cfg, b.conn.cfg)
    ensures b.lost == [] && b.received <= a.wire ==> InStep(a, b)
  {
    hide Endpoint.RxInv, Endpoint.TxInv;
    if b.lost == [] && b.received <= a.wire { EndToEndIdentity(a, b); }
  }

  /** The same from scratch: two connections initialized on one thread over different transports and
      storages, then any interleaving of calls. */
  method ConnectedRun(a: Config, b: Config, ta: Transport, tb: Transport, sa: array<FrameNode>, sb: array<FrameNode>,
                      th: Thread, p: Platform, calls: seq<(bool, Call)>)
    returns (ea: Option<Endpoint>, eb: Option<Endpoint>)
    requires Peers(a, b) && ta != tb && sa != sb
    modifies ta, tb, sa, sb, th
    ensures old(th.callbackDepth) == 0 && ValidConfig(a) <==> ea.Some? && eb.Some?
    ensures ea.Some? && eb.Some? ==>
              && ea.value.Inv() && eb.value.Inv() && ea.value.conn.cfg == a && eb.value.conn.cfg == b
              && ea.value.transport == ta && eb.value.transport == tb
              && (eb.value.lost == [] && eb.value.received <= ea.value.wire ==> InStep(ea.value, eb.value))
  {
    hide Endpoint.Inv, InStep;
    ea := Init(a, ta, th, p, sa, true);
    eb := Init(b, tb, th, p, sb, true);
    if ea.Some? && eb.Some? {
      AnyRun(ea.value, eb.value, calls);
    }
  }
}
