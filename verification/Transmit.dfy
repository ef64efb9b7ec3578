/** One send call as a function of what the transport will accept: the reference that the callback driver
    refines (src/c_api.zig:466-554). */
module Transmit {
  import opened Protocol
  import opened Receive

  /** What the k-th write answers when it is offered a number of bytes. */
  type Writer = (nat, nat) -> int

  /** The bytes the next write offers: the rest of the header, of the current 4096 bytes of a masked
      payload, or of an unmasked payload up to 65536 bytes and the 262144 bytes of the call. */
  function Offer(x: FrameNode, masked: bool, sent: nat): nat {
    if x.headerSent < x.headerLen then x.headerLen - x.headerSent
    else if |x.payload| <= x.payloadSent then 0
    else
      var rest := |x.payload| - x.payloadSent;
      if masked then Min(rest, 4096 - x.payloadSent % 4096)
      else Min(rest, Min(65536, if sent < 262144 then 262144 - sent else 0))
  }

  /** The head after n of these bytes were accepted. */
  function Advanced(x: FrameNode, n: nat): FrameNode {
    if x.headerSent < x.headerLen then x.(headerSent := x.headerSent + n)
    else x.(payloadSent := x.payloadSent + n)
  }

  function Written(q: seq<FrameNode>, n: nat): seq<FrameNode> {
    if q == [] then [] else [Advanced(q[0], n)] + q[1..]
  }

  /** The queue without a finished head. */
  function Unfinished(q: seq<FrameNode>): seq<FrameNode> {
    if q != [] && q[0].headerLen <= q[0].headerSent && |q[0].payload| <= q[0].payloadSent then q[1..] else q
  }

  /** Return code, queue, writes and bytes of a call. */
  datatype SendPlan = SendPlan(rc: ReturnCode, queue: seq<FrameNode>, calls: nat, sent: nat)

  /** The rest of a call after `writes` writes and `sent` bytes. */
  function PlanSend(write: Writer, masked: bool, q: seq<FrameNode>, calls: nat, writes: nat, sent: nat): SendPlan
    decreases 64 - writes
  {
    var queue := Unfinished(q);
    if queue == [] then SendPlan(RcOk, [], calls, sent)
    else if writes >= 64 || sent >= 262144 then SendPlan(RcProgress, queue, calls, sent)
    else
      var size := Offer(queue[0], masked, sent);
      var n := write(calls, size);
      match Classify(n, size)
      case WouldBlock => SendPlan(RcOk, queue, calls + 1, sent)
      case Fault => SendPlan(RcCallbackError, queue, calls + 1, sent)
      case Moved => PlanSend(write, masked, Written(queue, n), calls + 1, writes + 1, sent + n)
  }

  /** One iteration of the send loop. */
  lemma PlanSendStep(write: Writer, masked: bool, q: seq<FrameNode>, calls: nat, writes: nat, sent: nat)
    ensures var queue := Unfinished(q);
            PlanSend(write, masked, q, calls, writes, sent)
            == if queue == [] then SendPlan(RcOk, [], calls, sent)
               else if writes >= 64 || sent >= 262144 then SendPlan(RcProgress, queue, calls, sent)
               else
                 var size := Offer(queue[0], masked, sent);
                 var n := write(calls, size);
                 if Classify(n, size) == Moved
                 then PlanSend(write, masked, Written(queue, n), calls + 1, writes + 1, sent + n)
                 else SendPlan(if n == 0 then RcOk else RcCallbackError, queue, calls + 1, sent)
  {
  }

  /** Progress means that a budget is used up while frames remain, OK that nothing remains or the transport
      has just declined, and every write moves at least a byte until then. */
  lemma {:induction false} PlanSendBounds(write: Writer, masked: bool, q: seq<FrameNode>, calls: nat, writes: nat,
                                          sent: nat)
    requires writes <= 64
    ensures var p := PlanSend(write, masked, q, calls, writes, sent);
            && calls <= p.calls <= calls + 64 - writes
            && p.sent >= sent
            && (p.rc == RcProgress ==> p.queue != [] && (p.calls == calls + 64 - writes || p.sent >= 262144)
                                       && p.sent - sent >= p.calls - calls)
            && (p.rc == RcOk && p.queue != [] ==> p.calls > calls && p.sent - sent >= p.calls - calls - 1)
            && p.rc in {RcOk, RcProgress, RcCallbackError}
    decreases 64 - writes
  {
    var queue := Unfinished(q);
    if queue != [] && writes < 64 && sent < 262144 {
      var size := Offer(queue[0], masked, sent);
      var n := write(calls, size);
      if Classify(n, size) == Moved {
        PlanSendBounds(write, masked, Written(queue, n), calls + 1, writes + 1, sent + n);
      }
    }
  }
}
