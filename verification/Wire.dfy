/** The wire image of queued frames and what a peer's parser makes of it. */
module Wire {
  import opened Types
  import opened Codec
  import opened Mask
  import opened Protocol
  import opened Stream

  /** The masking key of a serialized header (src/event.zig:273-283). */
  function TxMaskingKey(node: FrameNode): Result<Option<MaskingKey>>
    requires node.headerLen <= MAX_FRAME_HEADER_LEN
  {
    if node.headerLen < 2 then Err(InvalidLength)
    else if node.headerBuf[1] < 128 then Ok(None)
    else if node.headerLen < 2 + MASKING_KEY_LEN then Err(InvalidLength)
    else Ok(Some(node.headerBuf[node.headerLen - MASKING_KEY_LEN..node.headerLen]))
  }

  function Fresh(node: FrameNode): FrameNode {
    node.(headerSent := 0, payloadSent := 0)
  }

  /** The node's header decodes, and describes this node. */
  predicate WellFormed(node: FrameNode) {
    && 2 <= node.headerLen <= MAX_FRAME_HEADER_LEN
    && NodeHeader(node).Ok?
    && NodeHeader(node).value.headerLen == node.headerLen
    && NodeHeader(node).value.payloadLen == |node.payload|
  }

  function NodeKey(node: FrameNode): Option<MaskingKey>
    requires WellFormed(node)
  {
    NodeHeader(node).value.key
  }

  /** Header, then the payload masked from offset zero. */
  function Image(node: FrameNode): (s: seq<byte>)
    requires WellFormed(node)
    ensures |s| == node.headerLen + |node.payload|
  {
    node.headerBuf[..node.headerLen] + MaskOpt(node.payload, NodeKey(node), 0)
  }

  function FrameOf(node: FrameNode): Frame
    requires WellFormed(node)
  {
    var d := NodeHeader(node).value;
    Frame(d.header.opcode, d.header.fin, node.payload)
  }

  ghost predicate AllWellFormed(nodes: seq<FrameNode>) {
    forall i :: 0 <= i < |nodes| ==> WellFormed(nodes[i])
  }

  function Images(nodes: seq<FrameNode>): seq<byte>
    requires AllWellFormed(nodes)
  {
    if nodes == [] then [] else Images(nodes[..|nodes| - 1]) + Image(nodes[|nodes| - 1])
  }

  function FramesOf(nodes: seq<FrameNode>): (f: seq<Frame>)
    requires AllWellFormed(nodes)
    ensures |f| == |nodes|
  {
    seq(|nodes|, i requires 0 <= i < |nodes| => FrameOf(nodes[i]))
  }

  /** Runs the sender's admission rules over frames in wire order, ignoring progress. */
  function Accept(cfg: Config, nodes: seq<FrameNode>): (r: Result<Fragment>)
    ensures r.Ok? ==> AllWellFormed(nodes)
  {
    if nodes == [] then Ok(NO_FRAGMENT)
    else
      var prior := Accept(cfg, nodes[..|nodes| - 1]);
      if prior.Err? then prior else ValidateOutgoing(cfg, prior.value, Fresh(nodes[|nodes| - 1]))
  }

  lemma AcceptPush(cfg: Config, nodes: seq<FrameNode>, node: FrameNode)
    ensures Accept(cfg, nodes + [node])
         == if Accept(cfg, nodes).Err? then Accept(cfg, nodes)
            else ValidateOutgoing(cfg, Accept(cfg, nodes).value, Fresh(node))
  {
    var all := nodes + [node];
    assert all[..|all| - 1] == nodes && all[|all| - 1] == node;
  }

  lemma {:induction false} AcceptPrefix(cfg: Config, a: seq<FrameNode>, b: seq<FrameNode>)
    requires Accept(cfg, a + b).Ok?
    ensures Accept(cfg, a).Ok?
    decreases |b|
  {
    hide ValidateOutgoing;
    if b == [] {
      assert a + b == a;
    } else {
      var front, last := b[..|b| - 1], b[|b| - 1];
      assert a + b == (a + front) + [last];
      AcceptPush(cfg, a + front, last);
      AcceptPrefix(cfg, a, front);
    }
  }

  /** Progress counters play no part in admission. */
  lemma {:induction false} AcceptIgnoresProgress(cfg: Config, a: seq<FrameNode>, b: seq<FrameNode>)
    requires |a| == |b| && forall i :: 0 <= i < |a| ==> Fresh(a[i]) == Fresh(b[i])
    ensures Accept(cfg, a) == Accept(cfg, b)
  {
    if a != [] { AcceptIgnoresProgress(cfg, a[..|a| - 1], b[..|b| - 1]); }
  }

  /** A control frame is admitted in every fragment state or in none, and never changes it. */
  lemma ControlKeepsFragment(cfg: Config, frag: Fragment, other: Fragment, node: FrameNode)
    requires ValidateOutgoing(cfg, frag, node).Ok? && IsControl(FrameOf(node).opcode)
    ensures ValidateOutgoing(cfg, other, node) == Ok(other)
  {
  }

  /** A control frame that passes on its own may be inserted at any frame boundary. */
  lemma {:induction false} AcceptInsertControl(cfg: Config, before: seq<FrameNode>, node: FrameNode,
                                               after: seq<FrameNode>, frag: Fragment)
    requires Accept(cfg, before + after).Ok?
    requires ValidateOutgoing(cfg, frag, Fresh(node)).Ok? && IsControl(FrameOf(Fresh(node)).opcode)
    ensures Accept(cfg, before + [node] + after) == Accept(cfg, before + after)
    decreases |after|
  {
    hide ValidateOutgoing;
    if after == [] {
      assert before + after == before && before + [node] + after == before + [node];
      AcceptPush(cfg, before, node);
      ControlKeepsFragment(cfg, frag, Accept(cfg, before).value, Fresh(node));
    } else {
      var front, last := after[..|after| - 1], after[|after| - 1];
      assert before + after == (before + front) + [last];
      assert before + [node] + after == (before + [node] + front) + [last];
      AcceptPush(cfg, before + front, last);
      AcceptInsertControl(cfg, before, node, front, frag);
      AcceptPush(cfg, before + [node] + front, last);
    }
  }

  lemma ImagesPush(nodes: seq<FrameNode>, node: FrameNode)
    requires AllWellFormed(nodes) && WellFormed(node)
    ensures AllWellFormed(nodes + [node])
    ensures Images(nodes + [node]) == Images(nodes) + Image(node)
    ensures FramesOf(nodes + [node]) == FramesOf(nodes) + [FrameOf(node)]
  {
    var all := nodes + [node];
    assert all[..|all| - 1] == nodes && all[|all| - 1] == node;
  }

  /** The key taken from the serialized header is the key the decoder reports. */
  lemma KeyFromHeader(node: FrameNode)
    requires WellFormed(node)
    ensures TxMaskingKey(node) == Ok(NodeKey(node))
    ensures FrameOf(node).opcode == node.headerBuf[0] % 16
  {
    var buf := node.headerBuf[..node.headerLen];
    DecodeEncode(buf);
    var d := NodeHeader(node).value;
    if d.key.Some? {
      DecodedFields(HeaderFromBytes(buf[0], buf[1]), buf);
      var n := node.headerLen;
      assert buf[..n] == buf;
      assert buf == ([buf[0], buf[1]] + ExtendedLength(d.payloadLen)) + d.key.value;
      assert buf[n - 4..] == d.key.value;
      assert node.headerBuf[n - 4..n] == buf[n - 4..];
    }
  }

  lemma AcceptConsistent(cfg: Config, nodes: seq<FrameNode>)
    requires Accept(cfg, nodes).Ok?
    ensures Consistent(Accept(cfg, nodes).value)
  {
    hide DecodeHeader;
    if nodes != [] { AcceptConsistent(cfg, nodes[..|nodes| - 1]); }
  }

  /** The peer's header verdict on any part of a frame's image that covers the header. */
  lemma ImageHeader(tx: Config, rx: Config, frag: Fragment, node: FrameNode, bytes: seq<byte>)
    requires Peers(tx, rx) && Consistent(frag)
    requires ValidateOutgoing(tx, frag, Fresh(node)).Ok?
    requires node.headerLen <= |bytes| && bytes[..node.headerLen] == node.headerBuf[..node.headerLen]
    ensures Header(rx, frag, bytes) == Good(NodeHeader(node).value)
  {
    AdmittedByPeer(tx, rx, frag, Fresh(node));
    var n := node.headerLen;
    DecodeEncode(bytes[..n]);
    assert bytes[1] == bytes[..n][1];
  }

  /** The peer recovers exactly the queued frame from its image. */
  lemma ImageParses(tx: Config, rx: Config, frag: Fragment, node: FrameNode)
    requires Peers(tx, rx) && Consistent(frag)
    requires ValidateOutgoing(tx, frag, Fresh(node)).Ok?
    ensures WellFormed(node)
    ensures ParseOne(rx, frag, Image(node))
         == Done(FrameOf(node), |Image(node)|, ValidateOutgoing(tx, frag, Fresh(node)).value)
  {
    AdmittedByPeer(tx, rx, frag, Fresh(node));
    var bytes, d, n := Image(node), NodeHeader(node).value, node.headerLen;
    assert bytes[..n] == node.headerBuf[..n];
    ImageHeader(tx, rx, frag, node, bytes);
    assert bytes[n..|bytes|] == MaskOpt(node.payload, d.key, 0);
    MaskOptInvolution(node.payload, d.key, 0);
  }

  /** A frame that is not fully on the wire yet is neither delivered nor rejected. */
  lemma PartialImageWaits(tx: Config, rx: Config, frag: Fragment, node: FrameNode, k: nat)
    requires Peers(tx, rx) && Consistent(frag)
    requires ValidateOutgoing(tx, frag, Fresh(node)).Ok?
    requires WellFormed(node) && k < |Image(node)|
    ensures ParseOne(rx, frag, Image(node)[..k]).Partial?
  {
    var bytes, n := Image(node), node.headerLen;
    var part := bytes[..k];
    assert bytes[..n] == node.headerBuf[..n];
    if k >= n {
      assert part[..n] == bytes[..n];
      ImageHeader(tx, rx, frag, node, part);
    } else if k >= 2 {
      DecodeEncode(bytes[..n]);
      assert part[1] == bytes[..n][1];
    }
  }

  /** A sequence the sender accepts is parsed by the peer into exactly its frames, in order. */
  lemma {:induction false} ImagesParse(tx: Config, rx: Config, nodes: seq<FrameNode>)
    requires Peers(tx, rx) && Accept(tx, nodes).Ok?
    ensures Parse(rx, NO_FRAGMENT, Images(nodes)) == Parsed(FramesOf(nodes), Accept(tx, nodes).value, [])
  {
    if nodes != [] {
      var front, last := nodes[..|nodes| - 1], nodes[|nodes| - 1];
      assert nodes == front + [last];
      ImagesParse(tx, rx, front);
      AcceptConsistent(tx, front);
      var frag := Accept(tx, front).value;
      ImageParses(tx, rx, frag, last);
      ImagesPush(front, last);
      ParseAppendFrame(rx, NO_FRAGMENT, Images(front), Image(last));
    }
  }

  /** Any prefix of an accepted wire stream parses without rejection into a prefix of its frames. */
  lemma PrefixParses(tx: Config, rx: Config, nodes: seq<FrameNode>, part: seq<byte>)
    requires Peers(tx, rx) && Accept(tx, nodes).Ok? && part <= Images(nodes)
    ensures var p := Parse(rx, NO_FRAGMENT, part);
            && p.frames <= FramesOf(nodes)
            && !ParseOne(rx, p.frag, p.rest).Reject?
  {
    var wire := Images(nodes);
    var more := wire[|part|..];
    assert wire == part + more;
    ImagesParse(tx, rx, nodes);
    ParseSplit(rx, NO_FRAGMENT, part, more);
    var p := Parse(rx, NO_FRAGMENT, part);
    if ParseOne(rx, p.frag, p.rest).Reject? {
      RejectionIsFinal(rx, NO_FRAGMENT, part, more);
      assert false;
    }
  }

  /** Frames fully on the wire are delivered, all of them and no others, however much of the
      next frame follows them. */
  lemma ExactlySentFrames(tx: Config, rx: Config, done: seq<FrameNode>, next: FrameNode, k: nat)
    requires Peers(tx, rx) && Accept(tx, done + [next]).Ok?
    requires AllWellFormed(done) && WellFormed(next) && k < |Image(next)|
    ensures var p := Parse(rx, NO_FRAGMENT, Images(done) + Image(next)[..k]);
            && p.frames == FramesOf(done)
            && p.rest == Image(next)[..k]
            && ParseOne(rx, p.frag, p.rest).Partial?
  {
    AcceptPush(tx, done, next);
    ImagesParse(tx, rx, done);
    AcceptConsistent(tx, done);
    PartialImageWaits(tx, rx, Accept(tx, done).value, next, k);
    ParseAppendPartial(rx, NO_FRAGMENT, Images(done), Image(next)[..k]);
  }

  /** The sender accepts a sequence of individually sound frames exactly when the frames obey the
      message grammar of section 5.4 of RFC 6455 within the limits. */
  lemma {:induction false} AcceptIffGrammatical(cfg: Config, nodes: seq<FrameNode>)
    requires AllWellFormed(nodes)
    requires forall i :: 0 <= i < |nodes| ==> NodeHeader(nodes[i]).value.header.mask == (cfg.role == Client)
    ensures Accept(cfg, nodes).Ok? <==> Grammatical(FramesOf(nodes)) && WithinLimits(cfg, FramesOf(nodes))
    ensures Accept(cfg, nodes).Ok? ==> Tracks(cfg, Accept(cfg, nodes).value, FramesOf(nodes))
  {
    if nodes != [] {
      var front, last := nodes[..|nodes| - 1], nodes[|nodes| - 1];
      assert nodes == front + [last];
      AcceptIffGrammatical(cfg, front);
      ImagesPush(front, last);
      DecodedControl(last.headerBuf[..last.headerLen]);
      AcceptPush(cfg, front, last);
      var frames, f := FramesOf(front), FrameOf(last);
      if Accept(cfg, front).Ok? {
        var frag := Accept(cfg, front).value;
        if |f.payload| <= cfg.maxFrameLen {
          TracksStep(cfg, frag, frames, f);
        } else {
          assert !WithinLimitsAt(cfg, frames + [f], |frames|);
        }
      } else {
        ExtensionKeepsFault(cfg, frames, f);
      }
    }
  }

  lemma ExtensionKeepsFault(cfg: Config, frames: seq<Frame>, f: Frame)
    requires !(Grammatical(frames) && WithinLimits(cfg, frames))
    ensures !(Grammatical(frames + [f]) && WithinLimits(cfg, frames + [f]))
  {
    var all := frames + [f];
    forall i | 0 <= i < |frames|
      ensures GrammaticalAt(all, i) == GrammaticalAt(frames, i)
      ensures WithinLimitsAt(cfg, all, i) == WithinLimitsAt(cfg, frames, i)
    {
      assert all[i] == frames[i] && all[..i] == frames[..i];
    }
  }

  // ---------------------------------------------------------------- queue order

  /** Ping and pong are the only frames that may overtake others. */
  predicate MayOvertake(node: FrameNode) {
    node.headerBuf[0] % 16 == PING || node.headerBuf[0] % 16 == PONG
  }

  /** The frames that keep their place, in order. */
  function Ordered(nodes: seq<FrameNode>): seq<FrameNode> {
    if nodes == [] then []
    else Ordered(nodes[..|nodes| - 1])
         + (if MayOvertake(nodes[|nodes| - 1]) then [] else [Fresh(nodes[|nodes| - 1])])
  }

  function AllFresh(nodes: seq<FrameNode>): (r: seq<FrameNode>)
    ensures |r| == |nodes|
  {
    seq(|nodes|, i requires 0 <= i < |nodes| => Fresh(nodes[i]))
  }

  /** `line` is a legal wire order for the frames queued so far: the sender's rules accept it and
      end in `frag`, no frame is lost or duplicated, and only ping and pong changed places. */
  ghost predicate LegalOrder(cfg: Config, frag: Fragment, queued: seq<FrameNode>, line: seq<FrameNode>) {
    && Accept(cfg, line) == Ok(frag)
    && Ordered(line) == Ordered(queued)
    && multiset(AllFresh(line)) == multiset(AllFresh(queued))
  }

  /** The frames that are neither ping nor pong, in order. */
  function Others(frames: seq<Frame>): seq<Frame> {
    if frames == [] then []
    else
      var last := frames[|frames| - 1];
      Others(frames[..|frames| - 1]) + (if last.opcode == 0x9 || last.opcode == 0xa then [] else [last])
  }

  /** A legal order in the application's terms: exactly the frames queued are sent, and all that are
      neither ping nor pong are sent in the order they were queued. */
  lemma LegalOrderMeans(cfg: Config, frag: Fragment, queued: seq<FrameNode>, line: seq<FrameNode>)
    requires LegalOrder(cfg, frag, queued, line)
    ensures AllWellFormed(queued) && AllWellFormed(line)
    ensures Others(FramesOf(line)) == Others(FramesOf(queued))
    ensures multiset(FramesOf(line)) == multiset(FramesOf(queued))
  {
    var a, b := AllFresh(line), AllFresh(queued);
    hide Ordered, Others, Accept;
    forall i | 0 <= i < |queued| ensures WellFormed(queued[i]) {
      assert b[i] in multiset(b);
      assert b[i] in a;
      var j :| 0 <= j < |a| && a[j] == b[i];
      SameImage(line[j], queued[i]);
    }
    OrderedFrames(line);
    OrderedFrames(queued);
    FrameMultiset(line);
    FrameMultiset(queued);
    SameFrames(a, b);
  }

  lemma {:induction false} OrderedFrames(nodes: seq<FrameNode>)
    requires AllWellFormed(nodes)
    ensures AllWellFormed(Ordered(nodes)) && FramesOf(Ordered(nodes)) == Others(FramesOf(nodes))
  {
    hide WellFormed, FrameOf, FramesOf, MayOvertake, Fresh;
    if nodes == [] {
      assert FramesOf(nodes) == [];
    } else {
      hide Ordered, Others;
      var front, last := nodes[..|nodes| - 1], nodes[|nodes| - 1];
      OrderedFrames(front);
      OvertakingOpcodes(last);
      assert nodes == front + [last];
      OrderedPush(front, last);
      ImagesPush(front, last);
      OthersPush(FramesOf(front), FrameOf(last));
      if MayOvertake(last) {
        assert Ordered(front) + [] == Ordered(front);
      } else {
        ImagesPush(Ordered(front), Fresh(last));
      }
    }
  }

  lemma OvertakingOpcodes(node: FrameNode)
    requires WellFormed(node)
    ensures MayOvertake(node) <==> FrameOf(node).opcode == 0x9 || FrameOf(node).opcode == 0xa
    ensures WellFormed(Fresh(node)) && FrameOf(Fresh(node)) == FrameOf(node)
  {
    KeyFromHeader(node);
    SameImage(node, Fresh(node));
  }

  lemma OthersPush(frames: seq<Frame>, f: Frame)
    ensures Others(frames + [f]) == if f.opcode == 0x9 || f.opcode == 0xa then Others(frames) else Others(frames) + [f]
  {
    assert (frames + [f])[..|frames|] == frames;
  }

  lemma FrameMultiset(nodes: seq<FrameNode>)
    requires AllWellFormed(nodes)
    ensures AllWellFormed(AllFresh(nodes)) && FramesOf(AllFresh(nodes)) == FramesOf(nodes)
  {
    var f := AllFresh(nodes);
    forall i | 0 <= i < |f| ensures WellFormed(f[i]) && FrameOf(f[i]) == FrameOf(nodes[i]) {
      SameImage(nodes[i], f[i]);
    }
  }

  /** The same nodes in another order are the same frames in another order. */
  lemma {:induction false} SameFrames(a: seq<FrameNode>, b: seq<FrameNode>)
    requires AllWellFormed(a) && AllWellFormed(b) && multiset(a) == multiset(b)
    ensures multiset(FramesOf(a)) == multiset(FramesOf(b))
    decreases |a|
  {
    hide AllWellFormed, FrameOf, FramesOf;
    assert |b| == |multiset(b)| == |multiset(a)| == |a|;
    if a == [] {
      assert FramesOf(a) == FramesOf(b);
    } else {
      var j := Find(b, a[0]);
      WithoutFrame(a, 0);
      WithoutFrame(b, j);
      var a', b' := a[..0] + a[0 + 1..], b[..j] + b[j + 1..];
      Cancel(multiset(a'), multiset(b'), multiset{a[0]});
      SameFrames(a', b');
    }
  }

  lemma Cancel<T>(x: multiset<T>, y: multiset<T>, z: multiset<T>)
    requires x + z == y + z
    ensures x == y
  {
    forall e | e in x || e in y ensures x[e] == y[e] {
      assert (x + z)[e] == (y + z)[e];
    }
  }

  lemma Find(nodes: seq<FrameNode>, node: FrameNode) returns (j: nat)
    requires node in multiset(nodes)
    ensures j < |nodes| && nodes[j] == node
  {
    j :| j < |nodes| && nodes[j] == node;
  }

  lemma WithoutFrame(nodes: seq<FrameNode>, j: nat)
    requires AllWellFormed(nodes) && j < |nodes|
    ensures var rest := nodes[..j] + nodes[j + 1..];
            && AllWellFormed(rest) && multiset(nodes) == multiset(rest) + multiset{nodes[j]}
            && multiset(FramesOf(nodes)) == multiset(FramesOf(rest)) + multiset{FrameOf(nodes[j])}
  {
    hide WellFormed, FrameOf;
    var rest, frames := nodes[..j] + nodes[j + 1..], FramesOf(nodes);
    assert nodes == nodes[..j] + [nodes[j]] + nodes[j + 1..];
    assert frames == frames[..j] + [frames[j]] + frames[j + 1..];
    assert FramesOf(rest) == frames[..j] + frames[j + 1..];
  }

  lemma OrderedPush(nodes: seq<FrameNode>, node: FrameNode)
    ensures Ordered(nodes + [node]) == Ordered(nodes) + (if MayOvertake(node) then [] else [Fresh(node)])
    ensures AllFresh(nodes + [node]) == AllFresh(nodes) + [Fresh(node)]
  {
    var all := nodes + [node];
    assert all[..|all| - 1] == nodes && all[|all| - 1] == node;
  }

  lemma {:induction false} OrderedInsert(before: seq<FrameNode>, node: FrameNode, after: seq<FrameNode>)
    requires MayOvertake(node)
    ensures Ordered(before + [node] + after) == Ordered(before + after)
    decreases |after|
  {
    if after == [] {
      assert before + after == before && before + [node] + after == before + [node];
      OrderedPush(before, node);
      assert Ordered(before) + [] == Ordered(before);
    } else {
      var front, last := after[..|after| - 1], after[|after| - 1];
      assert before + after == (before + front) + [last];
      assert before + [node] + after == (before + [node] + front) + [last];
      OrderedPush(before + front, last);
      OrderedPush(before + [node] + front, last);
      OrderedInsert(before, node, front);
    }
  }

  lemma {:induction false} OrderedIgnoresProgress(a: seq<FrameNode>, b: seq<FrameNode>)
    requires |a| == |b| && forall i :: 0 <= i < |a| ==> Fresh(a[i]) == Fresh(b[i])
    ensures Ordered(a) == Ordered(b)
  {
    if a != [] {
      var x, y := a[|a| - 1], b[|b| - 1];
      assert Fresh(x) == Fresh(y) && Fresh(x).headerBuf == x.headerBuf && Fresh(y).headerBuf == y.headerBuf;
      OrderedIgnoresProgress(a[..|a| - 1], b[..|b| - 1]);
    }
  }

  /** Validation itself never reports a full ring or a bad close reason. */
  lemma OutgoingErrors(cfg: Config, frag: Fragment, node: FrameNode)
    ensures ValidateOutgoing(cfg, frag, node).Err? ==>
              ValidateOutgoing(cfg, frag, node).error !in {QueueFull, InvalidUtf8}
  {
  }

  lemma AdmittedIsFresh(cfg: Config, frag: Fragment, node: FrameNode)
    requires ValidateOutgoing(cfg, frag, node).Ok?
    ensures node == Fresh(node) && WellFormed(node)
  {
  }

  lemma LegalOrderSound(cfg: Config, frag: Fragment, queued: seq<FrameNode>, line: seq<FrameNode>)
    requires LegalOrder(cfg, frag, queued, line)
    ensures AllWellFormed(line)
  {
  }

  lemma LegalOrderEmpty(cfg: Config)
    ensures LegalOrder(cfg, NO_FRAGMENT, [], [])
  {
  }

  /** Appending an admitted frame. */
  lemma LegalOrderAppend(cfg: Config, frag: Fragment, queued: seq<FrameNode>, line: seq<FrameNode>, node: FrameNode)
    requires LegalOrder(cfg, frag, queued, line)
    requires node == Fresh(node) && ValidateOutgoing(cfg, frag, node).Ok?
    ensures LegalOrder(cfg, ValidateOutgoing(cfg, frag, node).value, queued + [node], line + [node])
  {
    AcceptPush(cfg, line, node);
    OrderedPush(line, node);
    OrderedPush(queued, node);
  }

  /** Letting an admitted ping or pong overtake everything after a frame boundary. */
  lemma LegalOrderPreempt(cfg: Config, frag: Fragment, queued: seq<FrameNode>,
                          before: seq<FrameNode>, after: seq<FrameNode>, node: FrameNode)
    requires LegalOrder(cfg, frag, queued, before + after)
    requires node == Fresh(node) && ValidateOutgoing(cfg, frag, node).Ok? && MayOvertake(node)
    ensures ValidateOutgoing(cfg, frag, node) == Ok(frag)
    ensures LegalOrder(cfg, frag, queued + [node], before + [node] + after)
  {
    OvertakingIsControl(cfg, frag, node);
    ControlKeepsFragment(cfg, frag, frag, node);
    hide ValidateOutgoing, Accept;
    AcceptInsertControl(cfg, before, node, after, frag);
    OrderedInsert(before, node, after);
    OrderedPush(queued, node);
    assert Ordered(queued) + [] == Ordered(queued);
    FreshInsert(before, node, after);
  }

  lemma FreshInsert(before: seq<FrameNode>, node: FrameNode, after: seq<FrameNode>)
    ensures multiset(AllFresh(before + [node] + after)) == multiset(AllFresh(before + after)) + multiset{Fresh(node)}
  {
    assert AllFresh(before + [node] + after) == AllFresh(before) + [Fresh(node)] + AllFresh(after);
    assert AllFresh(before + after) == AllFresh(before) + AllFresh(after);
  }

  lemma OvertakingIsControl(cfg: Config, frag: Fragment, node: FrameNode)
    requires ValidateOutgoing(cfg, frag, node).Ok? && MayOvertake(node)
    ensures WellFormed(node) && IsControl(FrameOf(node).opcode)
  {
    KeyFromHeader(node);
  }

  /** Progress never disturbs the order. */
  lemma LegalOrderProgress(cfg: Config, frag: Fragment, queued: seq<FrameNode>,
                           line: seq<FrameNode>, line': seq<FrameNode>)
    requires LegalOrder(cfg, frag, queued, line)
    requires |line| == |line'| && forall i :: 0 <= i < |line| ==> Fresh(line[i]) == Fresh(line'[i])
    ensures LegalOrder(cfg, frag, queued, line')
  {
    AcceptIgnoresProgress(cfg, line, line');
    OrderedIgnoresProgress(line, line');
    assert AllFresh(line) == AllFresh(line');
  }

  // ---------------------------------------------------------------- bytes on the wire

  predicate Finished(node: FrameNode) {
    node.headerSent >= node.headerLen && node.payloadSent >= |node.payload|
  }

  /** Bytes of the head frame already sent. */
  function HeadPart(q: seq<FrameNode>): seq<byte>
    requires q != [] ==> WellFormed(q[0]) && InBounds(q[0])
  {
    if q == [] then [] else Image(q[0])[..q[0].headerSent + q[0].payloadSent]
  }

  /** Progress stays inside the frame and the header goes first. */
  predicate InBounds(node: FrameNode) {
    && node.headerSent <= node.headerLen && node.payloadSent <= |node.payload|
    && (node.headerSent < node.headerLen ==> node.payloadSent == 0)
  }

  /** The transport has accepted whole images of the finished frames, then the part of the head
      that its counters claim, and nothing else. */
  ghost predicate OnWire(done: seq<FrameNode>, q: seq<FrameNode>, wire: seq<byte>) {
    && AllWellFormed(done) && AllWellFormed(q)
    && (q != [] ==> InBounds(q[0]))
    && wire == Images(done) + HeadPart(q)
  }

  /** Moving only the head's counters forward over `bytes` of its image. */
  lemma OnWireAdvance(done: seq<FrameNode>, q: seq<FrameNode>, wire: seq<byte>, y: FrameNode, bytes: seq<byte>)
    requires OnWire(done, q, wire) && q != []
    requires Fresh(y) == Fresh(q[0]) && InBounds(y)
    requires q[0].headerSent + q[0].payloadSent + |bytes| == y.headerSent + y.payloadSent
    requires bytes == Image(q[0])[q[0].headerSent + q[0].payloadSent..y.headerSent + y.payloadSent]
    ensures OnWire(done, [y] + q[1..], wire + bytes)
  {
    hide WellFormed, Image, Images, Fresh;
    var x, q' := q[0], [y] + q[1..];
    SameImage(x, y);
    assert forall k :: 1 <= k < |q'| ==> q'[k] == q[k];
    ExtendPart(Images(done), Image(x), x.headerSent + x.payloadSent, y.headerSent + y.payloadSent);
  }

  lemma ExtendPart(before: seq<byte>, image: seq<byte>, i: nat, j: nat)
    requires i <= j <= |image|
    ensures before + image[..i] + image[i..j] == before + image[..j]
  {
    assert image[..i] + image[i..j] == image[..j];
  }

  lemma SameImage(x: FrameNode, y: FrameNode)
    requires Fresh(x) == Fresh(y) && WellFormed(x)
    ensures WellFormed(y) && Image(y) == Image(x)
  {
    assert Fresh(x).payload == x.payload && Fresh(y).payload == y.payload;
    assert Fresh(x).headerBuf == x.headerBuf && Fresh(y).headerBuf == y.headerBuf;
    assert Fresh(x).headerLen == x.headerLen && Fresh(y).headerLen == y.headerLen;
  }

  lemma OnWireHeader(done: seq<FrameNode>, q: seq<FrameNode>, wire: seq<byte>, n: nat)
    requires OnWire(done, q, wire) && q != [] && 0 < n <= q[0].headerLen - q[0].headerSent
    ensures OnWire(done, [q[0].(headerSent := q[0].headerSent + n)] + q[1..],
                   wire + q[0].headerBuf[q[0].headerSent..q[0].headerSent + n])
  {
    hide DecodeHeader, MaskOpt;
    var x := q[0];
    var y := x.(headerSent := x.headerSent + n);
    var bytes := x.headerBuf[x.headerSent..y.headerSent];
    assert Image(x)[..x.headerLen] == x.headerBuf[..x.headerLen];
    assert bytes == Image(x)[..x.headerLen][x.headerSent..y.headerSent];
    assert bytes == Image(x)[x.headerSent..y.headerSent];
    hide Image, Images, WellFormed;
    OnWireAdvance(done, q, wire, y, bytes);
  }

  lemma OnWirePayload(done: seq<FrameNode>, q: seq<FrameNode>, wire: seq<byte>, n: nat)
    requires OnWire(done, q, wire) && q != [] && q[0].headerSent == q[0].headerLen
    requires n <= |q[0].payload| - q[0].payloadSent
    ensures OnWire(done, [q[0].(payloadSent := q[0].payloadSent + n)] + q[1..],
                   wire + MaskOpt(q[0].payload, NodeKey(q[0]), 0)[q[0].payloadSent..q[0].payloadSent + n])
  {
    hide DecodeHeader, MaskOpt;
    var x := q[0];
    var y := x.(payloadSent := x.payloadSent + n);
    var bytes := MaskOpt(x.payload, NodeKey(x), 0)[x.payloadSent..y.payloadSent];
    assert bytes == Image(x)[x.headerLen + x.payloadSent..x.headerLen + y.payloadSent];
    OnWireAdvance(done, q, wire, y, bytes);
  }

  lemma OnWirePrune(done: seq<FrameNode>, q: seq<FrameNode>, wire: seq<byte>)
    requires OnWire(done, q, wire) && q != [] && Finished(q[0])
    requires |q| > 1 ==> q[1] == Fresh(q[1])
    ensures OnWire(done + [q[0]], q[1..], wire)
  {
    hide DecodeHeader, MaskOpt;
    ImagesPush(done, q[0]);
    assert HeadPart(q) == Image(q[0]);
    if |q| > 1 { assert HeadPart(q[1..]) == []; }
  }

  lemma OnWireQueue(done: seq<FrameNode>, q: seq<FrameNode>, wire: seq<byte>, node: FrameNode)
    requires OnWire(done, q, wire) && WellFormed(node) && node == Fresh(node)
    ensures OnWire(done, q + [node], wire)
    ensures q == [] || q[0] == Fresh(q[0]) ==> OnWire(done, [node] + q, wire)
  {
    hide DecodeHeader, MaskOpt;
    assert q != [] ==> (q + [node])[0] == q[0];
    assert q == [] ==> q + [node] == [node];
    assert q == [] || q[0] == Fresh(q[0]) ==> HeadPart(q) == [] == HeadPart([node] + q);
  }

  /** A masked head without a cached chunk stands between chunks of 4096 bytes, or at its end. */
  ghost predicate BetweenChunks(q: seq<FrameNode>) {
    q != [] && WellFormed(q[0]) && NodeKey(q[0]).Some? ==>
      q[0].payloadSent % 4096 == 0 || q[0].payloadSent == |q[0].payload|
  }

  /** The cached chunk is the masked slice of the head payload that the counters point at: the 4096 bytes
      around them, or what is left of the payload. */
  ghost predicate CacheAgrees(q: seq<FrameNode>, chunk: seq<byte>, start: nat, sent: nat) {
    if |chunk| == 0 then BetweenChunks(q)
    else
      && q != [] && WellFormed(q[0]) && NodeKey(q[0]).Some?
      && q[0].headerSent == q[0].headerLen
      && start + sent == q[0].payloadSent && sent < |chunk| && start + |chunk| <= |q[0].payload|
      && chunk == MaskOpt(q[0].payload, NodeKey(q[0]), 0)[start..start + |chunk|]
      && start % 4096 == 0 && |chunk| <= 4096 && (|chunk| == 4096 || start + |chunk| == |q[0].payload|)
  }

  /** Mask direction of every accepted frame follows the sender's role. */
  lemma {:induction false} AcceptMasks(cfg: Config, nodes: seq<FrameNode>, i: nat)
    requires Accept(cfg, nodes).Ok? && i < |nodes|
    ensures WellFormed(nodes[i])
    ensures NodeKey(nodes[i]).Some? == (cfg.role == Client)
    ensures cfg.role == Server ==> nodes[i].headerLen <= 10
  {
    if i == |nodes| - 1 {
      MaskFollowsRole(cfg, Accept(cfg, nodes[..i]).value, Fresh(nodes[i]));
    } else {
      AcceptMasks(cfg, nodes[..|nodes| - 1], i);
    }
  }

  lemma MaskFollowsRole(cfg: Config, frag: Fragment, node: FrameNode)
    requires ValidateOutgoing(cfg, frag, node).Ok?
    ensures WellFormed(node)
    ensures NodeKey(node).Some? == (cfg.role == Client)
    ensures cfg.role == Server ==> node.headerLen <= 10
  {
    DecodeEncode(node.headerBuf[..node.headerLen]);
  }

  lemma {:induction false} ImagesIgnoreProgress(a: seq<FrameNode>, b: seq<FrameNode>)
    requires AllWellFormed(a) && AllWellFormed(b) && AllFresh(a) == AllFresh(b)
    ensures Images(a) == Images(b)
  {
    assert |a| == |AllFresh(a)| == |b|;
    if a != [] {
      var n := |a| - 1;
      hide DecodeHeader, MaskOpt;
      assert forall i :: 0 <= i <= n ==> AllFresh(a)[i] == Fresh(a[i]) && AllFresh(b)[i] == Fresh(b[i]);
      assert AllFresh(a[..n]) == AllFresh(b[..n]);
      ImagesIgnoreProgress(a[..n], b[..n]);
      assert Image(a[n]) == Image(Fresh(a[n])) == Image(b[n]);
    }
  }

  lemma {:induction false} ImagesPrefix(a: seq<FrameNode>, b: seq<FrameNode>)
    requires AllWellFormed(a) && AllWellFormed(b)
    ensures AllWellFormed(a + b) && Images(a) <= Images(a + b)
    decreases |b|
  {
    hide WellFormed, Image;
    if b == [] {
      assert a + b == a;
    } else {
      var front, last := b[..|b| - 1], b[|b| - 1];
      ImagesPrefix(a, front);
      assert a + b == (a + front) + [last];
      ImagesPush(a + front, last);
    }
  }

  /** What is still to be sent is what the images hold beyond the bytes on the wire. */
  lemma WireIsPrefix(done: seq<FrameNode>, q: seq<FrameNode>, wire: seq<byte>)
    requires OnWire(done, q, wire)
    ensures AllWellFormed(done + q)
    ensures wire <= Images(done + q)
    ensures q == [] ==> wire == Images(done + q)
    ensures q != [] && !Finished(q[0]) ==> |wire| < |Images(done + q)|
  {
    hide WellFormed, Image;
    if q == [] {
      assert done + q == done;
    } else {
      ImagesPush(done, q[0]);
      assert done + q == (done + [q[0]]) + q[1..];
      ImagesPrefix(done + [q[0]], q[1..]);
    }
  }

  /** Progress of the head leaves the frames themselves alone. */
  lemma HeadKeepsFrames(done: seq<FrameNode>, q: seq<FrameNode>, y: FrameNode)
    requires q != [] && Fresh(y) == Fresh(q[0])
    ensures AllFresh(done + ([y] + q[1..])) == AllFresh(done + q)
  {
  }

  /** A peer that has read everything on the wire has exactly the finished frames. */
  lemma FinishedAreDelivered(tx: Config, rx: Config, done: seq<FrameNode>, q: seq<FrameNode>, wire: seq<byte>)
    requires Peers(tx, rx) && Accept(tx, done + q).Ok? && OnWire(done, q, wire)
    requires q != [] ==> !Finished(q[0])
    ensures Parse(rx, NO_FRAGMENT, wire).frames == FramesOf(done)
  {
    hide WellFormed, Image, Images, Parse, ParseOne, Accept;
    if q == [] {
      assert done + q == done;
      ImagesParse(tx, rx, done);
      assert Images(done) + [] == Images(done);
    } else {
      assert done + q == (done + [q[0]]) + q[1..];
      AcceptPrefix(tx, done + [q[0]], q[1..]);
      ExactlySentFrames(tx, rx, done, q[0], q[0].headerSent + q[0].payloadSent);
    }
  }
}
