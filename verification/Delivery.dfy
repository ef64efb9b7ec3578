/** Reassembling delivered chunks, and how each receive step extends what has been delivered. */
module Delivery {
  import opened Types
  import opened Codec
  import opened Mask
  import opened Protocol
  import opened Stream

  /** One invocation of the on_frame callback (include/zslay.h:78-94). */
  datatype Chunk = Chunk(
    opcode: Opcode, fin: bool, payload: seq<byte>, offset: nat, frameLen: nat, endOfFrame: bool)

  /** A frame of which a nonempty proper part has been delivered. */
  datatype OpenFrame = OpenFrame(opcode: Opcode, fin: bool, frameLen: nat, payload: seq<byte>)

  datatype Assembly = Assembly(frames: seq<Frame>, open: Option<OpenFrame>)

  /** Attaches a chunk if its metadata is what a reader of the header file may rely on: the first
      chunk of a frame has offset zero, later ones continue it, no chunk overruns the frame, the
      last one and no other is marked, and only an empty frame has an empty chunk. */
  function Attach(a: Assembly, c: Chunk): Option<Assembly> {
    var before := if a.open.Some? then a.open.value.payload else [];
    var payload := before + c.payload;
    if a.open.Some? && !(a.open.value.opcode == c.opcode && a.open.value.fin == c.fin
                         && a.open.value.frameLen == c.frameLen) then None
    else if c.offset != |before| || |payload| > c.frameLen then None
    else if c.endOfFrame != (|payload| == c.frameLen) then None
    else if |c.payload| == 0 && c.frameLen != 0 then None
    else if c.endOfFrame then Some(Assembly(a.frames + [Frame(c.opcode, c.fin, payload)], None))
    else Some(Assembly(a.frames, Some(OpenFrame(c.opcode, c.fin, c.frameLen, payload))))
  }

  /** All frames described by a sequence of chunks, or None if any chunk is out of place. */
  function Assemble(chunks: seq<Chunk>): Option<Assembly> {
    if chunks == [] then Some(Assembly([], None))
    else match Assemble(chunks[..|chunks| - 1])
      case None => None
      case Some(a) => Attach(a, chunks[|chunks| - 1])
  }

  lemma AssemblePush(chunks: seq<Chunk>, c: Chunk)
    requires Assemble(chunks).Some?
    ensures Assemble(chunks + [c]) == Attach(Assemble(chunks).value, c)
  {
    var all := chunks + [c];
    assert all[..|all| - 1] == chunks && all[|all| - 1] == c;
  }

  /** The metadata of chunk i follows from chunk i - 1 alone: it starts a frame at offset zero after an
      end mark, and otherwise continues the same frame where the last chunk stopped. The end mark is
      set exactly on the chunk that reaches the frame length, and only empty frames have empty chunks. */
  predicate Contiguous(chunks: seq<Chunk>, i: nat)
    requires i < |chunks|
  {
    var c := chunks[i];
    && (if i == 0 || chunks[i - 1].endOfFrame then c.offset == 0
        else
          var p := chunks[i - 1];
          c.offset == p.offset + |p.payload| && c.opcode == p.opcode && c.fin == p.fin && c.frameLen == p.frameLen)
    && c.offset + |c.payload| <= c.frameLen
    && (c.endOfFrame <==> c.offset + |c.payload| == c.frameLen)
    && (c.payload == [] ==> c.frameLen == 0)
  }

  /** Chunks that reassemble carry contiguous metadata throughout, and the frame left open is the one
      the last chunk belongs to, as far as that chunk reached. */
  lemma {:induction false} ChunkMetadata(chunks: seq<Chunk>)
    requires Assemble(chunks).Some?
    ensures forall i :: 0 <= i < |chunks| ==> Contiguous(chunks, i)
    ensures var open := Assemble(chunks).value.open;
            if chunks == [] || chunks[|chunks| - 1].endOfFrame then open == None
            else
              var c := chunks[|chunks| - 1];
              && open.Some? && open.value.opcode == c.opcode && open.value.fin == c.fin
              && open.value.frameLen == c.frameLen && |open.value.payload| == c.offset + |c.payload|
  {
    if chunks != [] {
      var n := |chunks| - 1;
      var front := chunks[..n];
      ChunkMetadata(front);
      forall i | 0 <= i < |chunks| ensures Contiguous(chunks, i) {
        if i < n { assert Contiguous(front, i); }
      }
    }
  }

  /** The frame whose header is the first `hl` bytes of `current` and of which the rest has arrived. */
  function OpenOf(cfg: Config, frag: Fragment, hl: nat, current: seq<byte>): Option<OpenFrame>
    requires hl <= |current|
  {
    var status := Header(cfg, frag, current[..hl]);
    if |current| == hl || !status.Good? then None
    else
      var d := status.decoded;
      Some(OpenFrame(d.header.opcode, d.header.fin, d.payloadLen, MaskOpt(current[hl..], d.key, 0)))
  }

  /** The chunks delivered so far are exactly the one-shot parse of `done`, the bytes of all
      completed frames, plus the part of the unfinished frame `current` beyond its header. */
  ghost predicate Agrees(cfg: Config, frag: Fragment, hl: nat, done: seq<byte>, current: seq<byte>,
                         chunks: seq<Chunk>)
  {
    && hl <= |current|
    && Parse(cfg, NO_FRAGMENT, done).rest == []
    && Parse(cfg, NO_FRAGMENT, done).frag == frag
    && (|current| > hl ==> Header(cfg, frag, current[..hl]).Good?)
    && Assemble(chunks) == Some(Assembly(Parse(cfg, NO_FRAGMENT, done).frames, OpenOf(cfg, frag, hl, current)))
  }

  lemma AgreesInitially(cfg: Config)
    ensures Agrees(cfg, NO_FRAGMENT, 0, [], [], [])
  {
    ParseNothing(cfg, NO_FRAGMENT);
  }

  /** More header bytes deliver nothing. */
  lemma AgreesHeader(cfg: Config, frag: Fragment, done: seq<byte>, current: seq<byte>, chunks: seq<Chunk>,
                     more: seq<byte>)
    requires Agrees(cfg, frag, |current|, done, current, chunks)
    ensures Agrees(cfg, frag, |current| + |more|, done, current + more, chunks)
  {
  }

  /** The chunk for the next `raw` payload bytes of a frame. */
  function ChunkFor(d: DecodedHeader, at: nat, raw: seq<byte>): Chunk {
    Chunk(d.header.opcode, d.header.fin, MaskOpt(raw, d.key, at), at, d.payloadLen, at + |raw| == d.payloadLen)
  }

  /** A complete frame is what the one-shot parser sees in its bytes. */
  lemma CompleteParses(cfg: Config, frag: Fragment, current: seq<byte>, d: DecodedHeader)
    requires d.headerLen <= |current| && |current| == d.headerLen + d.payloadLen
    requires Header(cfg, frag, current[..d.headerLen]) == Good(d)
    ensures ParseOne(cfg, frag, current)
         == Done(Frame(d.header.opcode, d.header.fin, MaskOpt(current[d.headerLen..], d.key, 0)),
                 |current|, CommitFragment(frag, d))
  {
    var h := current[..d.headerLen];
    HeaderStable(cfg, frag, h, current[d.headerLen..]);
    assert h + current[d.headerLen..] == current;
    assert current[d.headerLen..|current|] == current[d.headerLen..];
  }

  /** The chunk for the next bytes attaches to whatever part of the frame was delivered before. */
  lemma ChunkAttaches(cfg: Config, frag: Fragment, frames: seq<Frame>, current: seq<byte>, d: DecodedHeader,
                      raw: seq<byte>)
    requires d.headerLen <= |current| && Header(cfg, frag, current[..d.headerLen]) == Good(d)
    requires raw != [] || d.payloadLen == 0
    requires |current| + |raw| <= d.headerLen + d.payloadLen
    ensures var hl, all := d.headerLen, current + raw;
            var c := ChunkFor(d, |current| - hl, raw);
            Attach(Assembly(frames, OpenOf(cfg, frag, hl, current)), c)
            == Some(if c.endOfFrame
                    then Assembly(frames + [Frame(d.header.opcode, d.header.fin, MaskOpt(all[hl..], d.key, 0))], None)
                    else Assembly(frames, OpenOf(cfg, frag, hl, all)))
  {
    hide Header, MaskOpt;
    var hl, all := d.headerLen, current + raw;
    assert all[..hl] == current[..hl] && all[hl..] == current[hl..] + raw;
    MaskOptSplit(current[hl..], raw, d.key, 0);
    if |current| == hl {
      assert current[hl..] == [] && [] + raw == raw;
      assert MaskOpt(raw, d.key, 0) == [] + MaskOpt(raw, d.key, 0);
    }
  }

  /** Delivering part of a payload, or the rest of it. */
  lemma AgreesPayload(cfg: Config, frag: Fragment, done: seq<byte>, current: seq<byte>, chunks: seq<Chunk>,
                      d: DecodedHeader, raw: seq<byte>)
    requires d.headerLen <= |current| && Agrees(cfg, frag, d.headerLen, done, current, chunks)
    requires Header(cfg, frag, current[..d.headerLen]) == Good(d)
    requires raw != [] || d.payloadLen == 0
    requires |current| + |raw| <= d.headerLen + d.payloadLen
    ensures var c := ChunkFor(d, |current| - d.headerLen, raw);
            if c.endOfFrame then Agrees(cfg, CommitFragment(frag, d), 0, done + (current + raw), [], chunks + [c])
            else Agrees(cfg, frag, d.headerLen, done, current + raw, chunks + [c])
  {
    hide Header, Parse, MaskOpt, Attach;
    var c, all := ChunkFor(d, |current| - d.headerLen, raw), current + raw;
    assert all[..d.headerLen] == current[..d.headerLen];
    ChunkAttaches(cfg, frag, Parse(cfg, NO_FRAGMENT, done).frames, current, d, raw);
    AssemblePush(chunks, c);
    if c.endOfFrame {
      CompleteParses(cfg, frag, all, d);
      ParseAppendFrame(cfg, NO_FRAGMENT, done, all);
    }
  }

  /** Between receive calls no frame is complete but undelivered: everything the one-shot parser
      finds in the consumed bytes has been delivered, and nothing else has. */
  lemma DeliveredIsParsed(cfg: Config, frag: Fragment, hl: nat, done: seq<byte>, current: seq<byte>, chunks: seq<Chunk>)
    requires Agrees(cfg, frag, hl, done, current, chunks)
    requires var s := Header(cfg, frag, current[..hl]);
             && (s.Good? ==> s.decoded.headerLen == hl && |current| < hl + s.decoded.payloadLen)
             && (!s.Good? ==> |current| == hl)
    ensures Assemble(chunks).Some?
    ensures Parse(cfg, NO_FRAGMENT, done + current) == Parsed(Assemble(chunks).value.frames, frag, current)
  {
    var h := current[..hl];
    assert h + current[hl..] == current;
    if Header(cfg, frag, h).Good? { HeaderStable(cfg, frag, h, current[hl..]); }
    assert !ParseOne(cfg, frag, current).Done? by {
      if |current| == hl { assert h == current; }
    }
    ParseAppendPartial(cfg, NO_FRAGMENT, done, current);
  }
}
