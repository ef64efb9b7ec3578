/** The callback reentrancy guard (src/c_api.zig) as a protocol over any number of connections on one
    thread: user code may call any entry point at any time, also from inside a callback. */
module Reentrancy {
  import opened Types
  import opened Guard

  datatype Entry =
    | InitEntry
    | DeinitEntry
    | RecvEntry
    | SendEntry
    | ResetEntry
    | ResetTxEntry
    | PrepareEntry
    | QueueEntry
    | PendingEntry

  type ConnId = nat

  /** A library call in progress, or a callback in progress with the callback state it replaced. */
  datatype Activation =
    | Call(entry: Entry, conn: ConnId)
    | Running(kind: CallbackState, conn: ConnId, previous: CallbackState)

  /** The thread's callback depth, the callback state of every connection inside a callback, and the stack. */
  datatype State = State(depth: nat, callbacks: map<ConnId, CallbackState>, stack: seq<Activation>)

  const INITIAL := State(0, map[], [])

  datatype Step = Enter(entry: Entry, conn: ConnId) | Invoke(kind: CallbackState) | Return

  /** User code runs when nothing is active or a callback is on top. */
  predicate UserCodeRuns(s: State) {
    s.stack == [] || s.stack[|s.stack| - 1].Running?
  }

  function StateOf(s: State, conn: ConnId): CallbackState {
    if conn in s.callbacks then s.callbacks[conn] else NoCallback
  }

  /** The guard each entry point evaluates first. */
  predicate Allowed(s: State, entry: Entry, conn: ConnId) {
    match entry
    case InitEntry => s.depth == 0
    case PrepareEntry | QueueEntry => MayQueue(s.depth, StateOf(s, conn))
    case PendingEntry => true
    case _ => MayDrive(s.depth, StateOf(s, conn))
  }

  /** Which callbacks an entry point makes. */
  predicate Makes(entry: Entry, kind: CallbackState) {
    match entry
    case RecvEntry => kind == InRecv || kind == InOnFrame
    case SendEntry => kind == InSend
    case PrepareEntry => kind == InMask
    case _ => false
  }

  function Restore(callbacks: map<ConnId, CallbackState>, conn: ConnId, previous: CallbackState)
    : map<ConnId, CallbackState>
  {
    if previous == NoCallback then callbacks - {conn} else callbacks[conn := previous]
  }

  /** One step, or None when the step does not apply. A refused entry returns at once, changing nothing;
      a returning mask callback restores the state it found, every other callback clears it. */
  function Next(s: State, step: Step): Option<State> {
    match step
    case Enter(entry, conn) =>
      if !UserCodeRuns(s) then None
      else if !Allowed(s, entry, conn) then Some(s)
      else
        Some(State(s.depth, if entry == InitEntry then s.callbacks - {conn} else s.callbacks,
                   s.stack + [Call(entry, conn)]))
    case Invoke(kind) =>
      if s.stack == [] then None
      else
        var top := s.stack[|s.stack| - 1];
        if !top.Call? || !Makes(top.entry, kind) then None
        else Some(State(s.depth + 1, s.callbacks[top.conn := kind],
                        s.stack + [Running(kind, top.conn, StateOf(s, top.conn))]))
    case Return =>
      if s.stack == [] then None
      else
        var top, rest := s.stack[|s.stack| - 1], s.stack[..|s.stack| - 1];
        if top.Call? then Some(s.(stack := rest))
        else if s.depth == 0 then None
        else Some(State(s.depth - 1,
                        Restore(s.callbacks, top.conn, if top.kind == InMask then top.previous else NoCallback), rest))
  }

  /** The states of a run, or None once a step does not apply. */
  function Run(steps: seq<Step>): Option<State> {
    if steps == [] then Some(INITIAL)
    else match Run(steps[..|steps| - 1])
      case None => None
      case Some(s) => Next(s, steps[|steps| - 1])
  }

  function Active(stack: seq<Activation>): nat {
    if stack == [] then 0
    else Active(stack[..|stack| - 1]) + if stack[|stack| - 1].Running? then 1 else 0
  }

  /** The only stacks without a pending query on top. */
  ghost predicate Shaped(s: State) {
    || (s.stack == [] && s.callbacks == map[] && s.depth == 0)
    || (|s.stack| == 1 && s.stack[0].Call? && s.stack[0].entry != PendingEntry && s.callbacks == map[] && s.depth == 0)
    || (|s.stack| == 2 && s.stack[0].Call? && InFirstCallback(s))
    || (|s.stack| == 3 && s.stack[0].Call? && InFirstCallback(s.(stack := s.stack[..2]))
        && s.stack[1].kind == InOnFrame
        && (s.stack[2] == Call(PrepareEntry, s.stack[0].conn) || s.stack[2] == Call(QueueEntry, s.stack[0].conn)))
    || (|s.stack| == 4 && s.depth == 2 && exists c: ConnId ::
          && s.callbacks == map[c := InMask]
          && s.stack == [Call(RecvEntry, c), Running(InOnFrame, c, NoCallback), Call(PrepareEntry, c),
                         Running(InMask, c, InOnFrame)])
  }

  /** One entry point on the stack and one callback of its own. */
  ghost predicate InFirstCallback(s: State) {
    && |s.stack| == 2 && s.stack[0].Call? && s.stack[1].Running?
    && s.stack[1].conn == s.stack[0].conn && s.stack[1].previous == NoCallback
    && Makes(s.stack[0].entry, s.stack[1].kind)
    && s.callbacks == map[s.stack[0].conn := s.stack[1].kind] && s.depth == 1
  }

  /** A tx_pending query may sit on top of any state in which user code runs. */
  ghost predicate Good(s: State) {
    || Shaped(s)
    || (s.stack != [] && s.stack[|s.stack| - 1].Call? && s.stack[|s.stack| - 1].entry == PendingEntry
        && Shaped(Popped(s)) && UserCodeRuns(Popped(s)))
  }

  function Popped(s: State): State
    requires s.stack != []
  {
    s.(stack := s.stack[..|s.stack| - 1])
  }

  lemma EnterKeepsGood(s: State, entry: Entry, conn: ConnId)
    requires Good(s) && Next(s, Enter(entry, conn)).Some?
    ensures Good(Next(s, Enter(entry, conn)).value)
  {
    assert Shaped(s);
    if Allowed(s, entry, conn) {
      var t := Next(s, Enter(entry, conn)).value;
      if entry == PendingEntry {
        assert Popped(t).stack == s.stack;
      } else if s.stack == [] {
        assert t.stack == [Call(entry, conn)];
      } else {
        EnterFromOnFrame(s, entry, conn);
      }
    }
  }

  /** From inside a callback only prepare and queue get through, and only in on_frame. */
  lemma EnterFromOnFrame(s: State, entry: Entry, conn: ConnId)
    requires Shaped(s) && s.stack != [] && UserCodeRuns(s) && Allowed(s, entry, conn) && entry != PendingEntry
    ensures |s.stack| == 2 && s.stack[1].kind == InOnFrame && conn == s.stack[0].conn
    ensures Shaped(Next(s, Enter(entry, conn)).value)
  {
    if |s.stack| == 2 {
      var t := Next(s, Enter(entry, conn)).value;
      assert t.stack[..2] == s.stack;
      assert t.(stack := t.stack[..2]) == s;
    }
  }

  lemma InvokeKeepsGood(s: State, kind: CallbackState)
    requires Good(s) && Next(s, Invoke(kind)).Some?
    ensures Good(Next(s, Invoke(kind)).value)
  {
    var t := Next(s, Invoke(kind)).value;
    assert Shaped(s);
    if |s.stack| == 3 {
      var c := s.stack[0].conn;
      assert s.stack[..2][0] == s.stack[0] && s.stack[..2][1] == s.stack[1];
      assert t.stack == [Call(RecvEntry, c), Running(InOnFrame, c, NoCallback), Call(PrepareEntry, c),
                         Running(InMask, c, InOnFrame)];
      assert t.callbacks == map[c := InMask];
    } else {
      assert t.stack[0] == s.stack[0] && t.stack[1] == Running(kind, s.stack[0].conn, NoCallback);
    }
  }

  lemma ReturnKeepsGood(s: State)
    requires Good(s) && Next(s, Return).Some?
    ensures Good(Next(s, Return).value)
  {
    var t := Next(s, Return).value;
    if Shaped(s) {
      if |s.stack| == 4 {
        var c := s.stack[0].conn;
        assert t.stack == [Call(RecvEntry, c), Running(InOnFrame, c, NoCallback), Call(PrepareEntry, c)];
        assert t.stack[..2] == [Call(RecvEntry, c), Running(InOnFrame, c, NoCallback)];
        assert t.callbacks == map[c := InOnFrame];
      } else if |s.stack| == 3 {
        assert t.stack == s.stack[..2];
      }
    } else {
      assert t == Popped(s);
    }
  }

  /** Every run, over any number of connections and any nesting of calls, keeps the protocol. */
  lemma {:induction false} EveryRunIsGood(steps: seq<Step>)
    requires Run(steps).Some?
    ensures Good(Run(steps).value)
  {
    if steps != [] {
      var front, last := steps[..|steps| - 1], steps[|steps| - 1];
      EveryRunIsGood(front);
      var s := Run(front).value;
      hide Good, Next;
      match last
      case Enter(entry, conn) => EnterKeepsGood(s, entry, conn);
      case Invoke(kind) => InvokeKeepsGood(s, kind);
      case Return => ReturnKeepsGood(s);
    }
  }

  /** The depth counts the active callbacks, it never exceeds two, and at two it is the mask callback of
      a frame being prepared inside on_frame of the same connection. */
  lemma DepthCountsCallbacks(steps: seq<Step>)
    requires Run(steps).Some?
    ensures var s := Run(steps).value;
            && s.depth == Active(s.stack) <= 2
            && (s.depth == 2 ==> MaskInsideOnFrame(s.stack))
  {
    EveryRunIsGood(steps);
    GoodDepth(Run(steps).value);
  }

  /** The mask callback of a frame being prepared inside on_frame of the same connection. */
  ghost predicate MaskInsideOnFrame(stack: seq<Activation>) {
    exists c: ConnId ::
      && |stack| >= 4
      && stack[..4] == [Call(RecvEntry, c), Running(InOnFrame, c, NoCallback), Call(PrepareEntry, c),
                        Running(InMask, c, InOnFrame)]
  }

  lemma GoodDepth(s: State)
    requires Good(s)
    ensures s.depth == Active(s.stack) <= 2
    ensures s.depth == 2 ==> MaskInsideOnFrame(s.stack)
  {
    if Shaped(s) {
      ShapedDepth(s);
    } else {
      ShapedDepth(Popped(s));
      if s.depth == 2 { assert s.stack[..4] == Popped(s).stack; }
    }
    if s.depth == 2 && Shaped(s) { assert s.stack[..4] == s.stack; }
  }

  lemma ShapedDepth(s: State)
    requires Shaped(s)
    ensures s.depth == Active(s.stack) <= 2
    ensures s.depth == 2 ==> |s.stack| == 4
  {
    var k := s.stack;
    if |k| >= 1 { assert k[..1][..0] == [] && Active(k[..1]) == 0; }
    if |k| >= 2 {
      assert k[..2][..1] == k[..1];
      assert |k| == 2 ==> k[..2] == k;
      assert k[..2][1] == k[1];
      assert Active(k[..2]) == 1;
    }
    if |k| >= 3 {
      assert k[..3][..2] == k[..2];
      assert |k| == 3 ==> k[..3] == k;
    }
  }

  /** A call made from inside a callback gets past its guard only as a read-only query, or as prepare or
      queue on the connection whose on_frame is running. So no receive, send, reset, init or deinit ever
      runs under a callback: receive state, staging and the progress of the head are out of reach. */
  lemma CallbacksReachOnlyQueueing(steps: seq<Step>, i: nat, j: nat)
    requires Run(steps).Some? && i < j < |Run(steps).value.stack|
    requires Run(steps).value.stack[i].Running? && Run(steps).value.stack[j].Call?
    ensures var stack := Run(steps).value.stack;
            || stack[j].entry == PendingEntry
            || (&& stack[j].entry in {PrepareEntry, QueueEntry}
                && stack[i] == Running(InOnFrame, stack[j].conn, NoCallback))
  {
    EveryRunIsGood(steps);
    var s := Run(steps).value;
    if Shaped(s) {
      if |s.stack| == 3 { assert s.stack[..2][1] == s.stack[1] && s.stack[..2][0] == s.stack[0]; }
    } else if j < |s.stack| - 1 {
      var t := Popped(s);
      assert t.stack[i] == s.stack[i] && t.stack[j] == s.stack[j];
    }
  }

  /** Exactly which calls get past the guard in every run. With nothing active every entry point is open.
      Inside a callback the pending query is open, and prepare and queue are open when the callback is
      on_frame of the same connection; everything else is refused and changes nothing. */
  lemma GuardExactly(steps: seq<Step>, entry: Entry, conn: ConnId)
    requires Run(steps).Some? && UserCodeRuns(Run(steps).value)
    ensures var s := Run(steps).value;
            var top := if s.stack == [] then None else Some(s.stack[|s.stack| - 1]);
            var next := Next(s, Enter(entry, conn));
            if top == None || entry == PendingEntry
               || (entry in {PrepareEntry, QueueEntry} && top.value.kind == InOnFrame && top.value.conn == conn)
            then next.Some? && next.value.stack == s.stack + [Call(entry, conn)] && next.value.depth == s.depth
            else next == Some(s)
  {
    EveryRunIsGood(steps);
    var s := Run(steps).value;
    assert Shaped(s);
  }

  /** Which callbacks a call makes: receive reads and delivers, send writes, prepare asks for a mask. */
  lemma CallbacksExactly(steps: seq<Step>, kind: CallbackState)
    requires Run(steps).Some? && !UserCodeRuns(Run(steps).value)
    ensures var s := Run(steps).value;
            var call := s.stack[|s.stack| - 1];
            var next := Next(s, Invoke(kind));
            if (call.entry == RecvEntry && kind in {InRecv, InOnFrame}) || (call.entry == SendEntry && kind == InSend)
               || (call.entry == PrepareEntry && kind == InMask)
            then next.Some? && next.value.depth == s.depth + 1 && StateOf(next.value, call.conn) == kind
            else next == None
  {
  }

  /** Calls and callbacks leave no trace: returning restores depth, stack and the state of every connection,
      also when a mask callback interrupts on_frame. */
  lemma ReturnRestores(steps: seq<Step>, step: Step)
    requires Run(steps).Some? && step != Return
    ensures var s := Run(steps).value;
            var t := Next(s, step);
            t.Some? && t.value != s ==> Next(t.value, Return) == Some(s)
  {
    EveryRunIsGood(steps);
    var s := Run(steps).value;
    var t := Next(s, step);
    if t.Some? && t.value != s {
      assert t.value.stack[..|t.value.stack| - 1] == s.stack;
      match step
      case Enter(entry, conn) =>
        if entry == InitEntry { assert s.callbacks - {conn} == s.callbacks; }
      case Invoke(kind) =>
        var conn := s.stack[|s.stack| - 1].conn;
        InvokedFrom(s, conn);
        assert Next(t.value, Return).value.callbacks == s.callbacks;
    }
  }

  lemma InvokedFrom(s: State, conn: ConnId)
    requires Good(s) && s.stack != [] && s.stack[|s.stack| - 1].Call? && s.stack[|s.stack| - 1].conn == conn
    requires s.stack[|s.stack| - 1].entry != PendingEntry
    ensures StateOf(s, conn) == if |s.stack| == 3 then InOnFrame else NoCallback
    ensures |s.stack| == 3 ==> s.stack[2].entry in {PrepareEntry, QueueEntry}
  {
    assert Shaped(s);
    if |s.stack| == 3 { assert s.stack[..2][0] == s.stack[0] && s.stack[..2][1] == s.stack[1]; }
  }

  /** The deepest nesting happens: a mask callback while on_frame prepares an answer. */
  lemma DepthTwoHappens(c: ConnId)
    ensures var r := Run([Enter(RecvEntry, c), Invoke(InOnFrame), Enter(PrepareEntry, c), Invoke(InMask)]);
            r.Some? && r.value.depth == 2 && MaskInsideOnFrame(r.value.stack)
  {
    var call, frame := Call(RecvEntry, c), Running(InOnFrame, c, NoCallback);
    var steps := [Enter(RecvEntry, c), Invoke(InOnFrame), Enter(PrepareEntry, c), Invoke(InMask)];
    RunPush([], steps[0]);
    assert [] + [steps[0]] == steps[..1];
    assert INITIAL.stack + [call] == [call];
    RunPush(steps[..1], steps[1]);
    assert steps[..1] + [steps[1]] == steps[..2];
    assert [call] + [frame] == [call, frame];
    RunPush(steps[..2], steps[2]);
    assert steps[..2] + [steps[2]] == steps[..3];
    RunPush(steps[..3], steps[3]);
    assert steps[..3] + [steps[3]] == steps;
    var r := Run(steps);
    assert r.value.stack == [call, frame, Call(PrepareEntry, c), Running(InMask, c, InOnFrame)];
    assert r.value.stack[..4] == r.value.stack;
  }

  lemma RunPush(steps: seq<Step>, step: Step)
    requires Run(steps).Some?
    ensures Run(steps + [step]) == Next(Run(steps).value, step)
  {
    assert (steps + [step])[..|steps|] == steps;
  }

  /** The guard always lets go: with nothing on the stack no connection is marked and every entry point
      is open again. */
  lemma GuardLetsGo(steps: seq<Step>, entry: Entry, conn: ConnId)
    requires Run(steps).Some? && Run(steps).value.stack == []
    ensures Run(steps).value == INITIAL && Allowed(Run(steps).value, entry, conn)
  {
    EveryRunIsGood(steps);
  }
}
