/** The tests an entry point makes before anything else (src/c_api.zig:92-122). */
module Guard {

  /** Which callback of a connection is running, if any. */
  datatype CallbackState = NoCallback | InRecv | InSend | InMask | InOnFrame

  /** Receive, send, both resets and deinit run only outside every callback of the thread. */
  predicate MayDrive(depth: nat, state: CallbackState) {
    depth == 0 && state == NoCallback
  }

  /** Preparing and queueing are also open to the on_frame callback of the same connection. */
  predicate MayQueue(depth: nat, state: CallbackState) {
    depth == 0 || state == InOnFrame
  }
}
