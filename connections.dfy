/** Websocket connection handles, abstracted to what the session manager observes of them. */
module Connections {
  import opened Options

  /** One byte of a websocket payload. */
  newtype byte = x: int | 0 <= x < 256

  /** A websocket close reason: close code and message. */
  datatype CloseReason = CloseReason(code: int, message: string)

  /** The reason `close()` uses when called without one: code NORMAL (1000), empty message. */
  const NormalClose: CloseReason := CloseReason(1000, "")

  /**
   * A connection handle (sender or receiver). `active` is its liveness flag, `outbox` the log of
   * every payload sent to it, `closed` and `closeReason` record the close calls made on it.
   */
  class Conn {
    var active: bool
    var outbox: seq<seq<byte>>
    var closed: bool
    var closeReason: Option<CloseReason>

    constructor (active: bool)
      ensures this.active == active && outbox == [] && !closed && closeReason == None
    {
      this.active := active;
      outbox := [];
      closed := false;
      closeReason := None;
    }

    /** Sends one payload: it is appended to the log, nothing else changes. */
    method Send(payload: seq<byte>)
      modifies this
      ensures outbox == old(outbox) + [payload]
      ensures active == old(active) && closed == old(closed) && closeReason == old(closeReason)
    {
      outbox := outbox + [payload];
    }

    /** Closes the connection with the given reason; the most recent reason is the one recorded. */
    method Close(reason: CloseReason)
      modifies this
      ensures closed && closeReason == Some(reason)
      ensures outbox == old(outbox) && active == old(active)
    {
      closed := true;
      closeReason := Some(reason);
    }
  }
}
