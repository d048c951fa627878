/** Connection states reported by the stream client and shown by the viewers. */
module Connection {
  import opened Records

  /** The zero value of a connection state carries no phase. */
  datatype Phase = NoPhase | Connecting | Connected | Retrying | Disconnected

  datatype ConnectionState = ConnectionState(phase: Phase, attempt: nat, err: string, retryAt: Time)

  const NO_CONNECTION := ConnectionState(NoPhase, 0, "", ZERO_TIME)
}
