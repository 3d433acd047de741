/**
 * One pooled client connection: the `thriftClientConn` record together with
 * the Thrift transport it wraps. The record is immutable once created; the
 * transport's open/closed state is the one thing about it that changes.
 */
module Connections {

  class ClientConn {
    /** When the connection was created; never refreshed afterwards. */
    const createdAt: int
    /** Stands for `Transport.IsOpen()`. */
    var open: bool

    /** A connection whose transport has just been opened at time `now`. */
    constructor Opened(now: int)
      ensures createdAt == now && open
    {
      createdAt := now;
      open := true;
    }

    /** `Transport.Close()`; closing a closed transport is harmless. */
    method Close()
      modifies this
      ensures !open
    {
      open := false;
    }
  }

  /** Older than the idle timeout, measured from creation: `time.Since(createdAt) > idleTimeout`. */
  predicate Expired(c: ClientConn, now: int, idleTimeout: int)
  {
    now - c.createdAt > idleTimeout
  }

  /** An idle connection the pool may still hand out: not expired and its transport open. */
  predicate Reusable(c: ClientConn, now: int, idleTimeout: int)
    reads c
  {
    !Expired(c, now, idleTimeout) && c.open
  }
}
