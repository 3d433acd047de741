/**
 * The hand-rolled Thrift connection pool: a stack of idle connections and a
 * counter of connections handed out, bounded by `maxIdle` and `maxActive`.
 * Each method is one step taken under the pool's lock; the clock is the
 * parameter `now`, and whether opening a new transport succeeds is the
 * parameter `dialOk`.
 */
module ThriftPool {
  import opened Results
  import opened Connections
  import opened IdleStack

  /** Opening the transport of a new connection failed. */
  datatype PoolError = DialFailed

  class ThriftConnectionPool {
    /** Idle connections, bottom first; the top is the last element. */
    var connections: seq<ClientConn>
    const maxIdle: int
    const maxActive: int
    /** Reservation counter; it can drop below zero (uncounted creations, double releases). */
    var activeCount: int
    const addr: string
    const idleTimeout: int

    /** The bound on `activeCount + |connections|`: `maxActive`, or 0 when that is negative. */
    function Capacity(): int
    {
      if maxActive < 0 then 0 else maxActive
    }

    /** The pool invariant kept by every operation. */
    ghost predicate Valid()
      reads this
    {
      && |connections| <= maxIdle
      && activeCount + |connections| <= Capacity()
    }

    /** A pool with no idle connections and nothing handed out. */
    constructor (addr: string, maxIdle: int, maxActive: int, idleTimeout: int)
      requires 0 <= maxIdle
      ensures Valid()
      ensures connections == [] && activeCount == 0
      ensures this.addr == addr && this.maxIdle == maxIdle
      ensures this.maxActive == maxActive && this.idleTimeout == idleTimeout
    {
      this.addr := addr;
      this.maxIdle := maxIdle;
      this.maxActive := maxActive;
      this.idleTimeout := idleTimeout;
      connections := [];
      activeCount := 0;
    }

    /**
     * The counter never exceeds `maxActive` (when that is not negative). This
     * only unfolds `Valid()`; the proof of the bound is that every method
     * preserves `Valid()`.
     */
    lemma ActiveWithinCapacity()
      requires Valid()
      ensures activeCount <= Capacity()
      ensures 0 <= maxActive ==> activeCount <= maxActive
    {
    }

    /**
     * Opens a new connection to `addr`; `dialOk` says whether the transport
     * opens. The pool's state is not touched.
     */
    method CreateConnection(now: int, dialOk: bool) returns (r: Result<ClientConn, PoolError>)
      ensures dialOk ==> r.Success? && fresh(r.value) && r.value.open && r.value.createdAt == now
      ensures !dialOk ==> r == Failure(DialFailed)
    {
      if !dialOk {
        return Failure(DialFailed);
      }
      var conn := new ClientConn.Opened(now);
      return Success(conn);
    }

    /**
     * Borrows a connection: the topmost reusable idle entry if there is one
     * (expired entries popped on the way are closed, closed ones dropped);
     * otherwise a new connection, counted only if the counter is below
     * `maxActive`, and with the reservation kept even when opening fails.
     */
    method GetConnection(now: int, dialOk: bool) returns (r: Result<ClientConn, PoolError>)
      requires Valid()
      modifies this, connections
      ensures Valid()
      ensures var p := old(PopIdle(connections, now, idleTimeout));
              && connections == p.rest
              && (p.hit.Some? ==> r == Success(p.hit.value) && activeCount == old(activeCount) + 1)
              && (p.hit.None? ==>
                    && activeCount == (if old(activeCount) < maxActive then old(activeCount) + 1 else old(activeCount))
                    && (dialOk ==> r.Success? && fresh(r.value) && r.value.open && r.value.createdAt == now)
                    && (!dialOk ==> r == Failure(DialFailed)))
      // every popped entry that was not handed out ends with its transport closed
      ensures var p := old(PopIdle(connections, now, idleTimeout));
              forall j :: |p.rest| + |HitSeq(p)| <= j < |old(connections)| ==> !old(connections)[j].open
      // only transports of expired entries are touched
      ensures forall j :: 0 <= j < |old(connections)| ==>
                old(connections)[j].open == old(connections[j].open) || Expired(old(connections)[j], now, idleTimeout)
      // entries left on the stack are untouched unless the same connection was also popped
      ensures forall j :: 0 <= j < |connections| && old(connections)[j] !in old(connections)[|connections|..] ==>
                old(connections)[j].open == old(connections[j].open)
    {
      ghost var oc := connections;
      while |connections| > 0
        invariant |connections| <= |oc| && connections == oc[..|connections|]
        invariant activeCount == old(activeCount)
        invariant Valid()
        invariant var k := |connections|;
                  old(PopIdle(oc, now, idleTimeout)) == old(PopIdle(oc[..k], now, idleTimeout))
        invariant forall j :: |connections| <= j < |oc| ==> !oc[j].open
        invariant forall j :: 0 <= j < |oc| ==> oc[j].open == old(oc[j].open) || Expired(oc[j], now, idleTimeout)
        invariant forall j :: 0 <= j < |oc| && oc[j] !in oc[|connections|..] ==> oc[j].open == old(oc[j].open)
      {
        var n := |connections| - 1;
        var conn := connections[n];
        connections := connections[..n];
        assert oc[..n + 1][..n] == oc[..n];
        if now - conn.createdAt > idleTimeout {
          conn.Close();
          continue;
        }
        if conn.open {
          activeCount := activeCount + 1;
          return Success(conn);
        }
      }
      if activeCount < maxActive {
        activeCount := activeCount + 1;
        r := CreateConnection(now, dialOk);
        return;
      }
      r := CreateConnection(now, dialOk);
    }

    /**
     * Gives a borrowed connection back: the counter drops by one; a closed
     * connection is discarded; an open one goes on top of the stack if there
     * is room below `maxIdle`, and is closed otherwise.
     */
    method ReleaseConnection(conn: ClientConn)
      requires Valid()
      modifies this, conn
      ensures Valid()
      ensures activeCount == old(activeCount) - 1
      ensures connections == if old(conn.open) && |old(connections)| < maxIdle
                             then old(connections) + [conn]
                             else old(connections)
      ensures conn.open == (old(conn.open) && |old(connections)| < maxIdle)
    {
      activeCount := activeCount - 1;
      if !conn.open {
        return;
      }
      if |connections| < maxIdle {
        connections := connections + [conn];
      } else {
        conn.Close();
      }
    }

    /** Discards a borrowed connection: the counter drops by one and its transport is closed. */
    method CloseConnection(conn: ClientConn)
      requires Valid()
      modifies this, conn
      ensures Valid()
      ensures activeCount == old(activeCount) - 1
      ensures connections == old(connections)
      ensures !conn.open
    {
      activeCount := activeCount - 1;
      conn.Close();
    }

    /**
     * Shuts the pool down: every idle transport is closed, the stack is
     * emptied and the counter reset. On a pool already closed it closes
     * nothing and leaves the same state.
     */
    method Close()
      requires Valid()
      modifies this, connections
      ensures Valid()
      ensures connections == [] && activeCount == 0
      ensures forall j :: 0 <= j < |old(connections)| ==> !old(connections)[j].open
    {
      for i := 0 to |connections|
        invariant connections == old(connections)
        invariant forall j :: 0 <= j < i ==> !connections[j].open
      {
        connections[i].Close();
      }
      connections := [];
      activeCount := 0;
    }

    /**
     * One tick of the cleanup routine at time `now`: keeps exactly the idle
     * entries that are neither expired nor closed, in order, and closes every
     * entry it removes; the counter is untouched.
     */
    method Sweep(now: int)
      requires Valid()
      modifies this, connections
      ensures Valid()
      ensures connections == old(Survivors(connections, now, idleTimeout))
      ensures activeCount == old(activeCount)
      ensures forall j :: 0 <= j < |old(connections)| ==>
                old(connections)[j].open == old(Reusable(connections[j], now, idleTimeout))
    {
      ghost var oc := connections;
      var validConnections: seq<ClientConn> := [];
      for i := 0 to |connections|
        invariant connections == oc && activeCount == old(activeCount)
        invariant validConnections == old(Survivors(oc[..i], now, idleTimeout))
        invariant forall j :: 0 <= j < i ==> oc[j].open == old(Reusable(oc[j], now, idleTimeout))
        invariant forall j :: i <= j < |oc| ==>
                    oc[j].open == old(oc[j].open) || (!old(Reusable(oc[j], now, idleTimeout)) && !oc[j].open)
      {
        var conn := connections[i];
        assert oc[..i + 1][..i] == oc[..i];
        if now - conn.createdAt > idleTimeout || !conn.open {
          conn.Close();
        } else {
          validConnections := validConnections + [conn];
        }
      }
      assert oc[..|oc|] == oc;
      connections := validConnections;
    }
  }
}
