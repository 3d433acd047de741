# Thrift connection pool — Dafny model

This project models the hand-rolled Thrift client connection pool
`ThriftConnectionPool` of the `kratos-thrift` service
(`internal/client/thrift_test.go`, lines 14-184) and proves properties of it.

The pool keeps a stack of idle connections (`connections`; the top is the
last element) and a reservation counter (`activeCount`), bounded by
`maxIdle` and `maxActive`. Idle entries expire `idleTimeout` after they were
created. The model has four modules:

- `Results`: `Option` and `Result`.
- `Connections`: `ClientConn`, one `thriftClientConn` together with its
  transport. `createdAt` is fixed; `open` stands for `Transport.IsOpen()`,
  and `Close` closes the transport. `Expired` is the age test
  `now - createdAt > idleTimeout` (`internal/client/thrift_test.go:88`,
  `:172`). `Reusable` means not expired and open, the test an idle entry
  must pass to be handed out (`:88-95`) or kept by the sweep (`:172`).
  Connections are objects, so a
  connection that sits on the idle stack twice, or is closed by a caller
  while idle, behaves as it does in the code.
- `IdleStack`: two pure functions over the idle stack. `PopIdle` is the
  borrow path's pop loop; `Survivors` is the cleanup sweep's filter. The
  lemmas relating them are here too.
- `ThriftPool`: the class `ThriftConnectionPool`. Each pool operation is a
  method that updates the fields in place. `Valid()` is the invariant every
  method keeps: `|connections| <= maxIdle` and
  `activeCount + |connections| <= Capacity()`, where `Capacity()` is
  `maxActive`, or 0 if `maxActive` is negative.

The model follows the code, not a textbook pool design:
- At capacity, a borrow still creates a connection. It just does not
  count it.
- A failed creation keeps the reservation it took.
- Expiry is measured from creation time, which is never refreshed on
  release.
- There is no blocking, no "pool exhausted" error and no closed-pool state.

So the counter can go below zero, and the model does not claim
`activeCount >= 0`. The invariant above gives the proved upper bound.

The clock is a parameter `now` wherever the code calls `time.Since` or
`time.Now`. Whether opening a new transport succeeds is a parameter
`dialOk`.

## Model

| member | source | states |
|---|---|---|
| `Connections.ClientConn.Opened` | internal/client/thrift_test.go:71-75 | a new connection has its transport open and its creation time set to the current time |
| `Connections.ClientConn.Close` | internal/client/thrift_test.go:143 | after closing, the transport reports not open |
| `IdleStack.Survivors` | internal/client/thrift_test.go:169-181 | the sweep result is no longer than the stack; an entry is in it exactly when it was on the stack, is not older than `idleTimeout` and has an open transport |
| `IdleStack.PopIdle` | internal/client/thrift_test.go:83-100 | the borrow path leaves a prefix of the stack. On a hit, it hands out the entry just above that prefix, which is reusable, and every entry above it was not reusable. On a miss, it empties the stack and no entry was reusable |
| `IdleStack.SurvivorsInOrder` | internal/client/thrift_test.go:171-181 | the entries a sweep keeps stay in their original relative order |
| `IdleStack.SurvivorsAppend` | internal/client/thrift_test.go:171-181 | sweeping a stack made of two parts gives the sweep of the first part followed by the sweep of the second |
| `IdleStack.SweepThenLaterSweep` | internal/client/thrift_test.go:172 | a sweep at a later time after an earlier sweep leaves what the later sweep alone leaves; with equal times, a second sweep removes nothing |
| `IdleStack.PopIdleTakesTopSurvivor` | internal/client/thrift_test.go:83-99 | a borrow hands out the topmost entry a sweep at the same instant would keep; that sweep's survivors are the survivors of what the borrow leaves, plus the entry it hands out |
| `IdleStack.PopAfterSweep` | internal/client/thrift_test.go:83-99 | right after a sweep, a borrow at the same instant takes the top entry and discards nothing; on an empty stack it misses |
| `ThriftPool.ThriftConnectionPool.constructor` | internal/client/thrift_test.go:33-46 | a new pool has an empty idle stack, a zero counter, the given bounds, and satisfies the pool invariant |
| `ThriftPool.ThriftConnectionPool.ActiveWithinCapacity` | internal/client/thrift_test.go:103-104 | under the pool invariant, the counter is at most `maxActive`, or at most 0 if `maxActive` is negative |
| `ThriftPool.ThriftConnectionPool.CreateConnection` | internal/client/thrift_test.go:49-76 | when the transport opens, the result is a fresh open connection created now; otherwise it is the dial error |
| `ThriftPool.ThriftConnectionPool.GetConnection` | internal/client/thrift_test.go:79-114 | keeps the invariant; the stack becomes what `PopIdle` leaves, and every popped entry leaves it. On a hit, it returns that entry and the counter rises by one. On a miss, the counter rises by one only if it was below `maxActive`, and the creation result, error included, is returned with no rollback. Popped entries not handed out end closed. Only expired entries' transports are touched, and entries left on the stack keep their transport state unless the same connection was also popped |
| `ThriftPool.ThriftConnectionPool.ReleaseConnection` | internal/client/thrift_test.go:117-135 | keeps the invariant; the counter drops by one. An open connection is pushed on top if the stack is below `maxIdle`; otherwise it is closed. A closed one is discarded. The old stack stays as a prefix, and only `conn`'s transport can change, so if `conn` is itself idle (a double release onto a full stack), that entry is closed too |
| `ThriftPool.ThriftConnectionPool.CloseConnection` | internal/client/thrift_test.go:138-144 | keeps the invariant; the counter drops by one, the given transport is closed, even when `conn` is itself on the idle stack, and the idle stack is unchanged as a sequence |
| `ThriftPool.ThriftConnectionPool.Close` | internal/client/thrift_test.go:147-158 | keeps the invariant; every idle transport is closed, the stack is empty and the counter is 0. On a pool already closed, it closes nothing and ends in the same state |
| `ThriftPool.ThriftConnectionPool.Sweep` | internal/client/thrift_test.go:168-182 | keeps the invariant; the stack becomes exactly `Survivors` of the old stack. Each old entry ends open exactly when it was reusable, so every removed entry is closed. The counter is unchanged |

## Left out

- Locking and concurrency: the mutex, the goroutine that runs the cleanup
  routine (line 43), the ticker loop (lines 161-167), and running
  `Transport.Close()` asynchronously (lines 90, 133, 174). Each method is
  one atomic step, with closes done inside it. `Sweep` is one tick of the
  cleanup routine, called with the current time.
- The ticker needs `idleTimeout / 2 > 0`, and Go panics otherwise. The
  model does not require it, because the ticker is not modelled.
- Thrift I/O in `createConnection`: the socket, the buffered transport,
  the binary protocol and the client handle. It is reduced to the `dialOk`
  oracle. The address is stored but never used.
- `activeCount` is a Go `int`. Its 64-bit wrap-around is not modelled,
  because it would need about 2^63 unbalanced calls.
- Durations and times are unbounded integers. Overflow in `time.Since` is
  not modelled.
- The constructor requires `maxIdle >= 0`, because the code's
  `make(..., 0, maxIdle)` panics on a negative capacity.
- The concurrent stress test (lines 186-279) is not modelled. It can
  release or close a connection twice, which is why no method assumes one
  release per borrow.
- `internal/client/thrift_pool.go` is not part of this model. It adapts a
  third-party generic pool whose borrowing, blocking and eviction logic is
  not in the repository.
- The Redis repositories (`internal/data`), the empty use-case stubs
  (`internal/biz`), the service-layer copying (`internal/service`) and the
  server wiring (`internal/server`) are outside the pool and not modelled.
