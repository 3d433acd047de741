/**
 * The idle stack of the pool as a sequence of connections, bottom first, and
 * the two ways the pool takes entries off it: the borrow path pops from the
 * top until it finds a reusable entry, and the cleanup sweep filters the
 * whole stack. Both decide with `Reusable`, read in the heap the function is
 * evaluated in; the pool's methods evaluate them in the state before the call.
 */
module IdleStack {
  import opened Results
  import opened Connections

  /** What the borrow path leaves on the stack, and the entry it hands out, if any. */
  datatype Pop = Pop(rest: seq<ClientConn>, hit: Option<ClientConn>)

  /** The entry handed out by the borrow path, as a one-element or empty sequence. */
  function HitSeq(p: Pop): seq<ClientConn>
  {
    if p.hit.Some? then [p.hit.value] else []
  }

  /**
   * The entries a cleanup sweep at time `now` keeps: those not expired and
   * still open, in their original order.
   */
  function Survivors(cs: seq<ClientConn>, now: int, idleTimeout: int): (r: seq<ClientConn>)
    reads cs
    ensures |r| <= |cs|
    ensures forall k :: 0 <= k < |r| ==> r[k] in cs && Reusable(r[k], now, idleTimeout)
    ensures forall j :: 0 <= j < |cs| && Reusable(cs[j], now, idleTimeout) ==> cs[j] in r
    decreases |cs|
  {
    if cs == [] then []
    else
      var last := cs[|cs| - 1];
      var kept := Survivors(cs[..|cs| - 1], now, idleTimeout);
      if Reusable(last, now, idleTimeout) then kept + [last] else kept
  }

  /**
   * The borrow path over the idle stack at time `now`: pop the top entry; an
   * expired one is dropped (and closed by the caller), one whose transport is
   * not open is dropped, and the first one left is handed out.
   */
  function PopIdle(cs: seq<ClientConn>, now: int, idleTimeout: int): (p: Pop)
    reads cs
    ensures |p.rest| <= |cs| && p.rest == cs[..|p.rest|]
    ensures p.hit.None? ==>
              p.rest == [] && forall j :: 0 <= j < |cs| ==> !Reusable(cs[j], now, idleTimeout)
    ensures p.hit.Some? ==>
              && |p.rest| < |cs|
              && p.hit.value == cs[|p.rest|]
              && Reusable(p.hit.value, now, idleTimeout)
              && forall j :: |p.rest| < j < |cs| ==> !Reusable(cs[j], now, idleTimeout)
    decreases |cs|
  {
    if cs == [] then Pop([], None)
    else
      var last := cs[|cs| - 1];
      if Expired(last, now, idleTimeout) then PopIdle(cs[..|cs| - 1], now, idleTimeout)
      else if last.open then Pop(cs[..|cs| - 1], Some(last))
      else PopIdle(cs[..|cs| - 1], now, idleTimeout)
  }

  /** `r` can be obtained from `s` by deleting entries, the rest keeping their order. */
  ghost predicate IsSubsequence<T>(r: seq<T>, s: seq<T>)
    decreases |s|
  {
    if r == [] then true
    else if s == [] then false
    else if r[|r| - 1] == s[|s| - 1] then IsSubsequence(r[..|r| - 1], s[..|s| - 1])
    else IsSubsequence(r, s[..|s| - 1])
  }

  /** A sweep keeps the surviving entries in their original relative order. */
  lemma {:induction false} SurvivorsInOrder(cs: seq<ClientConn>, now: int, idleTimeout: int)
    ensures IsSubsequence(Survivors(cs, now, idleTimeout), cs)
    decreases |cs|
  {
    if cs != [] {
      var init := cs[..|cs| - 1];
      SurvivorsInOrder(init, now, idleTimeout);
      var kept := Survivors(init, now, idleTimeout);
      var last := cs[|cs| - 1];
      if Reusable(last, now, idleTimeout) {
        assert (kept + [last])[..|kept|] == kept;
      } else {
        assert last !in kept;
      }
    }
  }

  /** Sweeping a stack built from two parts sweeps each part on its own. */
  lemma {:induction false} SurvivorsAppend(a: seq<ClientConn>, b: seq<ClientConn>, now: int, idleTimeout: int)
    ensures Survivors(a + b, now, idleTimeout) == Survivors(a, now, idleTimeout) + Survivors(b, now, idleTimeout)
    decreases |b|
  {
    if b == [] {
      assert a + b == a;
    } else {
      var init := b[..|b| - 1];
      assert (a + b)[..|a + b| - 1] == a + init;
      assert (a + b)[|a + b| - 1] == b[|b| - 1];
      SurvivorsAppend(a, init, now, idleTimeout);
    }
  }

  /**
   * A sweep at a later time after a sweep at an earlier one leaves exactly
   * what the later sweep alone leaves; with equal times, a second sweep at
   * the same instant removes nothing.
   */
  lemma {:induction false} SweepThenLaterSweep(cs: seq<ClientConn>, earlier: int, later: int, idleTimeout: int)
    requires earlier <= later
    ensures Survivors(Survivors(cs, earlier, idleTimeout), later, idleTimeout) == Survivors(cs, later, idleTimeout)
    decreases |cs|
  {
    if cs != [] {
      var init := cs[..|cs| - 1];
      var last := cs[|cs| - 1];
      var kept := Survivors(init, earlier, idleTimeout);
      SweepThenLaterSweep(init, earlier, later, idleTimeout);
      if Reusable(last, earlier, idleTimeout) {
        assert (kept + [last])[..|kept|] == kept;
      }
    }
  }

  /**
   * The entry the borrow path hands out is the topmost entry a sweep at the
   * same instant would keep; the sweep's survivors are those of what the
   * borrow path leaves, plus the entry handed out.
   */
  lemma {:induction false} PopIdleTakesTopSurvivor(cs: seq<ClientConn>, now: int, idleTimeout: int)
    ensures Survivors(cs, now, idleTimeout)
            == Survivors(PopIdle(cs, now, idleTimeout).rest, now, idleTimeout) + HitSeq(PopIdle(cs, now, idleTimeout))
    decreases |cs|
  {
    if cs != [] {
      PopIdleTakesTopSurvivor(cs[..|cs| - 1], now, idleTimeout);
    }
  }

  /** Right after a sweep, a borrow at the same instant takes the top entry and drops nothing. */
  lemma PopAfterSweep(cs: seq<ClientConn>, now: int, idleTimeout: int)
    ensures var s := Survivors(cs, now, idleTimeout);
            PopIdle(s, now, idleTimeout) == if s == [] then Pop([], None) else Pop(s[..|s| - 1], Some(s[|s| - 1]))
  {
  }
}
