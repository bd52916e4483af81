/** vaibify/cli/commandRemote.py: the backoff loop stays inside the hub's hold window. Time is exact here. */
module Reconnect {

  /** The three constants: hold window, margin before its end, and the longest delay. */
  datatype Policy = Policy(window: real, margin: real, cap: real)

  const SHIPPED := Policy(900.0, 5.0, 30.0)

  predicate Positive(p: Policy) { p.window > 0.0 && p.margin > 0.0 && p.cap > 0.0 }

  function Budget(p: Policy): real { p.window - p.margin }

  function TwoTo(n: nat): (r: real)
    ensures r >= 1.0
  {
    if n == 0 then 1.0 else 2.0 * TwoTo(n - 1)
  }

  function Delay(p: Policy, attempt: nat): real { if TwoTo(attempt) < p.cap then TwoTo(attempt) else p.cap }

  /** `ffNextReconnectDelaySeconds` */
  function NextDelay(p: Policy, attempt: nat, elapsed: real): real {
    if elapsed + Delay(p, attempt) > Budget(p) then -1.0 else Delay(p, attempt)
  }

  /** The sum of the first `n` delays of an outage. */
  function Total(p: Policy, n: nat): real {
    if n == 0 then 0.0 else Total(p, n - 1) + Delay(p, n - 1)
  }

  /** How many reconnections have failed since the last one that succeeded. */
  function Failures(outcomes: seq<bool>): (n: nat)
    ensures n <= |outcomes|
  {
    if outcomes == [] || outcomes[|outcomes| - 1] then 0 else Failures(outcomes[..|outcomes| - 1]) + 1
  }

  /** After these outcomes the next delay would pass the budget. */
  predicate Spent(p: Policy, outcomes: seq<bool>) { Total(p, Failures(outcomes) + 1) > Budget(p) }

  datatype Ending = Surrendered | Holding(attempt: nat, elapsed: real)

  /** `_fiHoldAndReconnect`, fed the outcome of each reconnection; true is success. */
  method HoldAndReconnect(p: Policy, outcomes: seq<bool>) returns (ending: Ending, delays: seq<real>)
    requires Positive(p)
    ensures |delays| <= |outcomes|
    ensures forall k | 0 <= k < |delays| :: delays[k] == Delay(p, Failures(outcomes[..k])) && !Spent(p, outcomes[..k])
    ensures ending.Surrendered? ==> |delays| < |outcomes| && Spent(p, outcomes[..|delays|])
    ensures ending.Holding? ==> |delays| == |outcomes| && ending.attempt == Failures(outcomes) && ending.elapsed == Total(p, ending.attempt)
  {
    hide Delay;
    var attempt, elapsed, i := 0, 0.0, 0;
    delays := [];
    while i < |outcomes|
      invariant 0 <= i <= |outcomes| && |delays| == i
      invariant attempt == Failures(outcomes[..i]) && elapsed == Total(p, attempt)
      invariant forall k | 0 <= k < i :: delays[k] == Delay(p, Failures(outcomes[..k])) && !Spent(p, outcomes[..k])
    {
      DelayIsPositive(p, attempt);
      var delay := NextDelay(p, attempt, elapsed);
      if delay < 0.0 { return Surrendered, delays; }
      delays := delays + [delay];
      attempt, elapsed := attempt + 1, elapsed + delay;
      assert outcomes[..i + 1][..i] == outcomes[..i];
      if outcomes[i] { attempt, elapsed := 0, 0.0; }
      i := i + 1;
    }
    assert outcomes[..|outcomes|] == outcomes;
    return Holding(attempt, elapsed), delays;
  }

  // ----- Every run -----

  lemma DelayIsPositive(p: Policy, attempt: nat)
    requires Positive(p)
    ensures 0.0 < Delay(p, attempt) <= p.cap
    ensures Delay(p, attempt) >= Shortest(p)
  {
  }

  /** A lower bound of every delay. */
  function Shortest(p: Policy): real { if p.cap < 1.0 then p.cap else 1.0 }

  lemma {:induction false} TotalGrows(p: Policy, n: nat)
    requires Positive(p)
    ensures Total(p, n) >= n as real * Shortest(p)
  {
    if n > 0 {
      TotalGrows(p, n - 1);
      DelayIsPositive(p, n - 1);
      assert n as real == (n - 1) as real + 1.0;
      assert (n - 1) as real * Shortest(p) + Shortest(p) == n as real * Shortest(p);
    }
  }

  lemma {:induction false} TotalIsMonotone(p: Policy, m: nat, n: nat)
    requires Positive(p) && m <= n
    ensures Total(p, m) <= Total(p, n)
    decreases n
  {
    if m < n {
      TotalIsMonotone(p, m, n - 1);
      DelayIsPositive(p, n - 1);
    }
  }

  /** A run the client has lived through: before no outcome was the budget spent. */
  predicate Lived(p: Policy, outcomes: seq<bool>) { forall k | 0 <= k < |outcomes| :: !Spent(p, outcomes[..k]) }

  /** In every run that goes on, the time waited since the last success stays inside window minus margin. */
  lemma WaitStaysInBudget(p: Policy, outcomes: seq<bool>)
    requires Positive(p) && Lived(p, outcomes)
    ensures Failures(outcomes) > 0 ==> Total(p, Failures(outcomes)) <= Budget(p)
    ensures Failures(outcomes) as real * Shortest(p) <= if Budget(p) > 0.0 then Budget(p) else 0.0
  {
    hide Delay, Shortest, Budget, Total;
    TotalGrows(p, Failures(outcomes));
    if Failures(outcomes) > 0 {
      assert !Spent(p, outcomes[..|outcomes| - 1]);
    } else {
      assert Failures(outcomes) as real * Shortest(p) == 0.0;
    }
  }

  /** `n` reconnections fail in a row. */
  function Down(n: nat): (r: seq<bool>)
    ensures |r| == n && forall i | 0 <= i < n :: !r[i]
  {
    seq(n, i => false)
  }

  lemma {:induction false} FailuresAddUp(before: seq<bool>, n: nat)
    ensures Failures(before + Down(n)) == Failures(before) + n
  {
    if n == 0 {
      assert before + Down(0) == before;
    } else {
      assert (before + Down(n))[..|before| + n - 1] == before + Down(n - 1);
      FailuresAddUp(before, n - 1);
    }
  }

  /** Every outage ends: whatever came before, after more failures in a row than the budget has room for, the client has given up. */
  lemma OutagesAreBounded(p: Policy, before: seq<bool>, n: nat)
    requires Positive(p) && Budget(p) < n as real * Shortest(p) && n > 0
    ensures !Lived(p, before + Down(n))
  {
    if Lived(p, before + Down(n)) {
      FailuresAddUp(before, n);
      var f := Failures(before + Down(n));
      WaitStaysInBudget(p, before + Down(n));
      assert f as real * Shortest(p) >= n as real * Shortest(p) by { Scaled(n, f, Shortest(p)); }
      TotalGrows(p, f);
    }
  }

  lemma Scaled(m: nat, n: nat, x: real)
    requires m <= n && x > 0.0
    ensures m as real * x <= n as real * x
  {
    assert (n - m) as real * x >= 0.0;
    assert n as real == m as real + (n - m) as real;
    assert n as real * x == m as real * x + (n - m) as real * x;
  }

  /** The number of attempts an outage is given. */
  predicate Allowed(p: Policy, n: nat) { (n == 0 || Total(p, n) <= Budget(p)) && Total(p, n + 1) > Budget(p) }

  /** After a success (or at the start) an outage gets exactly the allowed attempts, and then surrender. */
  lemma OutageLength(p: Policy, before: seq<bool>, n: nat, k: nat)
    requires Positive(p) && Allowed(p, n) && Failures(before) == 0
    ensures k < n ==> !Spent(p, before + Down(k))
    ensures k >= n ==> Spent(p, before + Down(k))
  {
    FailuresAddUp(before, k);
    if k < n { TotalIsMonotone(p, k + 1, n); } else { TotalIsMonotone(p, n + 1, k + 1); }
  }

  lemma {:induction false} CappedTotal(n: nat)
    requires n >= 5
    ensures Total(SHIPPED, n) == 31.0 + (n - 5) as real * 30.0
    ensures TwoTo(n) >= 32.0
  {
    if n == 5 {
      assert TwoTo(1) == 2.0 && TwoTo(2) == 4.0;
      assert TwoTo(3) == 8.0 && TwoTo(4) == 16.0;
      assert Total(SHIPPED, 1) == 1.0 && Total(SHIPPED, 2) == 3.0;
      assert Total(SHIPPED, 3) == 7.0 && Total(SHIPPED, 4) == 15.0;
    } else {
      CappedTotal(n - 1);
      assert Delay(SHIPPED, n - 1) == 30.0;
      assert (n - 5) as real == (n - 6) as real + 1.0;
    }
  }

  /** With the shipped constants an outage gets exactly 33 attempts, 871 seconds of waiting in all. */
  lemma ShippedAttempts(n: nat)
    ensures Allowed(SHIPPED, n) <==> n == 33
    ensures Total(SHIPPED, 33) == 871.0
  {
    CappedTotal(33);
    CappedTotal(34);
    if Allowed(SHIPPED, n) {
      if n < 33 { TotalIsMonotone(SHIPPED, n + 1, 33); }
      if n > 33 { TotalIsMonotone(SHIPPED, 34, n); }
    }
  }

  // ----- The time sessions take to establish, which the loop does not count -----

  /** One reconnection: whether it succeeded and how long it took, after its delay. */
  datatype Attempt = Attempt(ok: bool, connect: real)

  function Outcomes(h: seq<Attempt>): (r: seq<bool>)
    ensures |r| == |h| && forall i | 0 <= i < |h| :: r[i] == h[i].ok
  {
    seq(|h|, i requires 0 <= i < |h| => h[i].ok)
  }

  predicate Measured(h: seq<Attempt>) { forall i | 0 <= i < |h| :: h[i].connect >= 0.0 }

  /** The time on the clock since the tunnel of the last success was lost. */
  function Clock(p: Policy, h: seq<Attempt>): real {
    if h == [] || h[|h| - 1].ok then 0.0
    else Clock(p, h[..|h| - 1]) + Delay(p, Failures(Outcomes(h[..|h| - 1]))) + h[|h| - 1].connect
  }

  /** The part of it spent on sessions that did not come up. */
  function Connecting(h: seq<Attempt>): real {
    if h == [] || h[|h| - 1].ok then 0.0 else Connecting(h[..|h| - 1]) + h[|h| - 1].connect
  }

  lemma {:induction false} ClockIsWaitAndConnecting(p: Policy, h: seq<Attempt>)
    ensures Clock(p, h) == Total(p, Failures(Outcomes(h))) + Connecting(h)
  {
    hide Delay;
    if h != [] && !h[|h| - 1].ok {
      ClockIsWaitAndConnecting(p, h[..|h| - 1]);
      assert Outcomes(h)[..|h| - 1] == Outcomes(h[..|h| - 1]);
    }
  }

  /** The attempt after `h` starts inside window minus margin. */
  predicate StartsInTime(p: Policy, h: seq<Attempt>) { Clock(p, h) + Delay(p, Failures(Outcomes(h))) <= Budget(p) }

  /** How much of the outage that `h` ends in its first `k` attempts are. */
  function Since(h: seq<Attempt>, k: nat): seq<Attempt>
    requires k <= Failures(Outcomes(h))
  {
    h[..|h| - Failures(Outcomes(h)) + k]
  }

  lemma {:induction false} SinceFailures(h: seq<Attempt>, k: nat)
    requires Measured(h) && k <= Failures(Outcomes(h))
    ensures Failures(Outcomes(Since(h, k))) == k && Connecting(Since(h, k)) <= Connecting(h)
    decreases |h|
  {
    var n := Failures(Outcomes(h));
    if k == n {
      assert Since(h, k) == h;
    } else {
      var init := h[..|h| - 1];
      assert Outcomes(h)[..|h| - 1] == Outcomes(init);
      SinceFailures(init, k);
      assert Since(h, k) == Since(init, k);
    }
  }

  /** Every attempt of an outage starts inside window minus margin exactly when the
      sessions that failed to come up fit into what the delays leave of it. */
  lemma OutageStartsInTime(p: Policy, h: seq<Attempt>)
    requires Positive(p) && Measured(h)
    ensures (forall k | 0 <= k <= Failures(Outcomes(h)) :: StartsInTime(p, Since(h, k))) <==>
            Connecting(h) <= Budget(p) - Total(p, Failures(Outcomes(h)) + 1)
  {
    hide Delay, Connecting, Failures;
    var n := Failures(Outcomes(h));
    forall k | 0 <= k <= n
      ensures StartsInTime(p, Since(h, k)) <==> Total(p, k + 1) + Connecting(Since(h, k)) <= Budget(p)
      ensures Total(p, k + 1) + Connecting(Since(h, k)) <= Total(p, n + 1) + Connecting(h)
    {
      SinceFailures(h, k);
      ClockIsWaitAndConnecting(p, Since(h, k));
      TotalIsMonotone(p, k + 1, n + 1);
    }
    assert Since(h, n) == h;
  }

  /** An outage whose every session takes `c` seconds to fail. */
  function Dragging(n: nat, c: real): seq<Attempt> { seq(n, i => Attempt(false, c)) }

  lemma {:induction false} DraggingAdds(n: nat, c: real)
    ensures Failures(Outcomes(Dragging(n, c))) == n && Connecting(Dragging(n, c)) == n as real * c
  {
    if n > 0 {
      var h := Dragging(n, c);
      DraggingAdds(n - 1, c);
      assert h[..n - 1] == Dragging(n - 1, c);
      assert Outcomes(h)[..n - 1] == Outcomes(Dragging(n - 1, c));
      assert n as real * c == (n - 1) as real * c + c;
    }
  }

  /** With the shipped constants the last of the 33 attempts still counts as inside the
      budget; it starts in time exactly when the 32 before it took 24 seconds at most. */
  lemma SlowSessionsOverrun(c: real)
    requires c >= 0.0
    ensures !Spent(SHIPPED, Outcomes(Dragging(32, c)))
    ensures StartsInTime(SHIPPED, Dragging(32, c)) <==> 32.0 * c <= 24.0
  {
    DraggingAdds(32, c);
    CappedTotal(33);
    ClockIsWaitAndConnecting(SHIPPED, Dragging(32, c));
  }
}
