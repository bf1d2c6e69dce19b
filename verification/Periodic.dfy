/** The policy that, when polled, runs its callback once for each period elapsed since the schedule began. */
module PeriodicPolicy {
  import opened Arithmetic

  /** How many whole periods after `start` the time `t` lies; none before it. */
  function Elapsed(start: int, period: int, t: int): nat
    requires period > 0
  {
    if t < start then 0 else (t - start) / period
  }

  /** The latest of `seen` and the times polled at. */
  function Latest(seen: int, times: seq<int>): int {
    if times == [] then seen else Max(Latest(seen, times[..|times| - 1]), times[|times| - 1])
  }

  function Deadline(start: int, period: int, k: nat): int {
    start + k * period
  }

  /** `Elapsed` is the number of deadlines that `t` has reached. */
  lemma {:induction false} ElapsedBetween(start: int, period: int, t: int, k: nat)
    requires period > 0
    ensures Elapsed(start, period, t) == k
      <==> (k == 0 || Deadline(start, period, k) <= t) && t < Deadline(start, period, k + 1)
  {
    if t >= start {
      var q, r := (t - start) / period, (t - start) % period;
      assert t - start == q * period + r;
      Apart(q, k, period);
      Apart(k, q, period);
    } else {
      Apart(0, k, period);
    }
  }

  lemma {:induction false} DeadlineNext(start: int, period: int, k: nat)
    ensures Deadline(start, period, k + 1) == Deadline(start, period, k) + period
  {
  }

  lemma {:induction false} DeadlineOrder(start: int, period: int, j: nat, k: nat)
    requires period > 0 && j <= k
    ensures Deadline(start, period, j) <= Deadline(start, period, k)
  {
    Apart(j, k, period);
  }

  /** Catching up from `before` to `after` elapsed periods accounts for everything seen so far. */
  lemma {:induction false} CaughtUp(start: int, period: int, seen: int, now: int, before: nat, after: nat)
    requires period > 0 && before == Elapsed(start, period, seen) && before <= after
    requires (after > before ==> Deadline(start, period, after) <= now) && now < Deadline(start, period, after + 1)
    ensures after == Elapsed(start, period, Max(seen, now))
  {
    ElapsedBetween(start, period, seen, before);
    ElapsedBetween(start, period, Max(seen, now), after);
    DeadlineOrder(start, period, before + 1, after + 1);
  }

  lemma {:induction false} Apart(j: int, k: int, period: int)
    requires period > 0
    ensures (k + 1) * period == k * period + period
    ensures j < k ==> (j + 1) * period <= k * period
    ensures j <= k ==> j * period <= k * period
  {
  }

  /** With a period that is not positive, no number of turns of the catch-up loop gets past a time once reached. */
  lemma {:induction false} NeverCaughtUp(deadline: int, period: int, now: int, turns: nat)
    requires period <= 0 && now >= deadline
    ensures now >= Deadline(deadline, period, turns)
    decreases turns
  {
    if turns > 0 {
      NeverCaughtUp(deadline, period, now, turns - 1);
      DeadlineNext(deadline, period, turns - 1);
    }
  }

  class Periodic {
    const period: int
    var nextDeadline: int
    /** When the schedule was last started, the latest time seen since, and the callback runs since. */
    ghost var start: int
    ghost var seen: int
    ghost var total: nat

    /** The schedule has not drifted, and the callback has run once per period elapsed. */
    ghost predicate Valid()
      reads this
    {
      && nextDeadline == Deadline(start, period, total + 1)
      && (period > 0 ==> total == Elapsed(start, period, seen))
      && (period <= 0 ==> total == 0)
    }

    constructor (now: int, period: int)
      ensures Valid() && this.period == period && start == now && seen == now && total == 0
    {
      this.period := period;
      nextDeadline := now + period;
      start, seen, total := now, now, 0;
    }

    /** With a period that is not positive, a poll ends only before the first deadline. */
    method Poll(now: int) returns (runs: nat)
      requires Valid() && (period > 0 || now < nextDeadline)
      modifies this
      ensures Valid() && start == old(start) && seen == Max(old(seen), now) && total == old(total) + runs
      ensures now < nextDeadline
    {
      hide Deadline, Elapsed;
      ghost var before, latest := total, seen;
      var elapsed: nat := 0;
      while now >= nextDeadline
        invariant start == old(start) && seen == latest && total == before
        invariant nextDeadline == Deadline(start, period, before + elapsed + 1)
        invariant elapsed > 0 ==> period > 0 && Deadline(start, period, before + elapsed) <= now
        decreases if period > 0 then now - nextDeadline + 1 else 0
      {
        elapsed := elapsed + 1;
        nextDeadline := nextDeadline + period;
        DeadlineNext(start, period, before + elapsed);
      }
      if period > 0 { CaughtUp(start, period, seen, now, before, before + elapsed); }
      seen := Max(seen, now);
      runs := 0;
      ghost var due := elapsed;
      while elapsed != 0
        invariant runs + elapsed == due && total == before + runs
        invariant start == old(start) && seen == Max(latest, now)
        invariant nextDeadline == Deadline(start, period, before + due + 1)
        invariant now < nextDeadline
        decreases elapsed
      {
        elapsed := elapsed - 1;
        runs := runs + 1;
        total := total + 1;
      }
    }

    method Reset(now: int)
      modifies this
      ensures Valid() && start == now && seen == now && total == 0 && nextDeadline == now + period
    {
      nextDeadline := now + period;
      start, seen, total := now, now, 0;
    }

    /** However the clock readings jump, the callback runs once for each period up to the latest of them. */
    method PollAll(times: seq<int>) returns (runs: nat)
      requires Valid() && period > 0 && total == 0
      modifies this
      ensures Valid() && start == old(start)
      ensures runs == Elapsed(start, period, Latest(old(seen), times))
      ensures nextDeadline == Deadline(start, period, runs + 1)
    {
      runs := 0;
      for i := 0 to |times|
        invariant Valid() && start == old(start) && total == runs && seen == Latest(old(seen), times[..i])
      {
        var ran := Poll(times[i]);
        runs := runs + ran;
        assert times[..i + 1][..i] == times[..i];
      }
      assert times[..|times|] == times;
    }
  }
}
