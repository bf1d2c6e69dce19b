/** The policy that runs its callback on every n-th call.  `modulus` is the number of values of `size_type`. */
module EveryNPolicy {
  import opened Arithmetic
  import opened Counting
  import opened Interleaving

  /** A policy used by one thread, or by callers who take turns. */
  class EveryN {
    const modulus: nat
    const n: nat
    var counter: nat

    ghost predicate Valid()
      reads this
    {
      1 <= n < modulus && counter < n
    }

    constructor (modulus: nat, n: nat)
      requires 1 < modulus && n < modulus
      ensures Valid() && this.modulus == modulus && this.n == (if n == 0 then 1 else n) && counter == 0
    {
      this.modulus := modulus;
      this.n := if n == 0 then 1 else n;
      counter := 0;
    }

    /** `runs` tells whether the callback is invoked. */
    method Execute() returns (runs: bool)
      requires Valid()
      modifies this
      ensures Valid()
      ensures runs <==> old(counter) == n - 1
      ensures counter == if runs then 0 else old(counter) + 1
    {
      var previous := counter;
      counter := (counter + 1) % modulus;
      Remainder(previous + 1, modulus);
      Remainder(previous + 1, n);
      if (previous + 1) % modulus % n != 0 {
        return false;
      }
      counter := 0;
      runs := true;
    }

    method Reset()
      requires Valid()
      modifies this
      ensures Valid() && counter == 0
    {
      counter := 0;
    }

    /** After `m` more calls the callback has run once for every full `n` calls, and the counter keeps the rest. */
    method ExecuteMany(m: nat) returns (runs: nat)
      requires Valid()
      modifies this
      ensures Valid()
      ensures runs == (old(counter) + m) / n && counter == (old(counter) + m) % n
    {
      runs := 0;
      for i := 0 to m
        invariant Valid() && runs * n + counter == old(counter) + i
      {
        var ran := Execute();
        if ran {
          TimesNext(runs, n);
          runs := runs + 1;
        }
      }
      DivisionUnique(old(counter) + m, n, runs, counter);
    }
  }

  // ----- any number of threads -----

  /**
    `Hit`: a multiple of n was counted and the counter is still to be zeroed; `Due`: the callback is still to be
    invoked.
   */
  datatype Pc = Idle | Hit | Due

  datatype State = State(modulus: nat, n: nat, counter: nat, pcs: seq<Pc>, calls: nat, runs: nat)

  datatype Action = FetchAdd(thread: nat) | Zero(thread: nat) | Call(thread: nat) | Reset(thread: nat)

  ghost predicate Sized(s: State) {
    1 <= s.n < s.modulus && s.counter < s.modulus
  }

  function Step(s: State, a: Action): State {
    var t := a.thread;
    if t >= |s.pcs| || s.n == 0 || s.modulus == 0 then s else
      match a
      case FetchAdd(_) =>
        if !s.pcs[t].Idle? then s
        else
          var counted := s.(counter := (s.counter + 1) % s.modulus, calls := s.calls + 1);
          if (s.counter + 1) % s.modulus % s.n == 0 then counted.(pcs := s.pcs[t := Hit]) else counted
      case Zero(_) => if s.pcs[t].Hit? then s.(counter := 0, pcs := s.pcs[t := Due]) else s
      case Call(_) => if s.pcs[t].Due? then s.(pcs := s.pcs[t := Idle], runs := s.runs + 1) else s
      case Reset(_) => if s.pcs[t].Idle? then s.(counter := 0) else s
  }

  function Start(modulus: nat, n: nat, threads: nat): State {
    State(modulus, n, 0, seq(threads, _ => Idle), 0, 0)
  }

  /** Callback runs begun or due. */
  function Hits(s: State): nat {
    s.runs + Number(s.pcs, (pc: Pc) => pc != Idle)
  }

  /** Every hit is paid for by `n` calls, and the counter's remainder by as many more. */
  ghost predicate Paid(s: State) {
    Sized(s) && s.n * Hits(s) + s.counter % s.n <= s.calls
  }

  /** The step counts a call. */
  predicate Counts(s: State, a: Action) {
    a.FetchAdd? && a.thread < |s.pcs| && s.pcs[a.thread].Idle?
  }

  /** If the step counts a call, the counter does not wrap, or wraps at a multiple of `n`. */
  ghost predicate WrapsCleanly(s: State, a: Action)
    requires s.n > 0
  {
    Counts(s, a) ==> s.counter + 1 < s.modulus || s.modulus % s.n == 0
  }

  lemma {:induction false} PaidSized(s: State)
    requires Paid(s)
    ensures Sized(s)
  {
  }

  lemma {:induction false} StepCounter(s: State, a: Action)
    requires Sized(s) && WrapsCleanly(s, a)
    ensures var s' := Step(s, a);
      && Sized(s') && s'.n == s.n && s'.modulus == s.modulus && |s'.pcs| == |s.pcs|
      && s'.calls == s.calls + (if Counts(s, a) then 1 else 0)
      && s'.counter <= s.counter + (if Counts(s, a) then 1 else 0)
      && (Counts(s, a) && s'.pcs[a.thread].Hit? ==> s.counter % s.n == s.n - 1 && s'.counter % s.n == 0)
      && (Counts(s, a) && !s'.pcs[a.thread].Hit? ==> s'.counter % s.n == s.counter % s.n + 1)
      && (!Counts(s, a) ==> s'.counter == s.counter || s'.counter % s.n == 0)
  {
    NextRemainder(s.counter, s.n);
    Remainder(s.counter + 1, s.modulus);
    assert 0 % s.n == 0;
  }

  lemma {:induction false} StepHits(s: State, a: Action)
    ensures |Step(s, a).pcs| == |s.pcs|
    ensures Hits(Step(s, a)) == Hits(s) + if Counts(s, a) && Step(s, a).pcs[a.thread].Hit? then 1 else 0
  {
    var t := a.thread;
    if t < |s.pcs| {
      NumberUpdate(s.pcs, (pc: Pc) => pc != Idle, t, Step(s, a).pcs[t]);
      assert s.pcs[t := s.pcs[t]] == s.pcs;
    }
  }

  lemma {:induction false} StepKeepsPaid(s: State, a: Action)
    requires Paid(s) && WrapsCleanly(s, a)
    ensures Paid(Step(s, a))
  {
    StepHits(s, a);
    StepCounter(s, a);
    TimesNext(Hits(s), s.n);
    hide Hits, Step, WrapsCleanly, Counts;
  }

  /** A counter that stays within the calls does not wrap before as many calls as it has values. */
  lemma {:induction false} StepKeepsBounds(s: State, a: Action)
    requires Paid(s) && s.counter <= s.calls
    requires s.modulus % s.n == 0 || s.calls + 1 < s.modulus || !Counts(s, a)
    ensures var s' := Step(s, a); Paid(s') && s'.n == s.n && s'.modulus == s.modulus && s'.counter <= s'.calls
  {
    hide Hits, Step, Counts;
    StepKeepsPaid(s, a);
    StepCounter(s, a);
  }

  lemma {:induction false} StepCalls(s: State, a: Action)
    ensures s.calls <= Step(s, a).calls && (Sized(s) && Counts(s, a) ==> Step(s, a).calls == s.calls + 1)
  {
  }

  lemma {:induction false} RunPaid(modulus: nat, n: nat, threads: nat, actions: seq<Action>)
    requires 1 <= n < modulus
    requires modulus % n == 0 || Run(Step, Start(modulus, n, threads), actions).calls < modulus
    ensures var s := Run(Step, Start(modulus, n, threads), actions);
      Paid(s) && s.n == n && s.modulus == modulus && s.counter <= s.calls
    decreases actions
  {
    if actions == [] {
      NumberNone(Start(modulus, n, threads).pcs, (pc: Pc) => pc != Idle);
    } else {
      hide Step, Paid;
      var front := actions[..|actions| - 1];
      var s := Run(Step, Start(modulus, n, threads), front);
      StepCalls(s, actions[|actions| - 1]);
      RunPaid(modulus, n, threads, front);
      assert Sized(s) by { PaidSized(s); }
      StepKeepsBounds(s, actions[|actions| - 1]);
    }
  }

  /** Fewer calls than the counter has values cannot wrap it, however many threads make them. */
  lemma {:induction false} RunsWithinFewCalls(modulus: nat, n: nat, threads: nat, actions: seq<Action>)
    requires 1 <= n < modulus && Run(Step, Start(modulus, n, threads), actions).calls < modulus
    ensures var s := Run(Step, Start(modulus, n, threads), actions); n * Hits(s) <= s.calls
  {
    hide Step, Run;
    RunPaid(modulus, n, threads, actions);
  }

  // ----- how far the counter can get -----

  function Parked(s: State): nat {
    Number(s.pcs, (pc: Pc) => pc.Hit?)
  }

  /** The counter gets past a multiple of `n` only while the thread that counted it has yet to zero the counter. */
  ghost predicate Held(s: State) {
    Sized(s) && s.counter / s.n <= Parked(s)
  }

  lemma {:induction false} CannotWrap(s: State, t: nat)
    requires Held(s) && |s.pcs| * s.n < s.modulus && t < |s.pcs| && s.pcs[t].Idle?
    ensures s.counter + 1 < s.modulus
  {
    NumberBound(s.pcs, (pc: Pc) => pc.Hit?);
    NumberAll(s.pcs, (pc: Pc) => pc.Hit?);
    QuotientBelow(s.counter, s.n, |s.pcs|);
  }

  lemma {:induction false} StepKeepsHeld(s: State, a: Action)
    requires Held(s) && |s.pcs| * s.n < s.modulus
    ensures Held(Step(s, a))
  {
    var t := a.thread;
    if t < |s.pcs| {
      NumberUpdate(s.pcs, (pc: Pc) => pc.Hit?, t, Step(s, a).pcs[t]);
      assert s.pcs[t := s.pcs[t]] == s.pcs;
      if a.FetchAdd? && s.pcs[t].Idle? {
        CannotWrap(s, t);
        Remainder(s.counter + 1, s.modulus);
        NextRemainder(s.counter, s.n);
      }
      assert 0 / s.n == 0;
    }
  }

  lemma {:induction false} StepKeepsAll(s: State, a: Action)
    requires Held(s) && Paid(s) && |s.pcs| * s.n < s.modulus
    ensures var s' := Step(s, a); Held(s') && Paid(s') && s'.n == s.n && s'.modulus == s.modulus && |s'.pcs| == |s.pcs|
  {
    if Counts(s, a) {
      CannotWrap(s, a.thread);
    }
    assert Sized(s) && WrapsCleanly(s, a);
    hide Held, Paid, Sized, WrapsCleanly, Counts, Step;
    StepKeepsHeld(s, a);
    StepKeepsPaid(s, a);
    StepCounter(s, a);
  }

  lemma {:induction false} RunHeld(modulus: nat, n: nat, threads: nat, actions: seq<Action>)
    requires 1 <= n < modulus && threads * n < modulus
    ensures var s := Run(Step, Start(modulus, n, threads), actions);
      Held(s) && Paid(s) && s.n == n && s.modulus == modulus && |s.pcs| == threads
    decreases actions
  {
    if actions == [] {
      RunPaid(modulus, n, threads, []);
      assert 0 / n == 0;
    } else {
      hide Step, Paid, Held;
      var front := actions[..|actions| - 1];
      RunHeld(modulus, n, threads, front);
      StepKeepsAll(Run(Step, Start(modulus, n, threads), front), actions[|actions| - 1]);
    }
  }

  /** In every interleaving, of any number of calls, `n` times the callback runs is at most the calls. */
  lemma {:induction false} RunsWithinCalls(modulus: nat, n: nat, threads: nat, actions: seq<Action>)
    requires 1 <= n < modulus && (modulus % n == 0 || threads * n < modulus)
    ensures var s := Run(Step, Start(modulus, n, threads), actions); n * s.runs <= n * Hits(s) <= s.calls
  {
    hide Step, Run;
    if modulus % n == 0 {
      RunPaid(modulus, n, threads, actions);
    } else {
      RunHeld(modulus, n, threads, actions);
    }
    var s := Run(Step, Start(modulus, n, threads), actions);
    AtLeast(Hits(s), s.runs, n);
  }

  // ----- when the counter wraps -----

  /** One thread after the other calls until it counts a multiple of `n`, and stops there. */
  function Adds(n: nat, k: nat): seq<Action>
    requires n > 0
  {
    seq(k, i requires 0 <= i < k => FetchAdd(i / n))
  }

  lemma {:induction false} AddsRun(modulus: nat, n: nat, threads: nat, k: nat)
    requires 1 <= n < modulus && k < modulus <= threads * n
    ensures var s := Run(Step, Start(modulus, n, threads), Adds(n, k));
      && s.modulus == modulus && s.n == n && s.counter == k == s.calls && |s.pcs| == threads && Hits(s) == k / n
      && forall t :: k / n <= t < threads ==> s.pcs[t].Idle?
  {
    if k == 0 {
      NumberNone(Start(modulus, n, threads).pcs, (pc: Pc) => pc != Idle);
      assert 0 / n == 0;
    } else {
      AddsRun(modulus, n, threads, k - 1);
      var s := Run(Step, Start(modulus, n, threads), Adds(n, k - 1));
      QuotientBelow(k - 1, n, threads);
      AddOne(s, (k - 1) / n);
      assert Adds(n, k)[..k - 1] == Adds(n, k - 1);
    }
  }

  lemma {:induction false} AddOne(s: State, t: nat)
    requires Sized(s) && s.counter + 1 < s.modulus && t == s.counter / s.n < |s.pcs| && s.pcs[t].Idle?
    requires Hits(s) == s.counter / s.n && forall u :: t <= u < |s.pcs| ==> s.pcs[u].Idle?
    ensures var s' := Step(s, FetchAdd(t));
      && s'.modulus == s.modulus && s'.n == s.n && s'.counter == s.counter + 1 && s'.calls == s.calls + 1
      && |s'.pcs| == |s.pcs| && Hits(s') == s'.counter / s.n
      && forall u :: s'.counter / s.n <= u < |s.pcs| ==> s'.pcs[u].Idle?
  {
    StepHits(s, FetchAdd(t));
    Remainder(s.counter + 1, s.modulus);
    NextRemainder(s.counter, s.n);
  }

  /** With enough threads to hold the counter back, its wrap counts as a multiple of `n` too early. */
  lemma {:induction false} WrapRunsTooOften(modulus: nat, n: nat, threads: nat)
    requires 1 <= n < modulus <= threads * n && modulus % n != 0
    ensures var s := Run(Step, Start(modulus, n, threads), Adds(n, modulus)); n * Hits(s) > s.calls
  {
    var s := Run(Step, Start(modulus, n, threads), Adds(n, modulus - 1));
    AddsRun(modulus, n, threads, modulus - 1);
    QuotientBelow(modulus - 1, n, threads);
    LastAdd(s, (modulus - 1) / n);
    assert Adds(n, modulus)[..modulus - 1] == Adds(n, modulus - 1);
    hide Step, Adds;
    NextMultiple(modulus, n);
  }

  /** The call that finds the counter at its greatest value is a hit, whatever `n` is. */
  lemma {:induction false} LastAdd(s: State, t: nat)
    requires Sized(s) && s.counter == s.modulus - 1 && t < |s.pcs| && s.pcs[t].Idle?
    ensures Hits(Step(s, FetchAdd(t))) == Hits(s) + 1 && Step(s, FetchAdd(t)).calls == s.calls + 1
  {
    StepHits(s, FetchAdd(t));
    Remainder(s.modulus, s.modulus);
    assert 0 % s.n == 0;
  }

  lemma {:induction false} NextMultiple(x: nat, n: nat)
    requires n > 0 && x % n != 0
    ensures n * ((x - 1) / n + 1) > x
  {
    var q, r := (x - 1) / n, x % n;
    assert q == x / n && r < n by { NextRemainder(x - 1, n); }
    assert x == q * n + r;
    TimesNext(q, n);
  }

  ghost predicate WithinCalls(modulus: nat, n: nat, threads: nat, actions: seq<Action>) {
    n * Hits(Run(Step, Start(modulus, n, threads), actions)) <= Run(Step, Start(modulus, n, threads), actions).calls
  }

  /**
    The callback keeps to one run per `n` calls exactly when `n` divides the modulus or the threads are too few to wrap
    the counter.
   */
  lemma {:induction false} RunsWithinCallsIff(modulus: nat, n: nat, threads: nat)
    requires 1 <= n < modulus
    ensures (forall actions :: WithinCalls(modulus, n, threads, actions)) <==> modulus % n == 0 || threads * n < modulus
  {
    if modulus % n == 0 || threads * n < modulus {
      forall actions ensures WithinCalls(modulus, n, threads, actions) {
        RunsWithinCalls(modulus, n, threads, actions);
      }
    } else {
      WrapRunsTooOften(modulus, n, threads);
      assert !WithinCalls(modulus, n, threads, Adds(n, modulus));
    }
  }

  // ----- resets -----

  lemma {:induction false} QuietStep(s: State, a: Action)
    requires Sized(s) && (Counts(s, a) ==> s.counter + 1 < s.n)
    ensures var s' := Step(s, a);
      && Sized(s') && s'.n == s.n && Hits(s') == Hits(s)
      && s'.counter <= s.counter + (if Counts(s, a) then 1 else 0)
      && s'.calls == s.calls + (if Counts(s, a) then 1 else 0)
  {
    StepHits(s, a);
    if Counts(s, a) {
      Remainder(s.counter + 1, s.modulus);
      Remainder(s.counter + 1, s.n);
    }
  }

  lemma {:induction false} QuietRun(s: State, actions: seq<Action>)
    requires Sized(s) && s.counter == 0 && Run(Step, s, actions).calls < s.calls + s.n
    ensures var s' := Run(Step, s, actions);
      Sized(s') && s'.n == s.n && s.calls <= s'.calls && Hits(s') == Hits(s) && s'.counter <= s'.calls - s.calls
    decreases actions
  {
    if actions != [] {
      hide Step, Hits, Counts;
      var front, last := actions[..|actions| - 1], actions[|actions| - 1];
      var m := Run(Step, s, front);
      StepCalls(m, last);
      QuietRun(s, front);
      QuietStep(m, last);
    }
  }

  /**
    A reset is heeded at once, whatever the counter has got to and whatever other threads are about to do: no callback
    run becomes due before `n` further calls are counted.
   */
  lemma {:induction false} QuietAfterReset(s: State, t: nat, actions: seq<Action>)
    requires Sized(s) && t < |s.pcs| && s.pcs[t].Idle?
    ensures var s0 := Run(Step, s, [Reset(t)]);
      && s0 == s.(counter := 0)
      && (Run(Step, s0, actions).calls < s0.calls + s.n ==> Hits(Run(Step, s0, actions)) == Hits(s))
  {
    var a := [Reset(t)];
    assert a[..0] == [] && Run(Step, s, a[..0]) == s;
    var s0 := Run(Step, s, a);
    if Run(Step, s0, actions).calls < s0.calls + s.n {
      QuietRun(s0, actions);
    }
  }

  lemma {:induction false} SteadyStep(s: State, a: Action)
    requires Sized(s) && (a.FetchAdd? || a.Call?) && (Counts(s, a) ==> s.counter + 1 < s.modulus)
    ensures var s' := Step(s, a); var counted := if Counts(s, a) then 1 else 0;
      && Sized(s') && s'.n == s.n && s'.modulus == s.modulus
      && s'.counter == s.counter + counted && s'.calls == s.calls + counted
      && Hits(s') - Hits(s) == s'.counter / s.n - s.counter / s.n
  {
    StepHits(s, a);
    if Counts(s, a) {
      Remainder(s.counter + 1, s.modulus);
      NextRemainder(s.counter, s.n);
    }
  }

  /** As long as nobody zeroes the counter, every `n`-th call counted from zero is a hit, and no other is. */
  lemma {:induction false} EveryNthHits(s: State, actions: seq<Action>)
    requires Sized(s) && s.counter == 0 && forall i :: 0 <= i < |actions| ==> actions[i].FetchAdd? || actions[i].Call?
    requires Run(Step, s, actions).calls < s.calls + s.modulus
    ensures var s' := Run(Step, s, actions);
      && Sized(s') && s'.n == s.n && s'.modulus == s.modulus && s.calls <= s'.calls
      && s'.counter == s'.calls - s.calls && Hits(s') == Hits(s) + (s'.calls - s.calls) / s.n
    decreases actions
  {
    if actions == [] {
      assert 0 / s.n == 0;
    } else {
      hide Step, Hits, Counts;
      var front, last := actions[..|actions| - 1], actions[|actions| - 1];
      var m := Run(Step, s, front);
      StepCalls(m, last);
      EveryNthHits(s, front);
      SteadyStep(m, last);
    }
  }

  // ----- threads left alone -----

  /** Calls, and nothing else, are made by every thread, in any order. */
  ghost predicate EachCalls(s: State, actions: seq<Action>) {
    && (forall i :: 0 <= i < |actions| ==> actions[i].Call?)
    && (forall t :: 0 <= t < |s.pcs| ==> Call(t) in actions)
  }

  function AfterCalls(pcs: seq<Pc>): seq<Pc> {
    seq(|pcs|, t requires 0 <= t < |pcs| => if pcs[t].Due? then Idle else pcs[t])
  }

  function Waiting(s: State): nat {
    Number(s.pcs, (pc: Pc) => pc.Due?)
  }

  lemma {:induction false} OnlyCalls(s: State, actions: seq<Action>)
    requires Sized(s) && forall i :: 0 <= i < |actions| ==> actions[i].Call?
    ensures var s' := Run(Step, s, actions);
      && |s'.pcs| == |s.pcs| && s' == s.(pcs := s'.pcs, runs := s'.runs) && s'.runs + Waiting(s') == s.runs + Waiting(s)
      && forall t :: 0 <= t < |s.pcs| ==> s'.pcs[t] == if Call(t) in actions then AfterCalls(s.pcs)[t] else s.pcs[t]
    decreases actions
  {
    if actions != [] {
      var front, last := actions[..|actions| - 1], actions[|actions| - 1];
      OnlyCalls(s, front);
      assert actions == front + [last];
      var m := Run(Step, s, front);
      if last.thread < |m.pcs| {
        NumberUpdate(m.pcs, (pc: Pc) => pc.Due?, last.thread, Idle);
      }
    }
  }

  /** From any state, once every thread has had its turn none is due, and each that was due has begun its callback. */
  lemma {:induction false} DueCallsBegin(s: State, actions: seq<Action>)
    requires Sized(s) && EachCalls(s, actions)
    ensures var s' := Run(Step, s, actions);
      s' == s.(pcs := AfterCalls(s.pcs), runs := s.runs + Waiting(s)) && Waiting(s') == 0
  {
    OnlyCalls(s, actions);
    var s' := Run(Step, s, actions);
    assert s'.pcs == AfterCalls(s.pcs);
    NumberNone(s'.pcs, (pc: Pc) => pc.Due?);
  }

  /** A thread left alone finishes the call it is in: a hit zeroes the counter, and what is due runs. */
  lemma {:induction false} FinishAlone(s: State, t: nat)
    requires Sized(s) && t < |s.pcs|
    ensures var s' := Run(Step, s, [Zero(t), Call(t)]);
      && (s.pcs[t].Hit? ==> s' == s.(counter := 0, pcs := s.pcs[t := Idle], runs := s.runs + 1))
      && (s.pcs[t].Due? ==> s' == s.(pcs := s.pcs[t := Idle], runs := s.runs + 1))
      && (s.pcs[t].Idle? ==> s' == s)
  {
    var a := [Zero(t), Call(t)];
    assert a[..1] == [Zero(t)] && a[..1][..0] == [];
    assert Run(Step, s, a[..1]) == Step(s, Zero(t));
  }

  /** A thread left alone does what `EveryN.Execute` says; past `n` it goes by the counter that it finds. */
  lemma {:induction false} ExecuteAlone(s: State, t: nat)
    requires Sized(s) && t < |s.pcs| && s.pcs[t].Idle?
    ensures var s' := Run(Step, s, [FetchAdd(t), Zero(t), Call(t)]); var counted := (s.counter + 1) % s.modulus;
      && s' == (if counted % s.n == 0 then s.(counter := 0, calls := s.calls + 1, runs := s.runs + 1)
                else s.(counter := counted, calls := s.calls + 1))
      && (s.counter < s.n ==> counted == s.counter + 1 && (counted % s.n == 0 <==> s.counter == s.n - 1))
  {
    var a := [FetchAdd(t), Zero(t), Call(t)];
    var s1 := Step(s, a[0]);
    var s2 := Step(s1, a[1]);
    assert a[..2][..1] == a[..1] && a[..1][..0] == [];
    assert Run(Step, s, a[..1]) == s1;
    assert Run(Step, s, a[..2]) == s2;
    if s.counter < s.n {
      Remainder(s.counter + 1, s.modulus);
      Remainder(s.counter + 1, s.n);
    }
    assert Step(s2, a[2]).pcs == s.pcs;
  }
}
