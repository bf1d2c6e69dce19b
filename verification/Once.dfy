/** The policy that runs its callback once until it is reset. */
module OncePolicy {
  import opened Counting
  import opened Interleaving

  /** A policy used by one thread, or by callers who take turns. */
  class Once {
    var fired: bool

    constructor ()
      ensures !fired
    {
      fired := false;
    }

    method CompareExchange(expected: bool, desired: bool) returns (done: bool)
      modifies this
      ensures done == (old(fired) == expected)
      ensures fired == if done then desired else old(fired)
    {
      if fired != expected {
        return false;
      }
      fired := desired;
      done := true;
    }

    /** `runs` tells whether the callback is invoked; the latch is set before it is. */
    method Execute() returns (runs: bool)
      modifies this
      ensures fired && runs == !old(fired)
    {
      var done := CompareExchange(false, true);
      if !done {
        return false;
      }
      runs := true;
    }

    method Reset()
      modifies this
      ensures !fired
    {
      fired := false;
    }
  }

  // ----- any number of threads -----

  /** `Won`: the exchange succeeded and the callback is still to be invoked. */
  datatype Pc = Idle | Won

  /** `rearmings` counts the resets that found the latch set. */
  datatype State = State(fired: bool, pcs: seq<Pc>, runs: nat, resets: nat, rearmings: nat)

  datatype Action = Exchange(thread: nat) | Call(thread: nat) | Reset(thread: nat)

  /** A thread is idle again once its callback has begun, so callbacks may use the policy themselves. */
  function Step(s: State, a: Action): State {
    var t := a.thread;
    if t >= |s.pcs| then s else
      match a
      case Exchange(_) => if s.pcs[t].Idle? && !s.fired then s.(fired := true, pcs := s.pcs[t := Won]) else s
      case Call(_) => if s.pcs[t].Won? then s.(pcs := s.pcs[t := Idle], runs := s.runs + 1) else s
      case Reset(_) =>
        if s.pcs[t].Idle? then
          s.(fired := false, resets := s.resets + 1, rearmings := s.rearmings + if s.fired then 1 else 0)
        else s
  }

  function Start(threads: nat): State {
    State(false, seq(threads, _ => Idle), 0, 0, 0)
  }

  function Pending(s: State): nat {
    Number(s.pcs, (pc: Pc) => pc.Won?)
  }

  /** Callback runs begun or due, and the one still to be had, less those that resets brought. */
  function Balance(s: State): int {
    s.runs + Pending(s) + (if s.fired then 0 else 1) - s.rearmings
  }

  lemma {:induction false} StepKeepsBalance(s: State, a: Action)
    ensures Balance(Step(s, a)) == Balance(s)
    ensures Step(s, a).resets - Step(s, a).rearmings >= s.resets - s.rearmings
  {
    var t := a.thread;
    if t < |s.pcs| {
      NumberUpdate(s.pcs, (pc: Pc) => pc.Won?, t, Won);
      NumberUpdate(s.pcs, (pc: Pc) => pc.Won?, t, Idle);
    }
  }

  lemma {:induction false} RunKeepsBalance(s: State, actions: seq<Action>)
    ensures Balance(Run(Step, s, actions)) == Balance(s)
    ensures Run(Step, s, actions).resets - Run(Step, s, actions).rearmings >= s.resets - s.rearmings
    decreases actions
  {
    if actions != [] {
      var front := actions[..|actions| - 1];
      RunKeepsBalance(s, front);
      StepKeepsBalance(Run(Step, s, front), actions[|actions| - 1]);
    }
  }

  /** In every interleaving the callback runs exactly once for each time the latch was found open and then closed. */
  lemma {:induction false} RunsCounted(threads: nat, actions: seq<Action>)
    ensures var s := Run(Step, Start(threads), actions);
      && s.runs + Pending(s) == s.rearmings + (if s.fired then 1 else 0)
      && s.rearmings <= s.resets && s.runs <= 1 + s.resets
  {
    RunKeepsBalance(Start(threads), actions);
    NumberNone(Start(threads).pcs, (pc: Pc) => pc.Won?);
  }

  /** Without a reset the latch stays set, and no further callback becomes due. */
  lemma {:induction false} LatchHolds(s: State, actions: seq<Action>)
    requires s.fired && forall i :: 0 <= i < |actions| ==> !actions[i].Reset?
    ensures var s' := Run(Step, s, actions); s'.fired && s'.runs + Pending(s') == s.runs + Pending(s)
    decreases actions
  {
    if actions != [] {
      var front := actions[..|actions| - 1];
      LatchHolds(s, front);
      var m := Run(Step, s, front);
      StepKeepsBalance(m, actions[|actions| - 1]);
    }
  }

  /** Calls, and nothing else, are made by every thread, in any order. */
  ghost predicate EachCalls(s: State, actions: seq<Action>) {
    && (forall i :: 0 <= i < |actions| ==> actions[i].Call?)
    && (forall t :: 0 <= t < |s.pcs| ==> Call(t) in actions)
  }

  lemma {:induction false} OnlyCalls(s: State, actions: seq<Action>)
    requires forall i :: 0 <= i < |actions| ==> actions[i].Call?
    ensures var s' := Run(Step, s, actions);
      && |s'.pcs| == |s.pcs| && s' == s.(pcs := s'.pcs, runs := s'.runs)
      && forall t :: 0 <= t < |s.pcs| ==> s'.pcs[t] == if Call(t) in actions then Idle else s.pcs[t]
    decreases actions
  {
    if actions != [] {
      var front, last := actions[..|actions| - 1], actions[|actions| - 1];
      OnlyCalls(s, front);
      assert actions == front + [last];
    }
  }

  /** From any state, once every thread has had its turn none is due, and each that was due has begun its callback. */
  lemma {:induction false} DueCallsBegin(s: State, actions: seq<Action>)
    requires EachCalls(s, actions)
    ensures var s' := Run(Step, s, actions);
      s' == s.(pcs := seq(|s.pcs|, _ => Idle), runs := s.runs + Pending(s)) && Pending(s') == 0
  {
    OnlyCalls(s, actions);
    RunKeepsBalance(s, actions);
    var s' := Run(Step, s, actions);
    assert s'.pcs == seq(|s.pcs|, _ => Idle);
    NumberNone(s'.pcs, (pc: Pc) => pc.Won?);
  }

  /** A thread left alone does what `Once.Execute` and `Once.Reset` say. */
  lemma {:induction false} ExecuteAlone(s: State, t: nat)
    requires t < |s.pcs| && s.pcs[t].Idle?
    ensures Run(Step, s, [Exchange(t), Call(t)]) == s.(fired := true, runs := s.runs + if s.fired then 0 else 1)
    ensures Run(Step, s, [Reset(t)])
         == s.(fired := false, resets := s.resets + 1, rearmings := s.rearmings + if s.fired then 1 else 0)
  {
    var a := [Exchange(t), Call(t)];
    assert a[..1] == [Exchange(t)] && a[..1][..0] == [] && [Reset(t)][..0] == [];
    var m := Step(s, Exchange(t));
    assert Run(Step, s, a[..1]) == m;
    assert s.pcs[t := Won][t := Idle] == s.pcs;
  }
}
