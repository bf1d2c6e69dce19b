/** The policy that runs its callback at most once per arming, and only before a deadline. */
module ArmedWindowPolicy {
  import opened Counting
  import opened Interleaving

  datatype Phase = Armed | Fired | Expired

  /** A policy used by one thread, or by callers who take turns.  Clock readings are parameters. */
  class ArmedWindow {
    var phase: Phase
    var window: int
    var deadline: int

    constructor (now: int, window: int)
      ensures phase == Armed && this.window == window && deadline == now + window
    {
      this.window := window;
      deadline := now + window;
      phase := Armed;
    }

    method CompareExchange(expected: Phase, desired: Phase) returns (done: bool)
      modifies this`phase
      ensures done == (old(phase) == expected)
      ensures phase == if done then desired else old(phase)
    {
      if phase != expected {
        return false;
      }
      phase := desired;
      done := true;
    }

    /** `runs` tells whether the callback is invoked. */
    method Execute(now: int) returns (runs: bool)
      modifies this`phase
      ensures runs <==> old(phase) == Armed && now < deadline
      ensures phase == if runs then Fired else if old(phase) == Armed then Expired else old(phase)
    {
      var expected := phase;
      if expected != Armed {
        return false;
      }
      if now >= deadline {
        var _ := CompareExchange(expected, Expired);
        return false;
      }
      var done := CompareExchange(expected, Fired);
      if !done {
        return false;
      }
      runs := true;
    }

    method Reset(now: int)
      modifies this
      ensures phase == Armed && window == old(window) && deadline == now + old(window)
    {
      deadline := now + window;
      phase := Armed;
    }

    method Rearm(now: int, window: int)
      modifies this
      ensures phase == Armed && this.window == window && deadline == now + window
    {
      this.window := window;
      deadline := now + window;
      phase := Armed;
    }

    method Expire()
      modifies this`phase
      ensures phase == if old(phase) == Armed then Expired else old(phase)
    {
      var _ := CompareExchange(Armed, Expired);
    }
  }

  // ----- any number of threads -----

  /** A clock reading and the deadline it was compared with; after the exchange, the deadline in force there. */
  datatype Reading = Reading(now: int, deadline: int)

  /** Where a thread is: the latch was seen armed, the clock has been read, the exchange to `Fired` succeeded,
      or a new deadline is set and the latch is still to be stored. */
  datatype Pc = Idle | Loaded | Expiring(reading: Reading) | Firing(reading: Reading) | Won(reading: Reading) | Storing

  /** `runs` are the callbacks begun, by the readings that admitted them and the deadlines at their exchanges;
      `expirations` the exchanges to `Expired` that succeeded; `stores` the armings and `rearmings` those that found
      the latch not armed. */
  datatype State = State(phase: Phase, window: int, deadline: int, pcs: seq<Pc>,
                         runs: seq<Reading>, expirations: nat, stores: nat, rearmings: nat)

  datatype Action =
    | Load(thread: nat) | Clock(thread: nat, now: int) | ExchangeExpired(thread: nat) | ExchangeFired(thread: nat)
    | Call(thread: nat) | Expire(thread: nat)
    | SetDeadline(thread: nat, now: int) | SetWindow(thread: nat, now: int, window: int) | Store(thread: nat)

  function Lapse(s: State): State {
    if s.phase == Armed then s.(phase := Expired, expirations := s.expirations + 1) else s
  }

  function At(s: State, t: nat, pc: Pc): State
    requires t < |s.pcs|
  {
    s.(pcs := s.pcs[t := pc])
  }

  function Step(s: State, a: Action): State {
    var t := a.thread;
    if t >= |s.pcs| then s else
      match a
      case Load(_) => if s.pcs[t].Idle? && s.phase == Armed then At(s, t, Loaded) else s
      case Clock(_, now) =>
        if !s.pcs[t].Loaded? then s
        else
          var reading := Reading(now, s.deadline);
          At(s, t, if now >= s.deadline then Expiring(reading) else Firing(reading))
      case ExchangeExpired(_) => if s.pcs[t].Expiring? then At(Lapse(s), t, Idle) else s
      case ExchangeFired(_) =>
        if !s.pcs[t].Firing? then s
        else if s.phase == Armed then At(s, t, Won(s.pcs[t].reading.(deadline := s.deadline))).(phase := Fired)
        else At(s, t, Idle)
      case Call(_) => if s.pcs[t].Won? then At(s, t, Idle).(runs := s.runs + [s.pcs[t].reading]) else s
      case Expire(_) => if s.pcs[t].Idle? then Lapse(s) else s
      case SetDeadline(_, now) => if s.pcs[t].Idle? then At(s, t, Storing).(deadline := now + s.window) else s
      case SetWindow(_, now, window) =>
        if s.pcs[t].Idle? then At(s, t, Storing).(window := window, deadline := now + window) else s
      case Store(_) =>
        if !s.pcs[t].Storing? then s
        else At(s, t, Idle).(phase := Armed, stores := s.stores + 1,
                             rearmings := s.rearmings + if s.phase == Armed then 0 else 1)
  }

  function Start(threads: nat, now: int, window: int): State {
    State(Armed, window, now + window, seq(threads, _ => Idle), [], 0, 0, 0)
  }

  function Pending(s: State): nat {
    Number(s.pcs, (pc: Pc) => pc.Won?)
  }

  /** What armings have come to: a callback run begun or due, an expiry, or a latch still armed. */
  function Balance(s: State): int {
    |s.runs| + Pending(s) + s.expirations + (if s.phase == Armed then 1 else 0) - s.rearmings
  }

  lemma {:induction false} StepKeepsBalance(s: State, a: Action)
    ensures Balance(Step(s, a)) == Balance(s)
    ensures Step(s, a).stores - Step(s, a).rearmings >= s.stores - s.rearmings
  {
    var t := a.thread;
    if t < |s.pcs| {
      NumberUpdate(s.pcs, (pc: Pc) => pc.Won?, t, Step(s, a).pcs[t]);
      assert s.pcs[t := s.pcs[t]] == s.pcs;
    }
  }

  lemma {:induction false} RunKeepsBalance(s: State, actions: seq<Action>)
    ensures Balance(Run(Step, s, actions)) == Balance(s)
    ensures Run(Step, s, actions).stores - Run(Step, s, actions).rearmings >= s.stores - s.rearmings
    decreases actions
  {
    if actions != [] {
      var front := actions[..|actions| - 1];
      RunKeepsBalance(s, front);
      StepKeepsBalance(Run(Step, s, front), actions[|actions| - 1]);
    }
  }

  /** In every interleaving each arming comes to exactly one end: a callback run, an expiry, or none yet. */
  lemma {:induction false} ArmingsCounted(threads: nat, now: int, window: int, actions: seq<Action>)
    ensures var s := Run(Step, Start(threads, now, window), actions);
      && |s.runs| + Pending(s) + s.expirations + (if s.phase == Armed then 1 else 0) == 1 + s.rearmings
      && s.rearmings <= s.stores && |s.runs| <= 1 + s.stores
  {
    RunKeepsBalance(Start(threads, now, window), actions);
    NumberNone(Start(threads, now, window).pcs, (pc: Pc) => pc.Won?);
  }

  /** From any point on, until the latch is stored again, at most one more callback run becomes due. */
  lemma {:induction false} AtMostOncePerArming(s: State, actions: seq<Action>)
    requires forall i :: 0 <= i < |actions| ==> !actions[i].Store?
    ensures var s' := Run(Step, s, actions);
      && |s'.runs| + Pending(s') <= |s.runs| + Pending(s) + (if s.phase == Armed then 1 else 0)
      && s'.rearmings == s.rearmings && s'.expirations >= s.expirations
      && (s.phase != Armed ==> s'.phase == s.phase)
    decreases actions
  {
    RunKeepsBalance(s, actions);
    if actions != [] {
      AtMostOncePerArming(s, actions[..|actions| - 1]);
    }
  }

  // ----- the deadline, under any clock -----

  /** The thread has read the clock and is about to exchange the latch. */
  predicate Decided(pc: Pc) {
    pc.Firing? || pc.Expiring?
  }

  ghost predicate NoneDecided(s: State) {
    forall t :: 0 <= t < |s.pcs| ==> !Decided(s.pcs[t])
  }

  /** What a thread is about to do follows from the deadline in force, which is the one it read. */
  ghost predicate Current(s: State, t: nat)
    requires t < |s.pcs|
  {
    Decided(s.pcs[t]) ==> s.pcs[t].reading.deadline == s.deadline && Right(s, t)
  }

  /** What a thread is about to do is right by the deadline in force: fire before it, expire from then on. */
  ghost predicate Right(s: State, t: nat)
    requires t < |s.pcs|
  {
    Decided(s.pcs[t]) ==> (s.pcs[t].Firing? <==> s.pcs[t].reading.now < s.deadline)
  }

  ghost predicate AllCurrent(s: State) {
    forall t :: 0 <= t < |s.pcs| ==> Current(s, t)
  }

  ghost predicate AllRight(s: State) {
    forall t :: 0 <= t < |s.pcs| ==> Right(s, t)
  }

  /** The step leaves the deadline as it is, or no thread is between its clock reading and its exchange. */
  ghost predicate Coordinated(s: State, a: Action) {
    Step(s, a).deadline == s.deadline || NoneDecided(s)
  }

  lemma {:induction false} StepCurrentIff(s: State, a: Action)
    requires AllCurrent(s)
    ensures AllCurrent(Step(s, a)) <==> Coordinated(s, a)
  {
    var s' := Step(s, a);
    if s'.deadline != s.deadline && !NoneDecided(s) {
      var t :| 0 <= t < |s.pcs| && Decided(s.pcs[t]);
      assert s'.pcs[t] == s.pcs[t] && Current(s, t);
      assert !Current(s', t);
    } else {
      forall t | 0 <= t < |s'.pcs| ensures Current(s', t) {
        assert Current(s, t);
      }
    }
  }

  lemma {:induction false} RunExtends(s: State, actions: seq<Action>, k: nat)
    requires k < |actions|
    ensures Run(Step, s, actions[..k + 1]) == Step(Run(Step, s, actions[..k]), actions[k])
  {
    assert actions[..k + 1][..k] == actions[..k];
  }

  /** In every interleaving all threads act on the deadline in force throughout, exactly if each step is coordinated. */
  lemma {:induction false} DeadlineInForceIff(threads: nat, now: int, window: int, actions: seq<Action>)
    ensures var s := Start(threads, now, window);
      (forall k :: 0 <= k <= |actions| ==> AllCurrent(Run(Step, s, actions[..k])))
      <==> (forall k :: 0 <= k < |actions| ==> Coordinated(Run(Step, s, actions[..k]), actions[k]))
  {
    var s := Start(threads, now, window);
    hide Step, Coordinated;
    if forall k :: 0 <= k < |actions| ==> Coordinated(Run(Step, s, actions[..k]), actions[k]) {
      forall k | 0 <= k <= |actions| ensures AllCurrent(Run(Step, s, actions[..k])) {
        CoordinatedCurrent(threads, now, window, actions, k);
      }
    }
    if forall k :: 0 <= k <= |actions| ==> AllCurrent(Run(Step, s, actions[..k])) {
      forall k | 0 <= k < |actions| ensures Coordinated(Run(Step, s, actions[..k]), actions[k]) {
        RunExtends(s, actions, k);
        StepCurrentIff(Run(Step, s, actions[..k]), actions[k]);
      }
    }
  }

  lemma {:induction false} CoordinatedCurrent(threads: nat, now: int, window: int, actions: seq<Action>, k: nat)
    requires var s := Start(threads, now, window);
      forall i :: 0 <= i < |actions| ==> Coordinated(Run(Step, s, actions[..i]), actions[i])
    requires k <= |actions|
    ensures AllCurrent(Run(Step, Start(threads, now, window), actions[..k]))
    decreases k
  {
    if k > 0 {
      hide Step, Coordinated;
      CoordinatedCurrent(threads, now, window, actions, k - 1);
      RunExtends(Start(threads, now, window), actions, k - 1);
      StepCurrentIff(Run(Step, Start(threads, now, window), actions[..k - 1]), actions[k - 1]);
    }
  }

  /** Whatever the time and the window turn out to be, a new deadline is safe exactly while no thread is decided. */
  lemma {:induction false} RewriteSafeIff(s: State, u: nat)
    requires AllRight(s) && u < |s.pcs| && s.pcs[u].Idle?
    ensures (forall now, window :: AllRight(Step(s, SetWindow(u, now, window)))) <==> NoneDecided(s)
    ensures (forall now :: AllRight(Step(s, SetDeadline(u, now)))) <==> NoneDecided(s)
  {
    if !NoneDecided(s) {
      var t :| 0 <= t < |s.pcs| && Decided(s.pcs[t]);
      var wrong := if s.pcs[t].Firing? then s.pcs[t].reading.now else s.pcs[t].reading.now + 1;
      var s1, s2 := Step(s, SetWindow(u, wrong, 0)), Step(s, SetDeadline(u, wrong - s.window));
      assert s1.pcs[t] == s2.pcs[t] == s.pcs[t];
      assert !Right(s1, t) && !Right(s2, t);
    }
  }

  // ----- the deadline, under a clock that does not run backwards -----

  predicate Timed(a: Action) {
    a.Clock? || a.SetDeadline? || a.SetWindow?
  }

  /** The latest time read. */
  function Latest(now: int, actions: seq<Action>): int {
    if actions == [] then now
    else
      var last := actions[|actions| - 1];
      if Timed(last) then last.now else Latest(now, actions[..|actions| - 1])
  }

  lemma {:induction false} LatestExtends(now: int, actions: seq<Action>, k: nat)
    requires k < |actions|
    ensures Latest(now, actions[..k + 1]) == if Timed(actions[k]) then actions[k].now else Latest(now, actions[..k])
  {
    assert actions[..k + 1][..k] == actions[..k];
  }

  /** Clock readings do not decrease, and windows are positive. */
  ghost predicate Forward(now: int, window: int, actions: seq<Action>) {
    && window > 0
    && (forall k :: 0 <= k < |actions| && Timed(actions[k]) ==> actions[k].now >= Latest(now, actions[..k]))
    && (forall k :: 0 <= k < |actions| && actions[k].SetWindow? ==> actions[k].window > 0)
  }

  /** No thread has read a time later than `latest`, and nobody is about to fire, or has fired, past the deadline. */
  ghost predicate Punctual(s: State, latest: int) {
    && s.window > 0
    && (forall t :: 0 <= t < |s.pcs| && Decided(s.pcs[t]) ==> s.pcs[t].reading.now <= latest)
    && (forall t :: 0 <= t < |s.pcs| && s.pcs[t].Firing? ==> s.pcs[t].reading.now < s.deadline)
    && (forall t :: 0 <= t < |s.pcs| && s.pcs[t].Won? ==> s.pcs[t].reading.now < s.pcs[t].reading.deadline)
    && (forall i :: 0 <= i < |s.runs| ==> s.runs[i].now < s.runs[i].deadline)
  }

  lemma {:induction false} StepPunctual(s: State, a: Action, latest: int)
    requires Punctual(s, latest) && (Timed(a) ==> a.now >= latest) && (a.SetWindow? ==> a.window > 0)
    ensures Punctual(Step(s, a), if Timed(a) then a.now else latest)
  {
  }

  /** Even when deadlines are written in the middle, every callback run is admitted by a time before the deadline in
      force at its exchange. */
  lemma {:induction false} FiresBeforeDeadline(threads: nat, now: int, window: int, actions: seq<Action>)
    requires Forward(now, window, actions)
    ensures Punctual(Run(Step, Start(threads, now, window), actions), Latest(now, actions))
    decreases actions
  {
    if actions != [] {
      var last := |actions| - 1;
      var front := actions[..last];
      assert forall i :: 0 <= i <= last ==> actions[..i] == front[..i];
      assert front[..last] == front;
      FiresBeforeDeadline(threads, now, window, front);
      StepPunctual(Run(Step, Start(threads, now, window), front), actions[last], Latest(now, front));
    }
  }

  /** The step writes the deadline. */
  predicate Writes(s: State, a: Action) {
    (a.SetDeadline? || a.SetWindow?) && a.thread < |s.pcs| && s.pcs[a.thread].Idle?
  }

  /** If the step writes the deadline, no thread is between a reading that found it passed and its exchange. */
  ghost predicate Guarded(s: State, a: Action) {
    Writes(s, a) ==> forall t :: 0 <= t < |s.pcs| ==> !s.pcs[t].Expiring?
  }

  lemma {:induction false} StepRightIff(s: State, a: Action, latest: int)
    requires AllRight(s) && Punctual(s, latest) && (Timed(a) ==> a.now >= latest) && (a.SetWindow? ==> a.window > 0)
    ensures AllRight(Step(s, a)) <==> Guarded(s, a)
  {
    var s' := Step(s, a);
    if Guarded(s, a) {
      StepPunctual(s, a, latest);
      forall t | 0 <= t < |s'.pcs| ensures Right(s', t) {
        assert Right(s, t);
      }
    } else {
      var t :| 0 <= t < |s.pcs| && s.pcs[t].Expiring?;
      assert s'.pcs[t] == s.pcs[t];
      assert !Right(s', t);
    }
  }

  lemma {:induction false} ForwardPrefix(now: int, window: int, actions: seq<Action>, k: nat)
    requires Forward(now, window, actions) && k <= |actions|
    ensures Forward(now, window, actions[..k])
  {
    assert forall i :: 0 <= i < k ==> actions[..k][..i] == actions[..i];
  }

  lemma {:induction false} ForwardStep(threads: nat, now: int, window: int, actions: seq<Action>, k: nat)
    requires Forward(now, window, actions) && k < |actions|
    requires AllRight(Run(Step, Start(threads, now, window), actions[..k]))
    ensures AllRight(Run(Step, Start(threads, now, window), actions[..k + 1]))
      <==> Guarded(Run(Step, Start(threads, now, window), actions[..k]), actions[k])
  {
    hide Step, Guarded, AllRight, Punctual;
    ForwardPrefix(now, window, actions, k);
    FiresBeforeDeadline(threads, now, window, actions[..k]);
    RunExtends(Start(threads, now, window), actions, k);
    StepRightIff(Run(Step, Start(threads, now, window), actions[..k]), actions[k], Latest(now, actions[..k]));
  }

  lemma {:induction false} GuardedRight(threads: nat, now: int, window: int, actions: seq<Action>, k: nat)
    requires Forward(now, window, actions) && k <= |actions|
    requires forall i :: 0 <= i < |actions| ==>
      Guarded(Run(Step, Start(threads, now, window), actions[..i]), actions[i])
    ensures AllRight(Run(Step, Start(threads, now, window), actions[..k]))
    decreases k
  {
    if k > 0 {
      GuardedRight(threads, now, window, actions, k - 1);
      ForwardStep(threads, now, window, actions, k - 1);
    }
  }

  /** In every such interleaving, all threads decide right at all times exactly when every deadline write is guarded. */
  lemma {:induction false} DecidesRightIff(threads: nat, now: int, window: int, actions: seq<Action>)
    requires Forward(now, window, actions)
    ensures var s := Start(threads, now, window);
      (forall k :: 0 <= k <= |actions| ==> AllRight(Run(Step, s, actions[..k])))
      <==> (forall k :: 0 <= k < |actions| ==> Guarded(Run(Step, s, actions[..k]), actions[k]))
  {
    var s := Start(threads, now, window);
    hide Step, Guarded, AllRight, Forward;
    if forall k :: 0 <= k < |actions| ==> Guarded(Run(Step, s, actions[..k]), actions[k]) {
      forall k | 0 <= k <= |actions| ensures AllRight(Run(Step, s, actions[..k])) {
        GuardedRight(threads, now, window, actions, k);
      }
    }
    if forall k :: 0 <= k <= |actions| ==> AllRight(Run(Step, s, actions[..k])) {
      forall k | 0 <= k < |actions| ensures Guarded(Run(Step, s, actions[..k]), actions[k]) {
        ForwardStep(threads, now, window, actions, k);
      }
    }
  }

  // ----- how a callback run comes about -----

  /** Only its own steps move a thread, each from the place before it and on the condition that it tests. */
  lemma {:induction false} StepCause(s: State, a: Action, t: nat)
    requires t < |s.pcs| && Step(s, a).pcs[t] != s.pcs[t]
    ensures var pc := Step(s, a).pcs[t];
      && a.thread == t
      && (pc.Loaded? ==> a == Load(t) && s.pcs[t].Idle? && s.phase == Armed)
      && (Decided(pc) ==> a == Clock(t, pc.reading.now) && s.pcs[t].Loaded? && pc.reading.deadline == s.deadline)
      && (Decided(pc) ==> (pc.Firing? <==> pc.reading.now < s.deadline))
      && (pc.Won? ==> a == ExchangeFired(t) && s.pcs[t].Firing? && s.phase == Armed)
      && (pc.Won? ==> pc.reading == Reading(s.pcs[t].reading.now, s.deadline))
  {
  }

  lemma {:induction false} RunKeepsThreads(s: State, actions: seq<Action>)
    ensures |Run(Step, s, actions).pcs| == |s.pcs|
    decreases actions
  {
    if actions != [] {
      RunKeepsThreads(s, actions[..|actions| - 1]);
    }
  }

  /** Where a thread is after the first `k` steps. */
  function Place(s: State, actions: seq<Action>, t: nat, k: nat): Pc
    requires t < |s.pcs| && k <= |actions|
  {
    RunKeepsThreads(s, actions[..k]);
    Run(Step, s, actions[..k]).pcs[t]
  }

  /** The step that took a thread to where it is after `k` steps, and has left it there since. */
  lemma {:induction false} LastMove(s: State, actions: seq<Action>, t: nat, k: nat) returns (j: nat)
    requires t < |s.pcs| && k <= |actions| && Place(s, actions, t, k) != s.pcs[t]
    ensures j < k && Place(s, actions, t, j) != Place(s, actions, t, k)
    ensures Place(s, actions, t, j + 1) == Place(s, actions, t, k)
    ensures forall i :: j < i <= k ==> Place(s, actions, t, i) == Place(s, actions, t, k)
    decreases k
  {
    hide Step;
    assert k > 0 by {
      assert actions[..0] == [];
    }
    hide *;
    j := k - 1;
    if Place(s, actions, t, j) == Place(s, actions, t, k) {
      j := LastMove(s, actions, t, k - 1);
    }
  }

  /** The state in which step `j` is taken. */
  function Before(s: State, actions: seq<Action>, j: nat): State
    requires j <= |actions|
  {
    Run(Step, s, actions[..j])
  }

  lemma {:induction false} MoveCause(s: State, actions: seq<Action>, t: nat, k: nat) returns (j: nat)
    requires t < |s.pcs| && s.pcs[t].Idle? && k <= |actions|
    requires var pc := Place(s, actions, t, k); pc.Loaded? || Decided(pc) || pc.Won?
    ensures j < k && forall i :: j < i <= k ==> Place(s, actions, t, i) == Place(s, actions, t, k)
    ensures var pc, s' := Place(s, actions, t, k), Before(s, actions, j);
      && (pc.Loaded? ==> actions[j] == Load(t) && Place(s, actions, t, j).Idle? && s'.phase == Armed)
      && (Decided(pc) ==> actions[j] == Clock(t, pc.reading.now) && Place(s, actions, t, j).Loaded?)
      && (Decided(pc) ==> pc.reading.deadline == s'.deadline && (pc.Firing? <==> pc.reading.now < s'.deadline))
      && (pc.Won? ==> actions[j] == ExchangeFired(t) && Place(s, actions, t, j).Firing? && s'.phase == Armed)
      && (pc.Won? ==> pc.reading == Reading(Place(s, actions, t, j).reading.now, s'.deadline))
  {
    j := LastMove(s, actions, t, k);
    RunKeepsThreads(s, actions[..j]);
    RunExtends(s, actions, j);
    StepCause(Before(s, actions, j), actions[j], t);
    hide Step;
  }

  /** Step `k` is a load that saw the latch armed, and the thread has been busy with that call since. */
  ghost predicate Began(s: State, actions: seq<Action>, t: nat, k: nat, end: nat)
    requires t < |s.pcs| && end <= |actions|
  {
    && k < end && actions[k] == Load(t) && Place(s, actions, t, k).Idle? && Before(s, actions, k).phase == Armed
    && forall i :: k < i <= end ==> !Place(s, actions, t, i).Idle?
  }

  /** In every interleaving, a thread between its load and its callback began that call by seeing the latch armed. */
  lemma {:induction false} BeganArmed(s: State, actions: seq<Action>, t: nat, end: nat) returns (k: nat)
    requires t < |s.pcs| && s.pcs[t].Idle? && end <= |actions|
    requires var pc := Place(s, actions, t, end); pc.Loaded? || Decided(pc) || pc.Won?
    ensures Began(s, actions, t, k, end)
    decreases end
  {
    var j := MoveCause(s, actions, t, end);
    hide Place, Before;
    k := j;
    if !Place(s, actions, t, end).Loaded? {
      k := BeganArmed(s, actions, t, j);
    }
  }

  /**
    A callback run in full: the thread saw the latch armed, then read a time before the deadline, then found the latch
    still armed at the exchange, under the deadline that `reading` names.
   */
  ghost predicate Admits(s: State, actions: seq<Action>, t: nat, end: nat, reading: Reading, k: nat, m: nat, e: nat)
    requires t < |s.pcs| && end <= |actions|
  {
    && k < m < e < end && Began(s, actions, t, k, end)
    && actions[m] == Clock(t, reading.now) && reading.now < Before(s, actions, m).deadline
    && actions[e] == ExchangeFired(t) && Before(s, actions, e).phase == Armed
    && Before(s, actions, e).deadline == reading.deadline
  }

  lemma {:induction false} DueAdmitted(s: State, actions: seq<Action>, t: nat, end: nat)
    returns (k: nat, m: nat, e: nat)
    requires t < |s.pcs| && s.pcs[t].Idle? && end <= |actions| && Place(s, actions, t, end).Won?
    ensures Admits(s, actions, t, end, Place(s, actions, t, end).reading, k, m, e)
  {
    e := MoveCause(s, actions, t, end);
    m := MoveCause(s, actions, t, e);
    k := MoveCause(s, actions, t, m);
    hide Place, Before;
  }

  /** A callback run begun was due just before, in the thread that took the step. */
  lemma {:induction false} BegunWasDue(s: State, actions: seq<Action>, i: nat) returns (t: nat, c: nat)
    requires s.runs == [] && i < |Run(Step, s, actions).runs|
    ensures c < |actions| && t < |s.pcs| && actions[c] == Call(t)
    ensures Place(s, actions, t, c) == Won(Run(Step, s, actions).runs[i])
    decreases actions
  {
    var last := |actions| - 1;
    var front := actions[..last];
    RunKeepsThreads(s, front);
    var s' := Run(Step, s, front);
    if i < |s'.runs| {
      t, c := BegunWasDue(s, front, i);
      assert front[..c] == actions[..c];
    } else {
      t, c := actions[last].thread, last;
    }
  }

  /** In every interleaving, every callback run was admitted in full by the thread that began it. */
  lemma {:induction false} RunsAdmitted(threads: nat, now: int, window: int, actions: seq<Action>, i: nat)
    returns (t: nat, k: nat, m: nat, e: nat, c: nat)
    requires i < |Run(Step, Start(threads, now, window), actions).runs|
    ensures t < threads && c < |actions| && actions[c] == Call(t)
    ensures var s := Start(threads, now, window); Admits(s, actions, t, c, Run(Step, s, actions).runs[i], k, m, e)
  {
    var s := Start(threads, now, window);
    t, c := BegunWasDue(s, actions, i);
    k, m, e := DueAdmitted(s, actions, t, c);
  }

  // ----- counterexamples -----

  /** A `rearm` that overtakes an expiring thread has its new window expired at once. */
  lemma {:induction false} RearmExpiredAtOnce()
    ensures var actions := [Load(0), Clock(0, 12), SetWindow(1, 13, 5), Store(1), ExchangeExpired(0)];
      var s := Run(Step, Start(2, 0, 10), actions);
      Forward(0, 10, actions) && s.phase == Expired && s.deadline == 18
  {
    var s0 := Start(2, 0, 10);
    var a := [Load(0), Clock(0, 12), SetWindow(1, 13, 5), Store(1), ExchangeExpired(0)];
    Prefixes(a);
    assert s0.pcs == [Idle, Idle];
    assert Run(Step, s0, a[..1]).pcs == [Loaded, Idle];
    assert Run(Step, s0, a[..2]).pcs == [Expiring(Reading(12, 10)), Idle];
    assert Run(Step, s0, a[..3]).pcs == [Expiring(Reading(12, 10)), Storing];
    assert Run(Step, s0, a[..4]).pcs == [Expiring(Reading(12, 10)), Idle];
    LatestExtends(0, a, 0);
    LatestExtends(0, a, 1);
  }

  /** A clock that runs backwards lets a thread fire past the deadline in force. */
  lemma {:induction false} FiresPastDeadline()
    ensures var actions := [Load(0), Clock(0, 5), SetWindow(1, 0, 3), Store(1), ExchangeFired(0)];
      var s := Run(Step, Start(2, 0, 10), actions);
      !Forward(0, 10, actions) && s.pcs == [Won(Reading(5, 3)), Idle]
  {
    var s0 := Start(2, 0, 10);
    var a := [Load(0), Clock(0, 5), SetWindow(1, 0, 3), Store(1), ExchangeFired(0)];
    Prefixes(a);
    assert s0.pcs == [Idle, Idle];
    assert Run(Step, s0, a[..1]).pcs == [Loaded, Idle];
    assert Run(Step, s0, a[..2]).pcs == [Firing(Reading(5, 10)), Idle];
    assert Run(Step, s0, a[..3]).pcs == [Firing(Reading(5, 10)), Storing];
    assert Run(Step, s0, a[..4]).pcs == [Firing(Reading(5, 10)), Idle];
    LatestExtends(0, a, 1);
  }

  lemma {:induction false} Prefixes(a: seq<Action>)
    requires |a| == 5
    ensures a[..5] == a && a[..4][..3] == a[..3] && a[..3][..2] == a[..2] && a[..2][..1] == a[..1] && a[..1][..0] == []
  {
  }

  // ----- threads left alone -----

  /** Calls, and nothing else, are made by every thread, in any order. */
  ghost predicate EachCalls(s: State, actions: seq<Action>) {
    && (forall i :: 0 <= i < |actions| ==> actions[i].Call?)
    && (forall t :: 0 <= t < |s.pcs| ==> Call(t) in actions)
  }

  function AfterCalls(pcs: seq<Pc>): seq<Pc> {
    seq(|pcs|, t requires 0 <= t < |pcs| => if pcs[t].Won? then Idle else pcs[t])
  }

  /** How many callback runs with this reading are begun or due. */
  function Admitted(s: State, reading: Reading): nat {
    multiset(s.runs)[reading] + Number(s.pcs, (pc: Pc) => pc == Won(reading))
  }

  lemma {:induction false} CallMoves(s: State, t: nat)
    ensures var s' := Step(s, Call(t));
      && |s'.pcs| == |s.pcs| && s' == s.(pcs := s'.pcs, runs := s'.runs) && s.runs <= s'.runs
      && forall u :: 0 <= u < |s.pcs| ==> s'.pcs[u] == if u == t then AfterCalls(s.pcs)[u] else s.pcs[u]
  {
  }

  lemma {:induction false} CallStep(s: State, t: nat, reading: Reading)
    ensures Admitted(Step(s, Call(t)), reading) == Admitted(s, reading)
  {
    if t < |s.pcs| && s.pcs[t].Won? {
      NumberUpdate(s.pcs, (pc: Pc) => pc == Won(reading), t, Idle);
    }
  }

  lemma {:induction false} OnlyCalls(s: State, actions: seq<Action>)
    requires forall i :: 0 <= i < |actions| ==> actions[i].Call?
    ensures var s' := Run(Step, s, actions);
      && |s'.pcs| == |s.pcs| && s' == s.(pcs := s'.pcs, runs := s'.runs) && s.runs <= s'.runs
      && forall t :: 0 <= t < |s.pcs| ==> s'.pcs[t] == if Call(t) in actions then AfterCalls(s.pcs)[t] else s.pcs[t]
    decreases actions
  {
    if actions != [] {
      var front, last := actions[..|actions| - 1], actions[|actions| - 1];
      OnlyCalls(s, front);
      assert actions == front + [last];
      CallMoves(Run(Step, s, front), last.thread);
      hide Step;
    }
  }

  lemma {:induction false} OnlyCallsAdmitted(s: State, actions: seq<Action>, reading: Reading)
    requires forall i :: 0 <= i < |actions| ==> actions[i].Call?
    ensures Admitted(Run(Step, s, actions), reading) == Admitted(s, reading)
    decreases actions
  {
    if actions != [] {
      var front, last := actions[..|actions| - 1], actions[|actions| - 1];
      OnlyCallsAdmitted(s, front, reading);
      CallStep(Run(Step, s, front), last.thread, reading);
    }
  }

  /** From any state, once every thread has had its turn none is due, and each that was due has begun its callback. */
  lemma {:induction false} DueCallsBegin(s: State, actions: seq<Action>)
    requires EachCalls(s, actions)
    ensures var s' := Run(Step, s, actions);
      && s' == s.(pcs := AfterCalls(s.pcs), runs := s'.runs) && s.runs <= s'.runs
      && Pending(s') == 0 && |s'.runs| == |s.runs| + Pending(s)
      && forall reading :: multiset(s'.runs)[reading] == Admitted(s, reading)
  {
    OnlyCalls(s, actions);
    RunKeepsBalance(s, actions);
    var s' := Run(Step, s, actions);
    assert s'.pcs == AfterCalls(s.pcs);
    NumberNone(s'.pcs, (pc: Pc) => pc.Won?);
    forall reading ensures multiset(s'.runs)[reading] == Admitted(s, reading) {
      OnlyCallsAdmitted(s, actions, reading);
      NumberNone(s'.pcs, (pc: Pc) => pc == Won(reading));
    }
  }

  /** A thread left alone finishes the call it is in, from wherever it is and whatever others have done meanwhile. */
  lemma {:induction false} FinishAlone(s: State, t: nat, now: int)
    requires t < |s.pcs|
    ensures var s' := Run(Step, s, [Clock(t, now), ExchangeExpired(t), ExchangeFired(t), Call(t), Store(t)]);
      var pc, done := s.pcs[t], s.(pcs := s.pcs[t := Idle]);
      var fired, expired := done.(phase := Fired), done.(phase := Expired, expirations := s.expirations + 1);
      && ((pc.Loaded? && now >= s.deadline) || pc.Expiring? ==> s' == if s.phase == Armed then expired else done)
      && (pc.Loaded? && now < s.deadline ==>
            s' == if s.phase == Armed then fired.(runs := s.runs + [Reading(now, s.deadline)]) else done)
      && (pc.Firing? ==>
            s' == if s.phase == Armed then fired.(runs := s.runs + [Reading(pc.reading.now, s.deadline)]) else done)
      && (pc.Won? ==> s' == done.(runs := s.runs + [pc.reading]))
      && (pc.Storing? ==> s' == Stored(done))
      && (pc.Idle? ==> s' == s)
  {
    FiveSteps(s, Clock(t, now), ExchangeExpired(t), ExchangeFired(t), Call(t), Store(t));
  }

  function Stored(s: State): State {
    s.(phase := Armed, stores := s.stores + 1, rearmings := s.rearmings + if s.phase == Armed then 0 else 1)
  }

  lemma {:induction false} FiveSteps(s: State, a: Action, b: Action, c: Action, d: Action, e: Action)
    ensures Run(Step, s, [a, b, c, d, e]) == Step(Step(Step(Step(Step(s, a), b), c), d), e)
  {
    var all := [a, b, c, d, e];
    hide Step;
    RunExtends(s, all, 0);
    RunExtends(s, all, 1);
    RunExtends(s, all, 2);
    RunExtends(s, all, 3);
    RunExtends(s, all, 4);
    assert all[..0] == [] && all[..5] == all;
  }

  /** A thread left alone does what `ArmedWindow.Execute` says. */
  lemma {:induction false} ExecuteAlone(s: State, t: nat, now: int)
    requires t < |s.pcs| && s.pcs[t].Idle?
    ensures var s' := Run(Step, s, [Load(t), Clock(t, now), ExchangeExpired(t), ExchangeFired(t), Call(t)]);
      && (s.phase == Armed && now < s.deadline ==>
            s' == s.(phase := Fired, runs := s.runs + [Reading(now, s.deadline)]))
      && (s.phase == Armed && now >= s.deadline ==> s' == s.(phase := Expired, expirations := s.expirations + 1))
      && (s.phase != Armed ==> s' == s)
  {
    FiveSteps(s, Load(t), Clock(t, now), ExchangeExpired(t), ExchangeFired(t), Call(t));
    assert At(At(s, t, Loaded), t, Idle) == s;
  }

  /** Likewise for `Reset`, `Rearm` and `Expire`. */
  lemma {:induction false} OthersAlone(s: State, t: nat, now: int, window: int)
    requires t < |s.pcs| && s.pcs[t].Idle?
    ensures var rearmings := s.rearmings + if s.phase == Armed then 0 else 1;
      var armed := s.(phase := Armed, stores := s.stores + 1, rearmings := rearmings);
      && Run(Step, s, [SetDeadline(t, now), Store(t)]) == armed.(deadline := now + s.window)
      && Run(Step, s, [SetWindow(t, now, window), Store(t)]) == armed.(window := window, deadline := now + window)
    ensures Run(Step, s, [Expire(t)])
         == if s.phase == Armed then s.(phase := Expired, expirations := s.expirations + 1) else s
  {
    TwoSteps(s, SetDeadline(t, now), Store(t));
    TwoSteps(s, SetWindow(t, now, window), Store(t));
    assert [Expire(t)][..0] == [];
    assert s.pcs[t := Storing][t := Idle] == s.pcs;
  }

  lemma {:induction false} TwoSteps(s: State, a: Action, b: Action)
    ensures Run(Step, s, [a, b]) == Step(Step(s, a), b)
  {
    assert [a, b][..1] == [a] && [a][..0] == [];
    assert Run(Step, s, [a]) == Step(s, a);
  }
}
