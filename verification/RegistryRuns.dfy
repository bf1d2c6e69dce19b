/**
  Whole runs over a callback registry and a growing list of handles.  Slots and generations answer like a ledger
  that gives every registration an id and never reuses one, as long as no slot can come round to an old generation.
 */
module RegistryRuns {
  import opened Basics
  import opened CallbackRegistry
  import opened Interleaving

  /** Handles are named by their position in the list; a position outside of it stands for a null handle. */
  datatype Op<C> =
    | SubscribeOp(callback: Option<C>) | CopyOp(handle: nat) | UnsubscribeOp(handle: nat) | ResetOp(handle: nat)
    | ClearOp | SizeOp

  datatype Answer = Did(status: Status) | Size(count: int)

  function HandleAt<T>(handles: seq<Option<T>>, h: nat): Option<T> {
    if h < |handles| then handles[h] else None
  }

  /** The list once the handle has been used up. */
  function Spent<T>(handles: seq<Option<T>>, h: nat): seq<Option<T>> {
    if h < |handles| then handles[h := None] else handles
  }

  // ----- slots and generations -----

  datatype Ref = Ref(index: nat, generation: nat)

  datatype Machine<C> = Machine(slots: seq<Slot<C>>, active: int, handles: seq<Option<Ref>>, log: seq<Answer>)

  function FirstEmpty<C>(slots: seq<Slot<C>>): nat {
    if slots == [] || slots[0].callback.None? then 0 else 1 + FirstEmpty(slots[1..])
  }

  lemma {:induction false} FirstEmptyIs<C>(slots: seq<Slot<C>>, i: nat)
    requires i <= |slots| && (i < |slots| ==> slots[i].callback.None?)
    requires forall j :: 0 <= j < i ==> slots[j].callback.Some?
    ensures FirstEmpty(slots) == i
    decreases i
  {
    if i > 0 {
      FirstEmptyIs(slots[1..], i - 1);
    }
  }

  lemma {:induction false} FirstEmptyBounds<C>(slots: seq<Slot<C>>)
    ensures FirstEmpty(slots) <= |slots|
    ensures FirstEmpty(slots) < |slots| ==> slots[FirstEmpty(slots)].callback.None?
    ensures forall j :: 0 <= j < FirstEmpty(slots) ==> slots[j].callback.Some?
    decreases slots
  {
    if slots != [] && slots[0].callback.Some? {
      FirstEmptyBounds(slots[1..]);
      assert forall j :: 0 < j < |slots| ==> slots[j] == slots[1..][j - 1];
    }
  }

  predicate Carries<C>(slots: seq<Slot<C>>, ref: Ref) {
    ref.index < |slots| && slots[ref.index].callback.Some? && slots[ref.index].generation == ref.generation
  }

  function MachineStep<C>(m: Machine<C>, op: Op<C>): Machine<C> {
    match op
    case SubscribeOp(callback) =>
      var i := FirstEmpty(m.slots);
      if callback.None? then m.(handles := m.handles + [None], log := m.log + [Did(InvalidCallback)])
      else if i >= |m.slots| then m.(handles := m.handles + [None], log := m.log + [Did(Full)])
      else
        m.(slots := m.slots[i := m.slots[i].(callback := callback)], active := m.active + 1,
           handles := m.handles + [Some(Ref(i, m.slots[i].generation))], log := m.log + [Did(Ok)])
    case CopyOp(h) => m.(handles := m.handles + [HandleAt(m.handles, h)], log := m.log + [Did(Ok)])
    case UnsubscribeOp(h) =>
      var used := m.(handles := Spent(m.handles, h));
      (match HandleAt(m.handles, h)
       case Some(ref) =>
         if Carries(m.slots, ref) then
           used.(slots := m.slots[ref.index := Slot(None, NextGeneration(ref.generation))], active := m.active - 1,
                 log := m.log + [Did(Ok)])
         else used.(log := m.log + [Did(InvalidSubscription)])
       case None => used.(log := m.log + [Did(InvalidSubscription)]))
    case ResetOp(h) => m.(handles := Spent(m.handles, h), log := m.log + [Did(Ok)])
    case ClearOp => m.(slots := Cleared(m.slots), active := 0, log := m.log + [Did(Ok)])
    case SizeOp => m.(log := m.log + [Size(m.active)])
  }

  function MachineStart<C>(capacity: nat): Machine<C> {
    Machine(seq(capacity, _ => Slot(None, 0)), 0, [], [])
  }

  // ----- registrations with ids of their own -----

  /** The registrations are `0 .. issued - 1`. */
  datatype Ledger = Ledger(capacity: nat, issued: nat, active: set<nat>, handles: seq<Option<nat>>, log: seq<Answer>)

  function LedgerStep<C>(l: Ledger, op: Op<C>): Ledger {
    match op
    case SubscribeOp(callback) =>
      if callback.None? then l.(handles := l.handles + [None], log := l.log + [Did(InvalidCallback)])
      else if |l.active| >= l.capacity then l.(handles := l.handles + [None], log := l.log + [Did(Full)])
      else
        l.(issued := l.issued + 1, active := l.active + {l.issued}, handles := l.handles + [Some(l.issued)],
           log := l.log + [Did(Ok)])
    case CopyOp(h) => l.(handles := l.handles + [HandleAt(l.handles, h)], log := l.log + [Did(Ok)])
    case UnsubscribeOp(h) =>
      var used := l.(handles := Spent(l.handles, h));
      (match HandleAt(l.handles, h)
       case Some(id) =>
         if id in l.active then used.(active := l.active - {id}, log := l.log + [Did(Ok)])
         else used.(log := l.log + [Did(InvalidSubscription)])
       case None => used.(log := l.log + [Did(InvalidSubscription)]))
    case ResetOp(h) => l.(handles := Spent(l.handles, h), log := l.log + [Did(Ok)])
    case ClearOp => l.(active := {}, log := l.log + [Did(Ok)])
    case SizeOp => l.(log := l.log + [Size(|l.active|)])
  }

  function LedgerStart(capacity: nat): Ledger {
    Ledger(capacity, 0, {}, [], [])
  }

  /** In the ledger a registration that has ended stays so, whatever handles to it are left. */
  lemma {:induction false} EndedForGood<C>(l: Ledger, ops: seq<Op<C>>, id: nat)
    requires id < l.issued && id !in l.active
    ensures id < Run(LedgerStep, l, ops).issued && id !in Run(LedgerStep, l, ops).active
    decreases ops
  {
    if ops != [] {
      EndedForGood(l, ops[..|ops| - 1], id);
    }
  }

  /** What the operation is answered. */
  function Reply<C>(l: Ledger, op: Op<C>): Answer {
    var log := LedgerStep(l, op).log;
    if log == [] then Did(Ok) else log[|log| - 1]
  }

  ghost predicate Booked(l: Ledger) {
    |l.active| <= l.capacity && forall id :: id in l.active ==> id < l.issued
  }

  lemma {:induction false} StepBooked<C>(l: Ledger, op: Op<C>)
    requires Booked(l)
    ensures var l' := LedgerStep(l, op); Booked(l') && l.log <= l'.log && |l'.log| == |l.log| + 1
  {
    match op
    case UnsubscribeOp(h) =>
      var id := HandleAt(l.handles, h);
      if id.Some? {
        assert l.active - {id.value} <= l.active;
      }
    case _ =>
  }

  /** Every operation adds one answer, and ids are given out once. */
  lemma {:induction false} StaysBooked<C>(l: Ledger, ops: seq<Op<C>>)
    requires Booked(l)
    ensures var l' := Run(LedgerStep, l, ops); Booked(l') && l.log <= l'.log && |l'.log| == |l.log| + |ops|
    decreases ops
  {
    if ops != [] {
      StaysBooked(l, ops[..|ops| - 1]);
      StepBooked(Run(LedgerStep, l, ops[..|ops| - 1]), ops[|ops| - 1]);
      hide LedgerStep, Booked;
    }
  }

  /** A subscription is refused for want of a callback or of room; otherwise its handle ends it, once. */
  lemma {:induction false} SubscriptionEndsOnce<C>(l: Ledger, callback: Option<C>)
    requires Booked(l)
    ensures var l1, h := LedgerStep(l, SubscribeOp(callback)), |l.handles|;
      var l2 := LedgerStep<C>(l1, UnsubscribeOp(h));
      && (Reply(l, SubscribeOp(callback)) == Did(InvalidCallback) <==> callback.None?)
      && (Reply(l, SubscribeOp(callback)) == Did(Full) <==> callback.Some? && |l.active| == l.capacity)
      && (Reply(l, SubscribeOp(callback)) == Did(Ok) <==> Reply<C>(l1, UnsubscribeOp(h)) == Did(Ok))
      && (Reply(l, SubscribeOp(callback)) == Did(Ok) <==> Reply<C>(l1, SizeOp) == Size(|l.active| + 1))
      && l2.active == l.active && Reply<C>(l2, UnsubscribeOp(h)) == Did(InvalidSubscription)
  {
    assert l.active + {l.issued} - {l.issued} == l.active;
  }

  /** A copy is as good as the handle it was made from, and what one of them ends is ended for the other. */
  lemma {:induction false} CopiesShare<C>(l: Ledger, h: nat)
    requires h < |l.handles|
    ensures var l1, copy := LedgerStep<C>(l, CopyOp(h)), |l.handles|;
      && Reply<C>(l1, UnsubscribeOp(copy)) == Reply<C>(l1, UnsubscribeOp(h)) == Reply<C>(l, UnsubscribeOp(h))
      && Reply<C>(LedgerStep<C>(l1, ResetOp(h)), UnsubscribeOp(copy)) == Reply<C>(l, UnsubscribeOp(h))
      && Reply<C>(LedgerStep<C>(l1, ResetOp(h)), UnsubscribeOp(h)) == Did(InvalidSubscription)
      && Reply<C>(LedgerStep<C>(l1, UnsubscribeOp(h)), UnsubscribeOp(copy)) == Did(InvalidSubscription)
      && Reply<C>(LedgerStep<C>(l1, UnsubscribeOp(copy)), UnsubscribeOp(h)) == Did(InvalidSubscription)
      && l1.active == LedgerStep<C>(l1, ResetOp(h)).active == l.active
  {
  }

  /** Another handle's registration is left alone, and a clear ends them all. */
  lemma {:induction false} OthersUnaffected<C>(l: Ledger, h: nat, g: nat)
    requires h < |l.handles| && g < |l.handles| && l.handles[h] != l.handles[g]
    ensures Reply<C>(LedgerStep<C>(l, UnsubscribeOp(h)), UnsubscribeOp(g)) == Reply<C>(l, UnsubscribeOp(g))
    ensures Reply<C>(LedgerStep<C>(l, ClearOp), UnsubscribeOp(g)) == Did(InvalidSubscription)
    ensures Reply<C>(LedgerStep<C>(l, ClearOp), SizeOp) == Size(0)
  {
  }

  // ----- how slots keep the ledger -----

  /** What happened so far: deactivations, registrations issued and removed, and the registration behind each id. */
  datatype History<C> = History(ended: seq<nat>, issued: map<Registration, C>, removed: set<Registration>,
                                ids: seq<Registration>)

  /** Ids stand for different registrations, and the active ones are those not removed. */
  ghost predicate Listed<C>(issued: nat, active: set<nat>, h: History<C>) {
    && |h.ids| == issued && h.removed <= h.issued.Keys
    && (forall i, j :: 0 <= i < j < |h.ids| ==> h.ids[i] != h.ids[j])
    && (forall i :: 0 <= i < |h.ids| ==> h.ids[i] in h.issued)
    && (forall i :: i in active <==> 0 <= i < |h.ids| && h.ids[i] !in h.removed)
  }

  /** A handle refers to the slot and generation of the registration with its id. */
  predicate Refers(ref: Option<Ref>, id: Option<nat>, ids: seq<Registration>) {
    match id
    case None => ref == None
    case Some(i) => i < |ids| && ref == Some(Ref(ids[i].index, Generation(ids[i].epoch)))
  }

  ghost predicate Referring(refs: seq<Option<Ref>>, handles: seq<Option<nat>>, ids: seq<Registration>) {
    |refs| == |handles| && forall k :: 0 <= k < |refs| ==> Refers(refs[k], handles[k], ids)
  }

  /** A deactivation of a slot takes two operations, and an occupied slot has taken one more. */
  ghost predicate Paced<C>(slots: seq<Slot<C>>, ended: seq<nat>, steps: nat) {
    && |ended| == |slots|
    && forall i :: 0 <= i < |slots| ==> 2 * ended[i] + (if slots[i].callback.Some? then 1 else 0) <= steps
  }

  ghost predicate Kept<C>(m: Machine<C>, l: Ledger, h: History<C>, steps: nat) {
    && m.active == |l.active| && |m.slots| == l.capacity && m.log == l.log
    && Sound(m.slots, |l.active|, h.ended, h.issued, h.removed)
    && Listed(l.issued, l.active, h) && Referring(m.handles, l.handles, h.ids) && Paced(m.slots, h.ended, steps)
  }

  lemma {:induction false} ReferringGrows(refs: seq<Option<Ref>>, handles: seq<Option<nat>>, ids: seq<Registration>,
          ref: Option<Ref>, id: Option<nat>, ids': seq<Registration>)
    requires Referring(refs, handles, ids) && ids <= ids' && Refers(ref, id, ids')
    ensures Referring(refs + [ref], handles + [id], ids')
  {
  }

  lemma {:induction false} ReferringAt(refs: seq<Option<Ref>>, handles: seq<Option<nat>>, ids: seq<Registration>,
          h: nat)
    requires Referring(refs, handles, ids)
    ensures Refers(HandleAt(refs, h), HandleAt(handles, h), ids) && Referring(Spent(refs, h), Spent(handles, h), ids)
  {
  }

  lemma {:induction false} PacedOn<C>(slots: seq<Slot<C>>, ended: seq<nat>, steps: nat)
    requires Paced(slots, ended, steps)
    ensures Paced(slots, ended, steps + 1)
  {
  }

  /** A registration is active exactly while its slot has not been deactivated since; then the slot is occupied. */
  lemma {:induction false} ActiveParts<C>(slots: seq<Slot<C>>, active: nat, h: History<C>, r: Registration)
    requires Sound(slots, active, h.ended, h.issued, h.removed) && r in h.issued
    ensures r.index < |slots| == |h.ended| && r.epoch <= h.ended[r.index]
    ensures slots[r.index].generation == Generation(h.ended[r.index])
    ensures r !in h.removed <==> r.epoch == h.ended[r.index]
    ensures r !in h.removed ==> slots[r.index].callback.Some?
  {
  }

  lemma {:induction false} SubscribeKept<C>(m: Machine<C>, l: Ledger, h: History<C>, steps: nat, callback: Option<C>)
    returns (h': History<C>)
    requires Kept(m, l, h, steps)
    ensures Kept(MachineStep(m, SubscribeOp(callback)), LedgerStep(l, SubscribeOp(callback)), h', steps + 1)
  {
    hide Sound, Listed, Referring, Paced;
    var i := FirstEmpty(m.slots);
    FirstEmptyBounds(m.slots);
    SoundParts(m.slots, |l.active|, h.ended, h.issued, h.removed);
    PacedOn(m.slots, h.ended, steps);
    h' := h;
    if callback.None? || i == |m.slots| {
      ReferringGrows(m.handles, l.handles, h.ids, None, None, h.ids);
    } else {
      var r := Registration(i, h.ended[i]);
      Issued(m.slots, |l.active|, h.ended, h.issued, h.removed, i, callback.value);
      h' := h.(issued := h.issued[r := callback.value], ids := h.ids + [r]);
      ListedSubscribe(l.issued, l.active, h, r, callback.value);
      FilledPaced(m.slots, h.ended, steps, i, callback);
      ReferringGrows(m.handles, l.handles, h.ids, Some(Ref(i, m.slots[i].generation)), Some(l.issued), h'.ids);
    }
  }

  lemma {:induction false} ListedSubscribe<C>(issued: nat, active: set<nat>, h: History<C>, r: Registration,
          callback: C)
    requires Listed(issued, active, h) && r !in h.issued
    ensures |h.ids| == issued && issued !in active
    ensures Listed(issued + 1, active + {issued}, h.(issued := h.issued[r := callback], ids := h.ids + [r]))
  {
  }

  lemma {:induction false} FilledPaced<C>(slots: seq<Slot<C>>, ended: seq<nat>, steps: nat, i: nat, callback: Option<C>)
    requires Paced(slots, ended, steps) && i < |slots| && slots[i].callback.None?
    ensures Paced(slots[i := slots[i].(callback := callback)], ended, steps + 1)
  {
  }

  /** Slots occupied within so few steps cannot have come round to an old generation. */
  lemma {:induction false} UnsubscribeAgrees<C>(m: Machine<C>, l: Ledger, h: History<C>, steps: nat, id: nat, ref: Ref)
    requires Kept(m, l, h, steps) && (steps <= 2 * GENERATIONS || |m.slots| == 0)
    requires Refers(Some(ref), Some(id), h.ids)
    ensures h.ids[id] in h.issued && ref.index < |m.slots| == |h.ended|
    ensures Carries(m.slots, ref) <==> id in l.active
    ensures id in l.active ==> h.ids[id] == Registration(ref.index, h.ended[ref.index])
  {
    var r := h.ids[id];
    ActiveParts(m.slots, |l.active|, h, r);
    GenerationTells(r.epoch, h.ended[r.index]);
    assert m.slots[r.index].callback.Some? ==> h.ended[r.index] < GENERATIONS;
    hide Generation, Sound;
  }

  lemma {:induction false} UnsubscribeKept<C>(m: Machine<C>, l: Ledger, h: History<C>, steps: nat, at: nat)
    returns (h': History<C>)
    requires Kept(m, l, h, steps) && (steps <= 2 * GENERATIONS || |m.slots| == 0)
    ensures Kept(MachineStep(m, UnsubscribeOp(at)), LedgerStep<C>(l, UnsubscribeOp(at)), h', steps + 1)
  {
    hide Sound, Listed, Referring, Paced, Generation, NextGeneration;
    PacedOn(m.slots, h.ended, steps);
    ReferringAt(m.handles, l.handles, h.ids, at);
    h' := h;
    if HandleAt(m.handles, at).Some? {
      var ref, id := HandleAt(m.handles, at).value, HandleAt(l.handles, at).value;
      UnsubscribeAgrees(m, l, h, steps, id, ref);
      if id in l.active {
        var i := ref.index;
        Ended(m.slots, |l.active|, h.ended, h.issued, h.removed, i);
        h' := h.(ended := h.ended[i := h.ended[i] + 1], removed := h.removed + {h.ids[id]});
        ListedRemove(l.issued, l.active, h, id, h'.ended);
        EmptiedPaced(m.slots, h.ended, steps, i, NextGeneration(ref.generation));
      }
    }
  }

  lemma {:induction false} ListedRemove<C>(issued: nat, active: set<nat>, h: History<C>, id: nat, ended: seq<nat>)
    requires Listed(issued, active, h) && id in active
    ensures id < |h.ids| && Listed(issued, active - {id}, h.(ended := ended, removed := h.removed + {h.ids[id]}))
  {
  }

  lemma {:induction false} EmptiedPaced<C>(slots: seq<Slot<C>>, ended: seq<nat>, steps: nat, i: nat, generation: nat)
    requires Paced(slots, ended, steps) && i < |slots| && slots[i].callback.Some?
    ensures Paced(slots[i := Slot(None, generation)], ended[i := ended[i] + 1], steps + 1)
  {
  }

  lemma {:induction false} ClearKept<C>(m: Machine<C>, l: Ledger, h: History<C>, steps: nat) returns (h': History<C>)
    requires Kept(m, l, h, steps)
    ensures Kept(MachineStep(m, ClearOp), LedgerStep<C>(l, ClearOp), h', steps + 1)
  {
    hide Sound, Listed, Referring, Paced, Cleared;
    SoundParts(m.slots, |l.active|, h.ended, h.issued, h.removed);
    ClearedSound(m.slots, |l.active|, h.ended, h.issued, h.removed);
    h' := h.(ended := Advanced(m.slots, h.ended), removed := h.issued.Keys);
    ListedClear(l.issued, l.active, h, h'.ended);
    ClearedPaced(m.slots, h.ended, steps);
  }

  lemma {:induction false} ListedClear<C>(issued: nat, active: set<nat>, h: History<C>, ended: seq<nat>)
    requires Listed(issued, active, h)
    ensures Listed(issued, {}, h.(ended := ended, removed := h.issued.Keys))
  {
  }

  lemma {:induction false} ClearedPaced<C>(slots: seq<Slot<C>>, ended: seq<nat>, steps: nat)
    requires Paced(slots, ended, steps)
    ensures |Cleared(slots)| == |slots| == |ended| && Paced(Cleared(slots), Advanced(slots, ended), steps + 1)
  {
  }

  lemma {:induction false} StepKept<C>(m: Machine<C>, l: Ledger, h: History<C>, steps: nat, op: Op<C>)
    returns (h': History<C>)
    requires Kept(m, l, h, steps) && (steps <= 2 * GENERATIONS || |m.slots| == 0)
    ensures Kept(MachineStep(m, op), LedgerStep(l, op), h', steps + 1)
    ensures |MachineStep(m, op).slots| == |m.slots| && LedgerStep(l, op).capacity == l.capacity
  {
    match op
    case SubscribeOp(callback) =>
      hide Sound, Listed, Referring, Paced;
      h' := SubscribeKept(m, l, h, steps, callback);
    case UnsubscribeOp(at) =>
      hide Sound, Listed, Referring, Paced;
      h' := UnsubscribeKept(m, l, h, steps, at);
    case ClearOp =>
      hide Sound, Listed, Referring, Paced;
      h' := ClearKept(m, l, h, steps);
    case CopyOp(at) =>
      hide Sound, Listed, Referring, Paced;
      PacedOn(m.slots, h.ended, steps);
      ReferringAt(m.handles, l.handles, h.ids, at);
      ReferringGrows(m.handles, l.handles, h.ids, HandleAt(m.handles, at), HandleAt(l.handles, at), h.ids);
      h' := h;
    case ResetOp(at) =>
      hide Sound, Listed, Referring, Paced;
      PacedOn(m.slots, h.ended, steps);
      ReferringAt(m.handles, l.handles, h.ids, at);
      h' := h;
    case SizeOp =>
      hide Sound, Listed, Referring, Paced;
      PacedOn(m.slots, h.ended, steps);
      h' := h;
  }

  lemma {:induction false} StartKept<C>(capacity: nat) returns (h: History<C>)
    ensures Kept(MachineStart<C>(capacity), LedgerStart(capacity), h, 0)
  {
    h := History(seq(capacity, _ => 0), map[], {}, []);
    SoundEmpty(MachineStart<C>(capacity).slots, h.ended);
    hide Sound;
  }

  /** A run is short when no slot can be deactivated as often as there are generations and be occupied again in it. */
  predicate Short(capacity: nat, length: nat) {
    capacity == 0 || length <= 2 * GENERATIONS + 1
  }

  lemma {:induction false} RunKept<C>(capacity: nat, ops: seq<Op<C>>) returns (h: History<C>)
    requires Short(capacity, |ops|)
    ensures Kept(Run(MachineStep, MachineStart(capacity), ops), Run(LedgerStep, LedgerStart(capacity), ops), h, |ops|)
    ensures |Run(MachineStep, MachineStart<C>(capacity), ops).slots| == capacity
    decreases ops
  {
    if ops == [] {
      h := StartKept(capacity);
    } else {
      hide Kept, MachineStep, LedgerStep, MachineStart, LedgerStart;
      var front := ops[..|ops| - 1];
      h := RunKept(capacity, front);
      h := StepKept(Run(MachineStep, MachineStart(capacity), front), Run(LedgerStep, LedgerStart(capacity), front),
        h, |front|, ops[|ops| - 1]);
    }
  }

  /** Slots and generations give the answers of the ledger. */
  ghost predicate Agree<C>(capacity: nat, ops: seq<Op<C>>) {
    Run(MachineStep, MachineStart(capacity), ops).log == Run(LedgerStep, LedgerStart(capacity), ops).log
  }

  lemma {:induction false} ShortRunsAgree<C>(capacity: nat, ops: seq<Op<C>>)
    requires Short(capacity, |ops|)
    ensures Agree(capacity, ops)
  {
    hide MachineStep, LedgerStep, Run;
    var _ := RunKept(capacity, ops);
  }

  // ----- when a slot comes round -----

  /** The first slot is taken and cleared, again and again. */
  function Churn<C>(c: C, rounds: nat): seq<Op<C>> {
    if rounds == 0 then [] else Churn(c, rounds - 1) + [SubscribeOp(Some(c)), ClearOp]
  }

  /** Then a new registration takes the slot, and the handle of the first is used. */
  function ComeRound<C>(c: C): seq<Op<C>> {
    Churn(c, GENERATIONS) + [SubscribeOp(Some(c)), UnsubscribeOp(0)]
  }

  lemma {:induction false} ChurnLength<C>(c: C, rounds: nat)
    ensures |Churn(c, rounds)| == 2 * rounds
    decreases rounds
  {
    if rounds > 0 {
      ChurnLength(c, rounds - 1);
    }
  }

  lemma {:induction false} RunTwo<S, A>(step: (S, A) -> S, s: S, actions: seq<A>, a: A, b: A)
    ensures Run(step, s, actions + [a, b]) == step(step(Run(step, s, actions), a), b)
  {
    var all := actions + [a, b];
    assert all[..|all| - 1] == actions + [a] && (actions + [a])[..|actions|] == actions;
    assert Run(step, s, actions + [a]) == step(Run(step, s, actions), a);
  }

  /** All slots are empty, and the first has been deactivated `rounds` times. */
  ghost predicate Churned<C>(m: Machine<C>, rounds: nat) {
    && |m.slots| > 0 && m.slots[0] == Slot(None, Generation(rounds)) && m.active == 0 && |m.handles| == rounds
    && (forall i :: 0 <= i < |m.slots| ==> m.slots[i].callback.None?)
    && (rounds > 0 ==> m.handles[0] == Some(Ref(0, 0)))
  }

  ghost predicate Churning(l: Ledger, rounds: nat) {
    && l.capacity > 0 && l.issued == rounds == |l.handles| && l.active == {}
    && (rounds > 0 ==> l.handles[0] == Some(0))
  }

  lemma {:induction false} ChurnOnce<C>(m: Machine<C>, l: Ledger, rounds: nat, c: C)
    requires Churned(m, rounds) && Churning(l, rounds)
    ensures Churned(MachineStep(MachineStep(m, SubscribeOp(Some(c))), ClearOp), rounds + 1)
    ensures Churning(LedgerStep<C>(LedgerStep(l, SubscribeOp(Some(c))), ClearOp), rounds + 1)
  {
    assert FirstEmpty(m.slots) == 0;
    assert NextGeneration(Generation(rounds)) == Generation(rounds + 1);
    assert Generation(0) == 0;
  }

  lemma {:induction false} ChurnRun<C>(capacity: nat, c: C, rounds: nat)
    requires capacity > 0
    ensures Churned(Run(MachineStep, MachineStart(capacity), Churn(c, rounds)), rounds)
    ensures Churning(Run(LedgerStep, LedgerStart(capacity), Churn(c, rounds)), rounds)
    decreases rounds
  {
    if rounds == 0 {
      assert Generation(0) == 0;
    } else {
      ChurnRun(capacity, c, rounds - 1);
      hide MachineStep, LedgerStep, Run, Churned, Churning;
      var before := Churn(c, rounds - 1);
      RunTwo(MachineStep, MachineStart(capacity), before, SubscribeOp(Some(c)), ClearOp);
      RunTwo(LedgerStep, LedgerStart(capacity), before, SubscribeOp(Some(c)), ClearOp);
      ChurnOnce(Run(MachineStep, MachineStart(capacity), before), Run(LedgerStep, LedgerStart(capacity), before),
        rounds - 1, c);
    }
  }

  /** The old handle takes the new registration for its own. */
  lemma {:induction false} RoundMistaken<C>(m: Machine<C>, l: Ledger, c: C)
    requires Churned(m, GENERATIONS) && Churning(l, GENERATIONS)
    ensures var m' := MachineStep(MachineStep(m, SubscribeOp(Some(c))), UnsubscribeOp(0));
      |m'.log| > 0 && m'.log[|m'.log| - 1] == Did(Ok)
    ensures var l' := LedgerStep<C>(LedgerStep(l, SubscribeOp(Some(c))), UnsubscribeOp(0));
      |l'.log| > 0 && l'.log[|l'.log| - 1] == Did(InvalidSubscription)
  {
    assert FirstEmpty(m.slots) == 0;
    assert Generation(GENERATIONS) == 0;
    var m1, l1 := MachineStep(m, SubscribeOp(Some(c))), LedgerStep(l, SubscribeOp(Some(c)));
    assert HandleAt(m1.handles, 0) == Some(Ref(0, 0)) && Carries(m1.slots, Ref(0, 0));
    assert HandleAt(l1.handles, 0) == Some(0) && l1.active == {GENERATIONS};
  }

  lemma {:induction false} ComeRoundDisagrees<C>(capacity: nat, c: C)
    requires capacity > 0
    ensures |ComeRound(c)| == 2 * GENERATIONS + 2 && !Agree(capacity, ComeRound(c))
  {
    ChurnLength(c, GENERATIONS);
    ChurnRun(capacity, c, GENERATIONS);
    hide MachineStep, LedgerStep, Run, Churned, Churning, Churn;
    var before := Churn(c, GENERATIONS);
    RunTwo(MachineStep, MachineStart(capacity), before, SubscribeOp(Some(c)), UnsubscribeOp(0));
    RunTwo(LedgerStep, LedgerStart(capacity), before, SubscribeOp(Some(c)), UnsubscribeOp(0));
    RoundMistaken(Run(MachineStep, MachineStart(capacity), before), Run(LedgerStep, LedgerStart(capacity), before), c);
  }

  /** All runs of at most `length` operations get the ledger's answers exactly when that is short. */
  lemma {:induction false} RunsAgreeIff<C(!new)>(capacity: nat, length: nat, c: C)
    ensures (forall ops: seq<Op<C>> :: |ops| <= length ==> Agree(capacity, ops)) <==> Short(capacity, length)
  {
    if Short(capacity, length) {
      forall ops: seq<Op<C>> | |ops| <= length ensures Agree(capacity, ops) {
        ShortRunsAgree(capacity, ops);
      }
    } else {
      ComeRoundDisagrees(capacity, c);
    }
  }

  // ----- the registry and its handles -----

  function View<C>(handle: Subscription<C>): Option<Ref>
    reads handle
  {
    if handle.Linked() then Some(Ref(handle.index, handle.generation)) else None
  }

  ghost function Views<C>(handles: seq<Subscription<C>>): (views: seq<Option<Ref>>)
    reads handles
    ensures |views| == |handles| && forall h :: 0 <= h < |handles| ==> views[h] == View(handles[h])
  {
    seq(|handles|, h requires 0 <= h < |handles| reads handles => View(handles[h]))
  }

  /** The state of a registry and a list of handles, with the answers so far. */
  ghost function Image<C>(registry: Registry<C>, handles: seq<Subscription<C>>, log: seq<Answer>): Machine<C>
    reads registry, registry.slots, handles
  {
    Machine(registry.slots[..], registry.activeCount, Views(handles), log)
  }

  /** The handles are different objects, and those that have an owner belong to the registry. */
  ghost predicate Held<C>(registry: Registry<C>, handles: seq<Subscription<C>>)
    reads handles
  {
    && (forall i, j :: 0 <= i < j < |handles| ==> handles[i] != handles[j])
    && (forall i :: 0 <= i < |handles| ==> handles[i].owner == null || handles[i].owner == registry)
  }

  method AskSubscribe<C>(registry: Registry<C>, handles: seq<Subscription<C>>, callback: Option<C>,
          ghost log: seq<Answer>)
    returns (handle: Subscription<C>, status: Status)
    requires registry.Valid() && Held(registry, handles)
    modifies registry, registry.slots
    ensures registry.Valid() && fresh(handle) && Held(registry, handles + [handle])
    ensures Image(registry, handles + [handle], log + [Did(status)])
         == MachineStep(old(Image(registry, handles, log)), SubscribeOp(callback))
  {
    hide Sound, FirstEmpty;
    ghost var slots, views := registry.slots[..], Views(handles);
    SoundParts(slots, registry.activeCount, registry.ended, registry.issued, registry.removed);
    FirstEmptyBounds(slots);
    status, handle := Subscribe(registry, callback);
    if status == Ok {
      FirstEmptyIs(slots, handle.index);
    }
    assert Views(handles + [handle]) == views + [View(handle)];
  }

  method AskUnsubscribe<C>(registry: Registry<C>, handles: seq<Subscription<C>>, h: nat, ghost log: seq<Answer>)
    returns (status: Status)
    requires registry.Valid() && Held(registry, handles)
    modifies registry, registry.slots, handles
    ensures registry.Valid() && Held(registry, handles)
    ensures Image(registry, handles, log + [Did(status)])
         == MachineStep(old(Image(registry, handles, log)), UnsubscribeOp(h))
  {
    hide Sound, NextGeneration;
    ghost var views := Views(handles);
    if h >= |handles| {
      return InvalidSubscription;
    }
    status := handles[h].Unsubscribe();
    assert Views(handles) == Spent(views, h);
  }

  method AskCopy<C>(registry: Registry<C>, handles: seq<Subscription<C>>, h: nat) returns (handle: Subscription<C>)
    requires Held(registry, handles)
    ensures fresh(handle) && Held(registry, handles + [handle])
    ensures Views(handles + [handle]) == Views(handles) + [HandleAt(Views(handles), h)]
  {
    if h < |handles| {
      handle := new Subscription.Copy(handles[h]);
    } else {
      handle := new Subscription.Null();
    }
  }

  method AskReset<C>(registry: Registry<C>, handles: seq<Subscription<C>>, h: nat)
    requires Held(registry, handles)
    modifies handles
    ensures Held(registry, handles) && Views(handles) == Spent(old(Views(handles)), h)
  {
    if h < |handles| {
      handles[h].Reset();
    }
  }

  /** Every operation on a real registry with real handles is a step of the machine. */
  method Ask<C>(registry: Registry<C>, handles: seq<Subscription<C>>, op: Op<C>, ghost log: seq<Answer>)
    returns (handles': seq<Subscription<C>>, answer: Answer)
    requires registry.Valid() && Held(registry, handles)
    modifies registry, registry.slots, handles
    ensures registry.Valid() && Held(registry, handles')
    ensures forall i :: 0 <= i < |handles'| ==> handles'[i] in handles || fresh(handles'[i])
    ensures Image(registry, handles', log + [answer]) == MachineStep(old(Image(registry, handles, log)), op)
  {
    hide Sound, Held, Cleared;
    handles' := handles;
    match op {
      case SubscribeOp(callback) =>
        var handle, status := AskSubscribe(registry, handles, callback, log);
        handles', answer := handles + [handle], Did(status);
      case UnsubscribeOp(h) =>
        var status := AskUnsubscribe(registry, handles, h, log);
        answer := Did(status);
      case CopyOp(h) =>
        var handle := AskCopy(registry, handles, h);
        handles', answer := handles + [handle], Did(Ok);
      case ResetOp(h) =>
        AskReset(registry, handles, h);
        answer := Did(Ok);
      case ClearOp =>
        registry.Clear();
        answer := Did(Ok);
      case SizeOp =>
        answer := Size(registry.activeCount);
    }
  }

  /** The answers of a new registry to a whole run: always the machine's, and the ledger's when the run is short. */
  method RunRegistry<C>(capacity: nat, ops: seq<Op<C>>) returns (answers: seq<Answer>)
    ensures answers == Run(MachineStep, MachineStart(capacity), ops).log
    ensures Short(capacity, |ops|) ==> answers == Run(LedgerStep, LedgerStart(capacity), ops).log
  {
    var registry := new Registry<C>(capacity);
    var handles: seq<Subscription<C>> := [];
    answers := [];
    ghost var start := MachineStart<C>(capacity);
    assert registry.slots[..] == start.slots;
    hide Sound, MachineStep, MachineStart, LedgerStep, Short;
    for i := 0 to |ops|
      invariant registry.Valid() && Held(registry, handles) && fresh(registry) && fresh(registry.slots)
      invariant forall h :: 0 <= h < |handles| ==> fresh(handles[h])
      invariant Image(registry, handles, answers) == Run(MachineStep, start, ops[..i])
    {
      assert ops[..i + 1][..i] == ops[..i];
      var answer;
      handles, answer := Ask(registry, handles, ops[i], answers);
      answers := answers + [answer];
    }
    assert ops[..|ops|] == ops;
    if Short(capacity, |ops|) {
      ShortRunsAgree(capacity, ops);
    }
  }
}
