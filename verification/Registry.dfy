/**
  The fixed-capacity callback registries and the handles that name their registrations.  A slot's
  callback is `None` where the delegate registry holds a null pointer and where the function registry
  has its `active` flag cleared; apart from that the two follow the same protocol.
 */
module CallbackRegistry {
  import opened Basics

  /** The number of values of a slot's `uint32_t` generation. */
  const GENERATIONS: nat := 0x1_0000_0000

  datatype Slot<C> = Slot(callback: Option<C>, generation: nat)

  /** The generation of a slot that was deactivated `ended` times. */
  function Generation(ended: nat): nat {
    ended % GENERATIONS
  }

  function NextGeneration(generation: nat): nat {
    (generation + 1) % GENERATIONS
  }

  /** One successful `subscribe`: its slot, and how often the slot had been deactivated before. */
  datatype Registration = Registration(index: nat, epoch: nat)

  /** The registered callbacks in slot order. */
  function Callbacks<C>(slots: seq<Slot<C>>): seq<C> {
    if slots == [] then [] else
      Callbacks(slots[..|slots| - 1])
      + if slots[|slots| - 1].callback.Some? then [slots[|slots| - 1].callback.value] else []
  }

  lemma {:induction false} CallbacksUpdate<C>(slots: seq<Slot<C>>, i: nat, slot: Slot<C>)
    requires i < |slots|
    ensures |Callbacks(slots[i := slot])| + (if slots[i].callback.Some? then 1 else 0)
         == |Callbacks(slots)| + if slot.callback.Some? then 1 else 0
    decreases slots
  {
    var last := |slots| - 1;
    if i == last {
      assert slots[i := slot][..last] == slots[..last];
    } else {
      assert slots[i := slot][..last] == slots[..last][i := slot];
      CallbacksUpdate(slots[..last], i, slot);
    }
  }

  lemma {:induction false} CallbacksBound<C>(slots: seq<Slot<C>>)
    ensures |Callbacks(slots)| <= |slots|
    ensures |Callbacks(slots)| == |slots| <==> forall i :: 0 <= i < |slots| ==> slots[i].callback.Some?
    ensures |Callbacks(slots)| == 0 <==> forall i :: 0 <= i < |slots| ==> slots[i].callback.None?
    decreases slots
  {
    if slots != [] {
      var last := |slots| - 1;
      CallbacksBound(slots[..last]);
      assert forall i :: 0 <= i < last ==> slots[i] == slots[..last][i];
    }
  }

  /** `at` are the occupied slots in ascending order, and `called` their callbacks. */
  ghost predicate InSlotOrder<C>(slots: seq<Slot<C>>, at: seq<nat>, called: seq<C>) {
    && |at| == |called|
    && (forall k :: 0 <= k < |at| ==> at[k] < |slots| && slots[at[k]].callback == Some(called[k]))
    && (forall j, k :: 0 <= j < k < |at| ==> at[j] < at[k])
    && (forall i :: 0 <= i < |slots| && slots[i].callback.Some? ==> i in at)
  }

  lemma {:induction false} SlotOrderNext<C>(slots: seq<Slot<C>>, at: seq<nat>, called: seq<C>, slot: Slot<C>)
    requires InSlotOrder(slots, at, called)
    ensures slot.callback.None? ==> InSlotOrder(slots + [slot], at, called)
    ensures slot.callback.Some? ==> InSlotOrder(slots + [slot], at + [|slots|], called + [slot.callback.value])
  {
    var at' := at + [|slots|];
    assert at'[|at|] == |slots|;
    forall i | 0 <= i < |slots| && slots[i].callback.Some? ensures i in at' {
      var k :| 0 <= k < |at| && at[k] == i;
      assert at'[k] == i;
    }
  }

  lemma {:induction false} CallbacksInSlotOrder<C>(slots: seq<Slot<C>>) returns (at: seq<nat>)
    ensures InSlotOrder(slots, at, Callbacks(slots))
    decreases slots
  {
    at := [];
    if slots != [] {
      var last: nat := |slots| - 1;
      at := CallbacksInSlotOrder(slots[..last]);
      SlotOrderNext(slots[..last], at, Callbacks(slots[..last]), slots[last]);
      assert slots == slots[..last] + [slots[last]];
      hide InSlotOrder;
      if slots[last].callback.Some? {
        at := at + [last];
      }
    }
  }

  /** Generations count deactivations, as far as they reach. */
  ghost predicate Stamped<C>(slots: seq<Slot<C>>, ended: seq<nat>) {
    |ended| == |slots| && forall i :: 0 <= i < |slots| ==> slots[i].generation == Generation(ended[i])
  }

  /**
    A registration is removed exactly when its slot has been deactivated since; until then the slot holds its callback.
   */
  ghost predicate Tracked<C>(slots: seq<Slot<C>>, ended: seq<nat>, issued: map<Registration, C>,
          removed: set<Registration>)
    requires |ended| == |slots|
  {
    && removed <= issued.Keys
    && (forall r :: r in issued ==> r.index < |slots| && r.epoch <= ended[r.index])
    && (forall r :: r in issued ==> (r in removed <==> r.epoch < ended[r.index]))
    && (forall r :: r in issued && r !in removed ==> slots[r.index].callback == Some(issued[r]))
    && (forall i :: 0 <= i < |slots| && slots[i].callback.Some? ==> Registration(i, ended[i]) in issued)
  }

  /** `called` are the callbacks of the active registrations `order`, which lists each once, by slot. */
  ghost predicate Invokes<C>(issued: map<Registration, C>, removed: set<Registration>, order: seq<Registration>,
          called: seq<C>) {
    && |order| == |called|
    && (forall k :: 0 <= k < |order| ==> order[k] in issued && order[k] !in removed && called[k] == issued[order[k]])
    && (forall j, k :: 0 <= j < k < |order| ==> order[j].index < order[k].index)
    && (forall r :: r in issued && r !in removed ==> r in order)
  }

  /** The occupied slots are those of the active registrations. */
  lemma {:induction false} ActiveInSlotOrder<C>(slots: seq<Slot<C>>, ended: seq<nat>, issued: map<Registration, C>,
          removed: set<Registration>)
    returns (order: seq<Registration>)
    requires |ended| == |slots| && Tracked(slots, ended, issued, removed)
    ensures Invokes(issued, removed, order, Callbacks(slots))
  {
    var at := CallbacksInSlotOrder(slots);
    var called := Callbacks(slots);
    hide Callbacks;
    order := seq(|at|, k requires 0 <= k < |at| => Registration(at[k], ended[at[k]]));
    forall r | r in issued && r !in removed ensures r in order {
      assert slots[r.index].callback.Some?;
      var k :| 0 <= k < |at| && at[k] == r.index;
      assert order[k] == r;
    }
  }

  ghost predicate Sound<C>(slots: seq<Slot<C>>, activeCount: nat, ended: seq<nat>, issued: map<Registration, C>,
          removed: set<Registration>) {
    && Stamped(slots, ended) && Tracked(slots, ended, issued, removed)
    && activeCount == |Callbacks(slots)| == |issued| - |removed|
  }

  lemma {:induction false} SoundParts<C>(slots: seq<Slot<C>>, activeCount: nat, ended: seq<nat>,
          issued: map<Registration, C>, removed: set<Registration>)
    requires Sound(slots, activeCount, ended, issued, removed)
    ensures |ended| == |slots| && forall i :: 0 <= i < |slots| ==> slots[i].generation == Generation(ended[i])
    ensures activeCount <= |slots|
    ensures activeCount == |slots| <==> forall i :: 0 <= i < |slots| ==> slots[i].callback.Some?
  {
    CallbacksBound(slots);
  }

  lemma {:induction false} SoundEmpty<C>(slots: seq<Slot<C>>, ended: seq<nat>)
    requires |ended| == |slots| && forall i :: 0 <= i < |slots| ==> slots[i] == Slot(None, 0) && ended[i] == 0
    ensures Sound(slots, 0, ended, map[], {})
  {
    CallbacksBound(slots);
    hide Callbacks;
    assert Generation(0) == 0;
  }

  /** Filling an empty slot issues a registration that was never issued before. */
  lemma {:induction false} Issued<C>(slots: seq<Slot<C>>, activeCount: nat, ended: seq<nat>,
          issued: map<Registration, C>, removed: set<Registration>, i: nat, callback: C)
    requires Sound(slots, activeCount, ended, issued, removed) && i < |slots| && slots[i].callback.None?
    ensures Registration(i, ended[i]) !in issued
    ensures Sound(slots[i := slots[i].(callback := Some(callback))], activeCount + 1, ended,
                  issued[Registration(i, ended[i]) := callback], removed)
  {
    var r := Registration(i, ended[i]);
    var slot := slots[i].(callback := Some(callback));
    CallbacksUpdate(slots, i, slot);
    IssuedTracked(slots, ended, issued, removed, i, callback, slot);
    hide Callbacks, Tracked;
    assert (issued[r := callback]).Keys == issued.Keys + {r};
  }

  lemma {:induction false} IssuedTracked<C>(slots: seq<Slot<C>>, ended: seq<nat>, issued: map<Registration, C>,
          removed: set<Registration>, i: nat, callback: C, slot: Slot<C>)
    requires |ended| == |slots| && Tracked(slots, ended, issued, removed) && i < |slots| && slots[i].callback.None?
    requires slot.callback == Some(callback)
    ensures Registration(i, ended[i]) !in issued
    ensures Tracked(slots[i := slot], ended, issued[Registration(i, ended[i]) := callback], removed)
  {
    var r := Registration(i, ended[i]);
    assert r !in issued;
    assert (issued[r := callback]).Keys == issued.Keys + {r};
    forall x | x in issued && x !in removed ensures x.index != i {
      assert slots[x.index].callback.Some?;
    }
  }

  /** Emptying an occupied slot removes the registration in force, which was not removed before. */
  lemma {:induction false} Ended<C>(slots: seq<Slot<C>>, activeCount: nat, ended: seq<nat>,
          issued: map<Registration, C>, removed: set<Registration>, i: nat)
    requires Sound(slots, activeCount, ended, issued, removed) && i < |slots| && slots[i].callback.Some?
    ensures activeCount > 0 && Registration(i, ended[i]) in issued && Registration(i, ended[i]) !in removed
    ensures Sound(slots[i := Slot(None, NextGeneration(slots[i].generation))], activeCount - 1,
                  ended[i := ended[i] + 1],
                  issued, removed + {Registration(i, ended[i])})
  {
    var slot := Slot(None, NextGeneration(slots[i].generation));
    CallbacksUpdate(slots, i, slot);
    EndedStamped(slots, ended, i);
    EndedTracked(slots, ended, issued, removed, i, slot);
    assert activeCount > 0;
    hide Stamped, Tracked, Callbacks;
  }

  lemma {:induction false} EndedStamped<C>(slots: seq<Slot<C>>, ended: seq<nat>, i: nat)
    requires Stamped(slots, ended) && i < |slots|
    ensures Stamped(slots[i := Slot(None, NextGeneration(slots[i].generation))], ended[i := ended[i] + 1])
  {
    assert NextGeneration(Generation(ended[i])) == Generation(ended[i] + 1);
  }

  lemma {:induction false} EndedTracked<C>(slots: seq<Slot<C>>, ended: seq<nat>, issued: map<Registration, C>,
          removed: set<Registration>, i: nat, slot: Slot<C>)
    requires |ended| == |slots| && Tracked(slots, ended, issued, removed) && i < |slots| && slots[i].callback.Some?
    requires slot.callback.None?
    ensures Registration(i, ended[i]) in issued && Registration(i, ended[i]) !in removed
    ensures Tracked(slots[i := slot], ended[i := ended[i] + 1], issued, removed + {Registration(i, ended[i])})
  {
    var r := Registration(i, ended[i]);
    var ended' := ended[i := ended[i] + 1];
    assert r in issued;
    forall x | x in issued ensures x in removed + {r} <==> x.epoch < ended'[x.index] {
      if x.index == i && x.epoch == ended[i] { assert x == r; }
    }
  }

  /** Every occupied slot emptied, with its next generation. */
  function Cleared<C>(slots: seq<Slot<C>>): seq<Slot<C>> {
    seq(|slots|, i requires 0 <= i < |slots| =>
      if slots[i].callback.Some? then Slot(None, NextGeneration(slots[i].generation)) else slots[i])
  }

  /** The deactivations once every occupied slot has been emptied. */
  ghost function Advanced<C>(slots: seq<Slot<C>>, ended: seq<nat>): seq<nat>
    requires |ended| == |slots|
  {
    seq(|slots|, i requires 0 <= i < |slots| => ended[i] + if slots[i].callback.Some? then 1 else 0)
  }

  /** Emptying every occupied slot removes every registration still active. */
  lemma {:induction false} ClearedSound<C>(slots: seq<Slot<C>>, activeCount: nat, ended: seq<nat>,
          issued: map<Registration, C>, removed: set<Registration>)
    requires Sound(slots, activeCount, ended, issued, removed)
    ensures Sound(Cleared(slots), 0, Advanced(slots, ended), issued, issued.Keys)
  {
    var slots', ended' := Cleared(slots), Advanced(slots, ended);
    CallbacksBound(slots');
    assert Stamped(slots', ended') by {
      forall i | 0 <= i < |slots| ensures slots'[i].generation == Generation(ended'[i]) {
        assert NextGeneration(Generation(ended[i])) == Generation(ended[i] + 1);
      }
    }
    hide Callbacks, Generation, NextGeneration;
    forall r | r in issued ensures r.index < |slots'| && r.epoch < ended'[r.index] {
      if r !in removed { assert slots[r.index].callback.Some?; }
    }
  }

  /**
    While a slot is deactivated fewer times than there are generations, its generation tells its registrations apart.
   */
  lemma {:induction false} GenerationTells(epoch: nat, ended: nat)
    requires epoch <= ended
    ensures Generation(epoch) == Generation(ended) <==> (ended - epoch) % GENERATIONS == 0
    ensures ended - epoch < GENERATIONS ==> (Generation(epoch) == Generation(ended) <==> epoch == ended)
  {
  }

  class Registry<C> {
    const slots: array<Slot<C>>
    var activeCount: nat
    /** How often each slot has been deactivated, every registration ever issued, and those removed. */
    ghost var ended: seq<nat>
    ghost var issued: map<Registration, C>
    ghost var removed: set<Registration>

    ghost predicate Valid()
      reads this, slots
    {
      Sound(slots[..], activeCount, ended, issued, removed)
    }

    ghost predicate Active(r: Registration)
      reads this
    {
      r in issued && r !in removed
    }

    lemma HandleParts(r: Registration)
      requires Valid() && r in issued
      ensures |ended| == slots.Length && r.index < slots.Length && r.epoch <= ended[r.index]
      ensures Active(r) <==> r.epoch == ended[r.index]
      ensures Active(r) ==> slots[r.index].callback.Some?
    {
    }

    constructor (capacity: nat)
      ensures Valid() && fresh(slots) && slots.Length == capacity && activeCount == 0 && issued == map[]
      ensures forall i :: 0 <= i < capacity ==> slots[i] == Slot(None, 0)
    {
      slots := new Slot<C>[capacity](_ => Slot(None, 0));
      activeCount := 0;
      ended, issued, removed := seq(capacity, _ => 0), map[], {};
      new;
      SoundEmpty(slots[..], ended);
    }

    /** The first empty slot takes the callback. */
    method Subscribe(callback: Option<C>) returns (status: Status, index: nat, generation: nat)
      requires Valid()
      modifies this, slots
      ensures Valid() && ended == old(ended) && removed == old(removed)
      ensures activeCount == old(activeCount) + if status == Ok then 1 else 0
      ensures status == if callback.None? then InvalidCallback
                        else if old(activeCount) == slots.Length then Full else Ok
      ensures status != Ok ==> issued == old(issued) && slots[..] == old(slots[..])
      ensures status == Ok ==>
        index < slots.Length && old(slots[index]).callback.None? && generation == Generation(ended[index])
      ensures status == Ok ==> forall i :: 0 <= i < index ==> old(slots[i]).callback.Some?
      ensures status == Ok ==> Registration(index, ended[index]) !in old(issued)
      ensures status == Ok ==> issued == old(issued)[Registration(index, ended[index]) := callback.value]
      ensures status == Ok ==> slots[..] == old(slots[..])[index := Slot(callback, generation)]
    {
      hide Sound, Stamped, Tracked, Callbacks, Generation, NextGeneration;
      SoundParts(slots[..], activeCount, ended, issued, removed);
      if callback == None {
        return InvalidCallback, 0, 0;
      }
      index := FirstEmpty();
      if index == slots.Length {
        return Full, 0, 0;
      }
      Issued(slots[..], activeCount, ended, issued, removed, index, callback.value);
      generation := slots[index].generation;
      slots[index] := slots[index].(callback := callback);
      activeCount := activeCount + 1;
      issued := issued[Registration(index, ended[index]) := callback.value];
      status := Ok;
    }

    /** The search of `Subscribe`; the capacity when every slot is occupied. */
    method FirstEmpty() returns (index: nat)
      ensures index <= slots.Length && (index < slots.Length ==> slots[index].callback.None?)
      ensures forall i :: 0 <= i < index ==> slots[i].callback.Some?
    {
      for i := 0 to slots.Length
        invariant forall j :: 0 <= j < i ==> slots[j].callback.Some?
      {
        if slots[i].callback == None {
          return i;
        }
      }
      index := slots.Length;
    }

    /** Succeeds exactly when the slot is occupied and carries that generation; then its registration is removed. */
    method UnsubscribeSlot(index: nat, generation: nat) returns (status: Status)
      requires Valid()
      modifies this, slots
      ensures Valid() && issued == old(issued)
      ensures status == Ok || status == InvalidSubscription
      ensures activeCount == old(activeCount) - if status == Ok then 1 else 0
      ensures status == Ok
        <==> index < slots.Length && old(slots[index]).callback.Some? && generation == Generation(old(ended[index]))
      ensures status != Ok ==> ended == old(ended) && removed == old(removed) && slots[..] == old(slots[..])
      ensures status == Ok ==>
        var r := Registration(index, old(ended[index])); old(Active(r)) && removed == old(removed) + {r}
      ensures status == Ok ==> ended == old(ended)[index := old(ended[index]) + 1]
      ensures status == Ok ==> slots[..] == old(slots[..])[index := Slot(None, NextGeneration(generation))]
    {
      hide Sound, Stamped, Tracked, Callbacks, Generation, NextGeneration;
      SoundParts(slots[..], activeCount, ended, issued, removed);
      if index >= slots.Length {
        return InvalidSubscription;
      }
      if slots[index].callback == None {
        return InvalidSubscription;
      }
      if slots[index].generation != generation {
        return InvalidSubscription;
      }
      Ended(slots[..], activeCount, ended, issued, removed, index);
      removed := removed + {Registration(index, ended[index])};
      ended := ended[index := ended[index] + 1];
      slots[index] := Slot(None, NextGeneration(slots[index].generation));
      activeCount := activeCount - 1;
      status := Ok;
    }

    /** Removes every registration still active. */
    method Clear()
      requires Valid()
      modifies this, slots
      ensures Valid() && issued == old(issued) && removed == issued.Keys && activeCount == 0
      ensures |old(ended)| == slots.Length
      ensures slots[..] == Cleared(old(slots[..])) && ended == Advanced(old(slots[..]), old(ended))
    {
      hide Sound, Stamped, Tracked, Callbacks, Generation, NextGeneration;
      SoundParts(slots[..], activeCount, ended, issued, removed);
      ClearedSound(slots[..], activeCount, ended, issued, removed);
      ghost var s, s' := slots[..], Cleared(slots[..]);
      for i := 0 to slots.Length
        invariant forall j :: 0 <= j < i ==> slots[j] == s'[j]
        invariant forall j :: i <= j < slots.Length ==> slots[j] == s[j]
        invariant ended == old(ended) && issued == old(issued) && removed == old(removed)
      {
        if slots[i].callback != None {
          slots[i] := Slot(None, NextGeneration(slots[i].generation));
        }
      }
      assert slots[..] == s';
      activeCount := 0;
      ended, removed := Advanced(s, ended), issued.Keys;
    }

    /** Invokes the registered callbacks, each once, in slot order. */
    method Invoke() returns (called: seq<C>)
      requires Valid()
      ensures called == Callbacks(slots[..]) && |called| == activeCount
      ensures exists at :: InSlotOrder(slots[..], at, called)
      ensures exists order :: Invokes(issued, removed, order, called)
    {
      ghost var at := CallbacksInSlotOrder(slots[..]);
      ghost var order := ActiveInSlotOrder(slots[..], ended, issued, removed);
      assert |Callbacks(slots[..])| == activeCount;
      hide Valid, Sound, Invokes, InSlotOrder;
      called := [];
      for i := 0 to slots.Length
        invariant called == Callbacks(slots[..i])
      {
        assert slots[..i + 1][..i] == slots[..i];
        if slots[i].callback != None {
          called := called + [slots[i].callback.value];
        }
      }
      assert slots[..slots.Length] == slots[..];
    }
  }

  /** A handle to a registration.  Copies of it are independent objects with the same fields. */
  class Subscription<C> {
    var owner: Registry?<C>
    var index: nat
    var generation: nat
    var valid: bool
    ghost var registration: Registration

    /** What `valid()` answers. */
    predicate Linked()
      reads this
    {
      valid && owner != null
    }

    /** The handle was issued by its owner for `registration`. */
    ghost predicate Names()
      reads this, owner
    {
      Linked() && registration in owner.issued
      && index == registration.index && generation == Generation(registration.epoch)
    }

    /** How often the slot has been deactivated since the handle was issued. */
    ghost function Age(): int
      requires owner != null && registration.index < |owner.ended|
      reads this, owner
    {
      owner.ended[registration.index] - registration.epoch
    }

    /** The slot of the handle is occupied and carries its generation. */
    ghost predicate Matches(slots: seq<Slot<C>>)
      reads this
    {
      index < |slots| && slots[index].callback.Some? && slots[index].generation == generation
    }

    ghost predicate Occupied()
      requires owner != null && index < owner.slots.Length
      reads this, owner, if owner == null then {} else {owner.slots}
    {
      owner.slots[index].callback.Some?
    }

    constructor Null()
      ensures !valid && owner == null
    {
      owner, index, generation, valid := null, 0, 0, false;
      registration := Registration(0, 0);
    }

    constructor (owner: Registry<C>, index: nat, generation: nat, ghost epoch: nat)
      ensures valid && this.owner == owner && this.index == index && this.generation == generation
      ensures registration == Registration(index, epoch)
    {
      this.owner, this.index, this.generation, valid := owner, index, generation, true;
      registration := Registration(index, epoch);
    }

    constructor Copy(other: Subscription<C>)
      ensures valid == other.valid && owner == other.owner && index == other.index && generation == other.generation
      ensures registration == other.registration
    {
      owner, index, generation, valid := other.owner, other.index, other.generation, other.valid;
      registration := other.registration;
    }

    method Reset()
      modifies this
      ensures !valid && owner == null && index == 0 && generation == 0
    {
      owner, index, generation, valid := null, 0, 0, false;
    }

    /**
      Succeeds exactly when the slot is occupied and carries the generation of the handle.  For a handle that was
      issued this means: its deactivations since are a multiple of the number of generations.  The answer is
      whether the registration is still active, except when the slot has come round to the same generation.
     */
    method Unsubscribe() returns (status: Status)
      requires Linked() ==> owner.Valid()
      modifies this, owner, if owner == null then {} else {owner.slots}
      ensures status == Ok || status == InvalidSubscription
      ensures !old(Linked()) ==> status == InvalidSubscription && unchanged(this)
      ensures !old(Linked()) && old(owner) != null ==> unchanged(old(owner)) && unchanged(old(owner).slots)
      ensures old(Linked()) ==> !valid && owner == null && old(owner).Valid() && old(owner).issued == old(owner.issued)
      ensures old(Linked()) ==> |old(owner.ended)| == old(owner).slots.Length
      ensures old(Linked()) ==> (status == Ok <==> old(Matches(owner.slots[..])))
      ensures old(Linked()) && status != Ok ==>
        && old(owner).activeCount == old(owner.activeCount) && old(owner).ended == old(owner.ended)
        && old(owner).removed == old(owner.removed) && old(owner).slots[..] == old(owner.slots[..])
      ensures old(Linked()) && status == Ok ==>
        var i, r := old(index), old(Registration(index, owner.ended[index]));
        && old(owner).activeCount == old(owner.activeCount) - 1
        && old(owner).ended == old(owner.ended)[i := r.epoch + 1]
        && old(owner.Active(r)) && old(owner).removed == old(owner.removed) + {r}
        && old(owner).slots[..] == old(owner.slots[..])[i := Slot(None, NextGeneration(old(generation)))]
      ensures old(Names()) ==>
        && old(index) < old(owner).slots.Length && old(Age()) >= 0
        && (status == Ok <==> old(Occupied()) && old(Age()) % GENERATIONS == 0)
        && ((status == Ok <==> old(owner.Active(registration)))
            <==> !(old(Occupied()) && old(Age()) > 0 && old(Age()) % GENERATIONS == 0))
      ensures old(Names()) && old(Age()) < GENERATIONS && status == Ok ==>
        old(registration) == old(Registration(index, owner.ended[index]))
    {
      hide Sound, Generation, NextGeneration;
      if !valid || owner == null {
        return InvalidSubscription;
      }
      var registry := owner;
      SoundParts(registry.slots[..], registry.activeCount, registry.ended, registry.issued, registry.removed);
      if Names() {
        registry.HandleParts(registration);
        GenerationTells(registration.epoch, registry.ended[index]);
      }
      status := registry.UnsubscribeSlot(index, generation);
      Reset();
    }
  }

  /** `subscribe` as its callers see it: a handle that names the new registration, or a null handle. */
  method Subscribe<C>(registry: Registry<C>, callback: Option<C>) returns (status: Status, handle: Subscription<C>)
    requires registry.Valid()
    modifies registry, registry.slots
    ensures registry.Valid() && fresh(handle) && registry.ended == old(registry.ended)
    ensures registry.removed == old(registry.removed)
    ensures status == if callback.None? then InvalidCallback
                      else if old(registry.activeCount) == registry.slots.Length then Full else Ok
    ensures registry.activeCount == old(registry.activeCount) + if status == Ok then 1 else 0
    ensures status == Ok ==> handle.Names() && handle.owner == registry && registry.Active(handle.registration)
    ensures status == Ok ==>
      && handle.registration !in old(registry.issued)
      && registry.issued == old(registry.issued)[handle.registration := callback.value]
      && registry.slots[..] == old(registry.slots[..])[handle.index := Slot(callback, handle.generation)]
      && old(registry.slots[..])[handle.index] == Slot(None, handle.generation)
      && forall i :: 0 <= i < handle.index ==> old(registry.slots[..])[i].callback.Some?
    ensures status != Ok ==>
      && !handle.valid && handle.owner == null
      && registry.issued == old(registry.issued) && registry.slots[..] == old(registry.slots[..])
  {
    hide Sound, Generation;
    SoundParts(registry.slots[..], registry.activeCount, registry.ended, registry.issued, registry.removed);
    var index, generation;
    status, index, generation := registry.Subscribe(callback);
    if status == Ok {
      registry.HandleParts(Registration(index, registry.ended[index]));
      handle := new Subscription(registry, index, generation, registry.ended[index]);
    } else {
      handle := new Subscription.Null();
    }
  }

  /** As many reuses of a slot as there are generations: the generation is back where it was. */
  method WearOut<C>(registry: Registry<C>, callback: C)
    requires registry.Valid() && registry.slots.Length == 1 && registry.activeCount == 1
    modifies registry, registry.slots
    ensures registry.Valid() && registry.activeCount == 1 && |registry.ended| == |old(registry.ended)| == 1
    ensures registry.ended[0] == old(registry.ended[0]) + GENERATIONS
    ensures old(registry.issued).Keys <= registry.issued.Keys
  {
    SoundParts(registry.slots[..], registry.activeCount, registry.ended, registry.issued, registry.removed);
    hide Sound;
    for k := 0 to GENERATIONS
      invariant registry.Valid() && registry.activeCount == 1 && |registry.ended| == |old(registry.ended)| == 1
      invariant registry.ended[0] == old(registry.ended[0]) + k && old(registry.issued).Keys <= registry.issued.Keys
    {
      Reuse(registry, callback);
    }
  }

  method Reuse<C>(registry: Registry<C>, callback: C)
    requires registry.Valid() && registry.slots.Length == 1 && registry.activeCount == 1
    modifies registry, registry.slots
    ensures registry.Valid() && registry.activeCount == 1 && |registry.ended| == |old(registry.ended)| == 1
    ensures registry.ended[0] == old(registry.ended[0]) + 1 && old(registry.issued).Keys <= registry.issued.Keys
  {
    SoundParts(registry.slots[..], registry.activeCount, registry.ended, registry.issued, registry.removed);
    hide Sound, Generation;
    var status := registry.UnsubscribeSlot(0, registry.slots[0].generation);
    SoundParts(registry.slots[..], registry.activeCount, registry.ended, registry.issued, registry.removed);
    var index, generation;
    status, index, generation := registry.Subscribe(Some(callback));
  }

  /** The limit is real: a handle that outlives that many reuses removes a registration that is not its own. */
  method StaleHandle<C>(callback: C)
    returns (status: Status, registry: Registry<C>,
             ghost own: Registration, ghost other: Registration, ghost before: set<Registration>)
    ensures fresh(registry) && registry.Valid() && status == Ok
    ensures own in before && other !in before && other in registry.issued && own != other
    ensures registry.removed == before + {other}
  {
    registry := new Registry<C>(1);
    hide Sound, Stamped, Tracked, Callbacks, Generation;
    var handle;
    status, handle := Subscribe(registry, Some(callback));
    own := handle.registration;
    Outlive(registry, handle, callback);
    before, other := registry.removed, Registration(handle.index, registry.ended[handle.index]);
    status := handle.Unsubscribe();
  }

  method Outlive<C>(registry: Registry<C>, handle: Subscription<C>, callback: C)
    requires registry.Valid() && registry.slots.Length == 1 && registry.activeCount == 1
    requires handle.Names() && handle.owner == registry && registry.Active(handle.registration)
    modifies registry, registry.slots
    ensures registry.Valid() && handle.Names() && handle.registration in registry.removed && |registry.ended| == 1
    ensures handle.index == 0 && registry.slots[0].callback.Some? && handle.Age() == GENERATIONS
  {
    hide Sound, Stamped, Tracked, Callbacks, Generation;
    ghost var r := handle.registration;
    registry.HandleParts(r);
    WearOut(registry, callback);
    registry.HandleParts(r);
    SoundParts(registry.slots[..], registry.activeCount, registry.ended, registry.issued, registry.removed);
  }
}
