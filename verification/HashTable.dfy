/** The open-addressed hash table: linear probing over N slots, with tombstones for erased entries. */
module HashContainer {
  import opened Arithmetic
  import opened Basics
  import opened Counting
  import BoundedMap

  /** A slot state together with its storage. */
  datatype Slot<K, V> = Vacant | Occupied(key: K, value: V) | Deleted

  // ----- cyclic probing -----

  /** The index reached after `step` probes from `start`. */
  function Probe(start: nat, step: nat, n: nat): nat
    requires start < n && step < n
  {
    if start + step < n then start + step else start + step - n
  }

  /** The number of probes from `start` to `index`. */
  function Distance(start: nat, index: nat, n: nat): nat
    requires start < n && index < n
  {
    if index >= start then index - start else index + n - start
  }

  lemma {:induction false} ProbeIsModular(start: nat, step: nat, n: nat)
    requires start < n && step < n
    ensures (start + step) % n == Probe(start, step, n)
  {
    var y := start + step;
    var q := y / n;
    assert y == q * n + y % n && 0 <= y % n < n;
    if q >= 2 {
      assert q * n >= 2 * n by { AtLeast(q, 2, n); }
    }
    assert q == 0 || q == 1;
  }

  lemma {:induction false} ProbeDistance(start: nat, index: nat, n: nat)
    requires start < n && index < n
    ensures Distance(start, index, n) < n && Probe(start, Distance(start, index, n), n) == index
    ensures forall step :: 0 <= step < n && Probe(start, step, n) == index ==> step == Distance(start, index, n)
  {
  }

  // ----- the invariant -----

  function Bucket<K>(hash: K -> nat, key: K, n: nat): nat
    requires n > 0
  {
    hash(key) % n
  }

  /** No vacant slot lies between the bucket of an entry and the entry, cyclically. */
  ghost predicate Chained<K, V>(s: seq<Slot<K, V>>, hash: K -> nat) {
    forall i, step :: 0 <= i < |s| && s[i].Occupied? && 0 <= step < Distance(Bucket(hash, s[i].key, |s|), i, |s|)
                      ==> s[Probe(Bucket(hash, s[i].key, |s|), step, |s|)] != Vacant
  }

  ghost predicate UniqueKeys<K, V>(s: seq<Slot<K, V>>, same: (K, K) -> bool) {
    forall i, j :: 0 <= i < |s| && 0 <= j < |s| && i != j && s[i].Occupied? && s[j].Occupied? ==>
      !same(s[i].key, s[j].key)
  }

  /** The occupied slots hold exactly the entries of `m`. */
  ghost predicate Mirrors<K, V>(s: seq<Slot<K, V>>, m: map<K, V>) {
    && (forall i :: 0 <= i < |s| && s[i].Occupied? ==> s[i].key in m && m[s[i].key] == s[i].value)
    && (forall k :: k in m ==> exists i :: 0 <= i < |s| && s[i].Occupied? && s[i].key == k)
  }

  /** No two keys of the map that the slots mirror are the same. */
  lemma {:induction false} OneSlotEach<K, V>(s: seq<Slot<K, V>>, same: (K, K) -> bool, m: map<K, V>)
    requires UniqueKeys(s, same) && Mirrors(s, m)
    ensures BoundedMap.OneOfEach(same, m)
  {
  }

  predicate Used<K, V>(slot: Slot<K, V>) {
    slot.Occupied?
  }

  function Count<K, V>(s: seq<Slot<K, V>>): nat {
    Number(s, Used)
  }

  ghost predicate HashAgrees<K(!new)>(hash: K -> nat, same: (K, K) -> bool) {
    forall x, y :: same(x, y) ==> hash(x) == hash(y)
  }

  ghost predicate Sound<K, V>(s: seq<Slot<K, V>>, hash: K -> nat, same: (K, K) -> bool, size: nat, m: map<K, V>) {
    && |s| > 0 && Chained(s, hash) && UniqueKeys(s, same) && Mirrors(s, m)
    && size == Count(s) == |m|
  }

  lemma {:induction false} CountUpdate<K, V>(s: seq<Slot<K, V>>, i: nat, v: Slot<K, V>)
    requires i < |s|
    ensures Count(s[i := v]) == Count(s) - (if s[i].Occupied? then 1 else 0) + (if v.Occupied? then 1 else 0)
  {
    NumberUpdate(s, Used, i, v);
  }

  lemma {:induction false} CountFull<K, V>(s: seq<Slot<K, V>>)
    ensures Count(s) <= |s|
    ensures Count(s) == |s| <==> forall i :: 0 <= i < |s| ==> s[i].Occupied?
  {
    NumberBound(s, Used);
    NumberAll(s, Used);
    assert (forall i :: 0 <= i < |s| ==> s[i].Occupied?) <==> forall i :: 0 <= i < |s| ==> Used(s[i]);
  }

  // ----- searching -----

  /** The first `steps` probes for `key` met neither a vacant slot nor an entry with the same key. */
  ghost predicate Passed<K, V>(s: seq<Slot<K, V>>, hash: K -> nat, same: (K, K) -> bool, key: K, steps: nat) {
    && |s| > 0 && steps <= |s|
    && (forall step :: 0 <= step < steps ==>
          var slot := s[Probe(Bucket(hash, key, |s|), step, |s|)];
          slot != Vacant && !(slot.Occupied? && same(slot.key, key)))
  }

  /** The probe for `key` is over: it ran into a vacant slot, or around the whole table. */
  ghost predicate ProbedOut<K, V>(s: seq<Slot<K, V>>, hash: K -> nat, same: (K, K) -> bool, key: K, steps: nat) {
    && Passed(s, hash, same, key, steps)
    && (steps < |s| ==> s[Probe(Bucket(hash, key, |s|), steps, |s|)] == Vacant)
  }

  /** A key the probe does not meet is nowhere in the table. */
  lemma {:induction false} ProbedOutAbsent<K(!new), V>(s: seq<Slot<K, V>>, hash: K -> nat, same: (K, K) -> bool,
          m: map<K, V>, key: K, steps: nat)
    requires Chained(s, hash) && Mirrors(s, m) && HashAgrees(hash, same)
    requires ProbedOut(s, hash, same, key, steps)
    ensures !BoundedMap.Present(same, m, key)
    ensures forall i :: 0 <= i < |s| && s[i].Occupied? ==> !same(s[i].key, key)
  {
    forall i | 0 <= i < |s| && s[i].Occupied? ensures !same(s[i].key, key) {
      if same(s[i].key, key) {
        assert Bucket(hash, s[i].key, |s|) == Bucket(hash, key, |s|);
        ProbeDistance(Bucket(hash, key, |s|), i, |s|);
      }
    }
  }

  ghost predicate Packed<K, V>(s: seq<Slot<K, V>>, start: nat, steps: nat) {
    start < |s| && steps <= |s| && forall step :: 0 <= step < steps ==> s[Probe(start, step, |s|)].Occupied?
  }

  /** A probe that only met occupied slots all the way round has seen them all. */
  lemma {:induction false} PackedIsFull<K, V>(s: seq<Slot<K, V>>, start: nat)
    requires Packed(s, start, |s|)
    ensures Count(s) == |s|
  {
    forall i | 0 <= i < |s| ensures s[i].Occupied? { ProbeDistance(start, i, |s|); }
    CountFull(s);
  }

  /**
    `d` probes from `start` lead to `free`, the first tombstone of `step` probes; all were occupied when it is `|s|`.
   */
  ghost predicate FirstFree<K, V>(s: seq<Slot<K, V>>, start: nat, step: nat, free: nat, d: nat) {
    && start < |s| && step <= |s| && free <= |s|
    && (free < |s| ==> d < step && free == Probe(start, d, |s|) && s[free] == Deleted && Packed(s, start, d))
    && (free == |s| ==> Packed(s, start, step))
  }

  /** `entry` goes into the first slot of the probe from `start` that is not occupied, and nothing else changes. */
  ghost predicate FillsFirst<K, V>(s: seq<Slot<K, V>>, s': seq<Slot<K, V>>, start: nat, entry: Slot<K, V>) {
    start < |s| && exists d: nat :: Packed(s, start, d) && d < |s| && FillsAt(s, s', Probe(start, d, |s|), entry)
  }

  ghost predicate FillsAt<K, V>(s: seq<Slot<K, V>>, s': seq<Slot<K, V>>, i: nat, entry: Slot<K, V>) {
    i < |s| && !s[i].Occupied? && s' == s[i := entry]
  }

  lemma {:induction false} FirstFreeStart<K, V>(s: seq<Slot<K, V>>, start: nat)
    requires start < |s|
    ensures FirstFree(s, start, 0, |s|, 0)
  {
  }

  lemma {:induction false} FirstFreeNext<K, V>(s: seq<Slot<K, V>>, start: nat, step: nat, free: nat, d: nat)
    requires FirstFree(s, start, step, free, d) && step < |s|
    ensures free < |s| ==> d < step && free == Probe(start, d, |s|) && s[free] == Deleted && Packed(s, start, d)
    ensures free == |s| ==> Packed(s, start, step)
    ensures var i := Probe(start, step, |s|);
      && (s[i].Occupied? || (s[i] == Deleted && free < |s|) ==> FirstFree(s, start, step + 1, free, d))
      && (s[i] == Deleted && free == |s| ==> FirstFree(s, start, step + 1, i, step))
  {
  }

  lemma {:induction false} FirstFreeEnd<K, V>(s: seq<Slot<K, V>>, start: nat, free: nat, d: nat)
    requires FirstFree(s, start, |s|, free, d)
    ensures free < |s| ==> d < |s| && free == Probe(start, d, |s|) && s[free] == Deleted && Packed(s, start, d)
    ensures free >= |s| ==> free == |s| == Count(s)
  {
    if free == |s| {
      PackedIsFull(s, start);
    }
  }

  lemma {:induction false} PassedNext<K, V>(s: seq<Slot<K, V>>, hash: K -> nat, same: (K, K) -> bool, key: K, step: nat)
    requires Passed(s, hash, same, key, step) && step < |s|
    ensures var slot := s[Probe(Bucket(hash, key, |s|), step, |s|)];
      slot != Vacant && !(slot.Occupied? && same(slot.key, key)) ==> Passed(s, hash, same, key, step + 1)
  {
  }

  lemma {:induction false} FoundPresent<K, V>(s: seq<Slot<K, V>>, same: (K, K) -> bool, m: map<K, V>, key: K, i: nat)
    requires Mirrors(s, m) && i < |s| && s[i].Occupied? && same(s[i].key, key)
    ensures BoundedMap.Present(same, m, key)
  {
  }

  // ----- the effect of single writes -----

  lemma {:induction false} SoundInsert<K(!new), V>(s: seq<Slot<K, V>>, hash: K -> nat, same: (K, K) -> bool, size: nat,
          m: map<K, V>, key: K, value: V, steps: nat, d: nat)
    requires Sound(s, hash, same, size, m) && HashAgrees(hash, same) && BoundedMap.EquivalenceRelation(same)
    requires ProbedOut(s, hash, same, key, steps) && d <= steps && d < |s|
    requires !s[Probe(Bucket(hash, key, |s|), d, |s|)].Occupied?
    ensures var target := Probe(Bucket(hash, key, |s|), d, |s|);
      Sound(s[target := Occupied(key, value)], hash, same, size + 1, m[key := value])
    ensures BoundedMap.Insert(same, |s|, m, key, value) == (m[key := value], Ok)
  {
    ProbedOutAbsent(s, hash, same, m, key, steps);
    var start := Bucket(hash, key, |s|);
    var target := Probe(start, d, |s|);
    var s' := s[target := Occupied(key, value)];
    ProbeDistance(start, target, |s|);
    assert Chained(s', hash) by {
      forall i, step | 0 <= i < |s'| && s'[i].Occupied? && 0 <= step < Distance(Bucket(hash, s'[i].key, |s'|), i, |s'|)
        ensures s'[Probe(Bucket(hash, s'[i].key, |s'|), step, |s'|)] != Vacant
      {
      }
    }
    CountUpdate(s, target, Occupied(key, value));
    CountFull(s);
    assert same(key, key);
    assert Mirrors(s', m[key := value]) by { MirrorsInsert(s, m, target, key, value); }
  }

  lemma {:induction false} MirrorsInsert<K, V>(s: seq<Slot<K, V>>, m: map<K, V>, target: nat, key: K, value: V)
    requires Mirrors(s, m) && target < |s| && !s[target].Occupied? && key !in m
    ensures Mirrors(s[target := Occupied(key, value)], m[key := value])
  {
    var s', m' := s[target := Occupied(key, value)], m[key := value];
    forall k | k in m' ensures exists i :: 0 <= i < |s'| && s'[i].Occupied? && s'[i].key == k {
      if k == key {
        assert s'[target].Occupied?;
      } else {
        var i :| 0 <= i < |s| && s[i].Occupied? && s[i].key == k;
        assert s'[i].Occupied?;
      }
    }
  }

  lemma {:induction false} ChainedErase<K, V>(s: seq<Slot<K, V>>, hash: K -> nat, index: nat)
    requires Chained(s, hash) && index < |s|
    ensures Chained(s[index := Deleted], hash)
  {
    var s' := s[index := Deleted];
    forall i, step | 0 <= i < |s'| && s'[i].Occupied? && 0 <= step < Distance(Bucket(hash, s'[i].key, |s'|), i, |s'|)
      ensures s'[Probe(Bucket(hash, s'[i].key, |s'|), step, |s'|)] != Vacant
    {
      assert s[i].Occupied? && s[Probe(Bucket(hash, s[i].key, |s|), step, |s|)] != Vacant;
    }
  }

  lemma {:induction false} MirrorsErase<K(!new), V>(s: seq<Slot<K, V>>, same: (K, K) -> bool, m: map<K, V>, index: nat)
    requires Mirrors(s, m) && UniqueKeys(s, same) && BoundedMap.EquivalenceRelation(same) && index < |s|
    requires s[index].Occupied?
    ensures Mirrors(s[index := Deleted], m - {s[index].key})
    ensures forall k :: k in m && k != s[index].key ==> !same(k, s[index].key)
  {
    var stored := s[index].key;
    var s', m' := s[index := Deleted], m - {stored};
    forall i | 0 <= i < |s'| && s'[i].Occupied? ensures s'[i].key in m' && m'[s'[i].key] == s'[i].value {
      assert !same(s[i].key, s[index].key) && same(stored, stored);
    }
    forall k | k in m && k != stored
      ensures !same(k, stored) && exists i :: 0 <= i < |s'| && s'[i].Occupied? && s'[i].key == k
    {
      var i :| 0 <= i < |s| && s[i].Occupied? && s[i].key == k;
      assert s'[i].Occupied? && !same(s[i].key, s[index].key);
    }
  }

  lemma {:induction false} SoundErase<K(!new), V>(s: seq<Slot<K, V>>, hash: K -> nat, same: (K, K) -> bool, size: nat,
          m: map<K, V>, key: K, index: nat)
    requires Sound(s, hash, same, size, m) && BoundedMap.EquivalenceRelation(same)
    requires index < |s| && s[index].Occupied? && same(s[index].key, key)
    ensures size > 0 && Sound(s[index := Deleted], hash, same, size - 1, m - {s[index].key})
    ensures BoundedMap.Erase(same, m, key) == (m - {s[index].key}, Ok)
  {
    FoundPresent(s, same, m, key, index);
    CountUpdate(s, index, Deleted);
    ChainedErase(s, hash, index);
    MirrorsErase(s, same, m, index);
    BoundedMap.ErasedKey(same, m, s[index].key, key);
  }

  lemma {:induction false} SoundAssign<K(!new), V>(s: seq<Slot<K, V>>, hash: K -> nat, same: (K, K) -> bool, size: nat,
          m: map<K, V>, key: K, value: V, index: nat)
    requires Sound(s, hash, same, size, m) && BoundedMap.EquivalenceRelation(same)
    requires index < |s| && s[index].Occupied? && same(s[index].key, key)
    ensures var m' := m[s[index].key := value];
      && Sound(s[index := Occupied(s[index].key, value)], hash, same, size, m')
      && BoundedMap.InsertOrAssign(same, |s|, m, key, value) == (m', Ok)
  {
    FoundPresent(s, same, m, key, index);
    var stored := s[index].key;
    var s', m' := s[index := Occupied(stored, value)], m[stored := value];
    CountUpdate(s, index, Occupied(stored, value));
    MirrorsErase(s, same, m, index);
    assert Mirrors(s', m') by {
      MirrorsInsert(s[index := Deleted], m - {stored}, index, stored, value);
      AssignedMap(s, m, stored, value, index);
    }
    assert same(key, stored);
    assert (map k | k in m :: if same(k, key) then value else m[k]) == m';
  }

  lemma {:induction false} AssignedMap<K, V>(s: seq<Slot<K, V>>, m: map<K, V>, stored: K, value: V, index: nat)
    requires stored in m && index < |s|
    ensures (m - {stored})[stored := value] == m[stored := value]
    ensures s[index := Deleted][index := Occupied(stored, value)] == s[index := Occupied(stored, value)]
  {
  }

  class HashTable<K(!new), V> {
    const hash: K -> nat
    const same: (K, K) -> bool
    const slots: array<Slot<K, V>>
    var size: nat

    ghost var contents: map<K, V>

    ghost predicate Valid()
      reads this, slots
    {
      && BoundedMap.EquivalenceRelation(same) && HashAgrees(hash, same)
      && Sound(slots[..], hash, same, size, contents)
    }

    constructor (capacity: nat, hash: K -> nat, same: (K, K) -> bool)
      requires capacity > 0 && BoundedMap.EquivalenceRelation(same) && HashAgrees(hash, same)
      ensures Valid() && fresh(slots) && slots.Length == capacity && this.same == same
      ensures contents == map[]
    {
      this.hash, this.same := hash, same;
      slots := new Slot<K, V>[capacity](_ => Vacant);
      size := 0;
      contents := map[];
      new;
      NumberNone(slots[..], Used);
    }

    /** The slot of the entry with the same key, or `N`; stops at the first slot never used. */
    method FindIndex(key: K) returns (index: nat)
      requires Valid()
      ensures index <= slots.Length
      ensures index == slots.Length <==> !BoundedMap.Present(same, contents, key)
      ensures index < slots.Length ==> slots[index].Occupied? && same(slots[index].key, key)
    {
      assert Chained(slots[..], hash) && Mirrors(slots[..], contents) && HashAgrees(hash, same);
      assert Passed(slots[..], hash, same, key, 0);
      hide Valid, Sound, Chained, Mirrors, HashAgrees, BoundedMap.Present, Passed, Probe;
      var start := hash(key) % slots.Length;
      for step := 0 to slots.Length
        invariant Passed(slots[..], hash, same, key, step)
      {
        ProbeIsModular(start, step, slots.Length);
        PassedNext(slots[..], hash, same, key, step);
        index := (start + step) % slots.Length;
        if slots[index] == Vacant {
          ProbedOutAbsent(slots[..], hash, same, contents, key, step);
          return slots.Length;
        }
        if slots[index].Occupied? && same(slots[index].key, key) {
          FoundPresent(slots[..], same, contents, key, index);
          return;
        }
      }
      ProbedOutAbsent(slots[..], hash, same, contents, key, slots.Length);
      return slots.Length;
    }

    /**
      One pass over the probe sequence decides everything: the first tombstone is reused only after
      the key is known to be absent, and `Full` means that all slots are occupied.
     */
    method Insert(key: K, value: V) returns (status: Status)
      requires Valid()
      modifies this, slots
      ensures Valid()
      ensures (contents, status) == BoundedMap.Insert(same, slots.Length, old(contents), key, value)
      ensures BoundedMap.Inserts(same, slots.Length, old(contents), key, value, contents, status)
      ensures forall i :: 0 <= i < slots.Length && old(slots[i]).Occupied? ==> slots[i] == old(slots[i])
      ensures status == Ok ==>
        FillsFirst(old(slots[..]), slots[..], hash(key) % slots.Length, Occupied(key, value))
      ensures status != Ok ==> slots[..] == old(slots[..])
    {
      BoundedMap.InsertMeans(same, slots.Length, contents, key, value);
      hide BoundedMap.Inserts, Packed;
      var found, target, steps, d := FindTarget(key);
      if found {
        return AlreadyExists;
      }
      if target == slots.Length {
        return Full;
      }
      SoundInsert(slots[..], hash, same, size, contents, key, value, steps, d);
      ghost var s := slots[..];
      slots[target] := Occupied(key, value);
      assert FillsAt(s, slots[..], target, Occupied(key, value));
      size := size + 1;
      contents := contents[key := value];
      return Ok;
    }

    /** The probing loop of the insertion. */
    method FindTarget(key: K) returns (found: bool, target: nat, ghost steps: nat, ghost d: nat)
      requires Valid()
      ensures found <==> BoundedMap.Present(same, contents, key)
      ensures !found ==> ProbedOut(slots[..], hash, same, key, steps) && target <= slots.Length
      ensures !found && target < slots.Length ==>
        d <= steps && d < slots.Length && Packed(slots[..], Bucket(hash, key, slots.Length), d)
      ensures !found && target < slots.Length ==>
        target == Probe(Bucket(hash, key, slots.Length), d, slots.Length) && !slots[target].Occupied?
      ensures !found && target == slots.Length ==> |contents| == slots.Length
    {
      ghost var s := slots[..];
      assert Chained(s, hash) && Mirrors(s, contents) && HashAgrees(hash, same) && |contents| == Count(s);
      assert Passed(s, hash, same, key, 0);
      hide Valid, Sound, Chained, Mirrors, HashAgrees, BoundedMap.EquivalenceRelation, BoundedMap.Present, Count,
        Passed, Probe, FirstFree, Packed;
      var start := hash(key) % slots.Length;
      var firstDeleted: nat := slots.Length;
      found, steps, d := false, 0, 0;
      FirstFreeStart(s, start);
      for step := 0 to slots.Length
        invariant Passed(s, hash, same, key, step) && FirstFree(s, start, step, firstDeleted, d)
      {
        ProbeIsModular(start, step, slots.Length);
        PassedNext(s, hash, same, key, step);
        FirstFreeNext(s, start, step, firstDeleted, d);
        var index := (start + step) % slots.Length;
        if slots[index].Occupied? {
          if same(slots[index].key, key) {
            FoundPresent(s, same, contents, key, index);
            found, target := true, index;
            return;
          }
          continue;
        }
        if slots[index] == Deleted {
          if firstDeleted == slots.Length {
            firstDeleted, d := index, step;
          }
          continue;
        }
        steps := step;
        ProbedOutAbsent(s, hash, same, contents, key, step);
        if firstDeleted == slots.Length {
          target, d := index, step;
        } else {
          target := firstDeleted;
        }
        return;
      }
      steps := slots.Length;
      ProbedOutAbsent(s, hash, same, contents, key, slots.Length);
      target := firstDeleted;
      FirstFreeEnd(s, start, target, d);
    }

    method Erase(key: K) returns (status: Status)
      requires Valid()
      modifies this, slots
      ensures Valid()
      ensures (contents, status) == BoundedMap.Erase(same, old(contents), key)
      ensures BoundedMap.Erases(same, old(contents), key, contents, status)
      ensures forall i :: 0 <= i < slots.Length && slots[i].Occupied? ==> slots[i] == old(slots[i])
    {
      OneSlotEach(slots[..], same, contents);
      BoundedMap.EraseMeans(same, contents, key);
      hide BoundedMap.Erases;
      var index := FindIndex(key);
      if index == slots.Length {
        return NotFound;
      }
      SoundErase(slots[..], hash, same, size, contents, key, index);
      contents := contents - {slots[index].key};
      slots[index] := Deleted;
      size := size - 1;
      return Ok;
    }

    method InsertOrAssign(key: K, value: V) returns (status: Status)
      requires Valid()
      modifies this, slots
      ensures Valid()
      ensures (contents, status) == BoundedMap.InsertOrAssign(same, slots.Length, old(contents), key, value)
      ensures BoundedMap.InsertsOrAssigns(same, slots.Length, old(contents), key, value, contents, status)
    {
      BoundedMap.InsertOrAssignMeans(same, slots.Length, contents, key, value);
      hide BoundedMap.InsertsOrAssigns, BoundedMap.Inserts, FillsFirst;
      var existing := FindIndex(key);
      if existing != slots.Length {
        SoundAssign(slots[..], hash, same, size, contents, key, value, existing);
        contents := contents[slots[existing].key := value];
        slots[existing] := Occupied(slots[existing].key, value);
        return Ok;
      }
      status := Insert(key, value);
    }

    method Clear()
      requires Valid()
      modifies this, slots
      ensures Valid() && contents == map[] && size == 0
      ensures forall i :: 0 <= i < slots.Length ==> slots[i] == Vacant
    {
      for i := 0 to slots.Length
        invariant forall j :: 0 <= j < i ==> slots[j] == Vacant
      {
        slots[i] := Vacant;
      }
      size := 0;
      contents := map[];
      NumberNone(slots[..], Used);
    }

    method Contains(key: K) returns (present: bool)
      requires Valid()
      ensures present <==> BoundedMap.Present(same, contents, key)
    {
      var index := FindIndex(key);
      present := index != slots.Length;
    }

    /** The value stored under a key that is the same as `key`. */
    method Get(key: K) returns (value: Option<V>)
      requires Valid()
      ensures value.Some? <==> BoundedMap.Present(same, contents, key)
      ensures value.Some? ==> exists k :: k in contents && same(k, key) && contents[k] == value.value
    {
      var index := FindIndex(key);
      if index == slots.Length {
        return None;
      }
      assert slots[index].key in contents;
      value := Some(slots[index].value);
    }

    // ----- iteration -----

    method FirstOccupied() returns (index: nat)
      ensures index == NextOccupied(slots[..], 0)
    {
      index := 0;
      while index < slots.Length
        invariant index <= slots.Length && NextOccupied(slots[..], index) == NextOccupied(slots[..], 0)
      {
        if slots[index].Occupied? {
          return;
        }
        index := index + 1;
      }
    }

    lemma WalkVisits()
      requires Valid()
      ensures |OccupiedBelow(slots[..], slots.Length)| == size
      ensures Visits(slots[..], contents, OccupiedBelow(slots[..], slots.Length))
    {
      OccupiedBelowIs(slots[..], slots.Length);
      assert slots[..][..slots.Length] == slots[..];
    }

    method AdvanceIndex(from: nat) returns (index: nat)
      ensures index == if from >= slots.Length then from else NextOccupied(slots[..], from + 1)
    {
      index := from;
      if index >= slots.Length {
        return;
      }
      index := index + 1;
      while index < slots.Length && !slots[index].Occupied?
        invariant index <= slots.Length && NextOccupied(slots[..], index) == NextOccupied(slots[..], from + 1)
      {
        index := index + 1;
      }
    }

    /** `begin()` and repeated `++` visit every entry once, in slot order. */
    method Walk() returns (visited: seq<nat>)
      requires Valid()
      ensures visited == OccupiedBelow(slots[..], slots.Length) && |visited| == size
      ensures Visits(slots[..], contents, visited)
    {
      hide Valid, Visits;
      WalkVisits();
      visited := [];
      var index := FirstOccupied();
      NextOccupiedIs(slots[..], 0);
      SkipUnoccupied(slots[..], 0, index);
      while index != slots.Length
        invariant index <= slots.Length && (index < slots.Length ==> slots[index].Occupied?)
        invariant visited == OccupiedBelow(slots[..], index)
        decreases slots.Length - index
      {
        visited := visited + [index];
        var next := AdvanceIndex(index);
        NextOccupiedIs(slots[..], index + 1);
        SkipUnoccupied(slots[..], index + 1, next);
        index := next;
      }
    }
  }

  /** The slots `visited` ascend, hold entries of `m`, and miss none of them. */
  ghost predicate Visits<K, V>(s: seq<Slot<K, V>>, m: map<K, V>, visited: seq<nat>) {
    && (forall j, k :: 0 <= j < k < |visited| ==> visited[j] < visited[k])
    && (forall i :: i in visited ==>
          i < |s| && s[i].Occupied? && s[i].key in m && m[s[i].key] == s[i].value)
    && (forall k :: k in m ==> exists i :: i in visited && i < |s| && s[i] == Occupied(k, m[k]))
  }

  function NextOccupied<K, V>(s: seq<Slot<K, V>>, from: nat): nat
    requires from <= |s|
    decreases |s| - from
  {
    if from == |s| || s[from].Occupied? then from else NextOccupied(s, from + 1)
  }

  lemma {:induction false} NextOccupiedIs<K, V>(s: seq<Slot<K, V>>, from: nat)
    requires from <= |s|
    ensures var n := NextOccupied(s, from);
      && from <= n <= |s| && (n < |s| ==> s[n].Occupied?) && forall i :: from <= i < n ==> !s[i].Occupied?
    decreases |s| - from
  {
    if from < |s| && !s[from].Occupied? {
      NextOccupiedIs(s, from + 1);
    }
  }

  /** The occupied slots among the first `n`, in address order. */
  function OccupiedBelow<K, V>(s: seq<Slot<K, V>>, n: nat): seq<nat>
    requires n <= |s|
  {
    if n == 0 then [] else OccupiedBelow(s, n - 1) + if s[n - 1].Occupied? then [n - 1] else []
  }

  lemma {:induction false} SkipUnoccupied<K, V>(s: seq<Slot<K, V>>, lo: nat, hi: nat)
    requires lo <= hi <= |s| && forall i :: lo <= i < hi ==> !s[i].Occupied?
    ensures OccupiedBelow(s, hi) == OccupiedBelow(s, lo)
    decreases hi
  {
    if lo < hi {
      SkipUnoccupied(s, lo, hi - 1);
    }
  }

  /** That enumeration ascends, holds exactly the occupied slots, and is as long as the entry count. */
  lemma {:induction false} OccupiedBelowIs<K, V>(s: seq<Slot<K, V>>, n: nat)
    requires n <= |s|
    ensures var q := OccupiedBelow(s, n);
      && (forall j, k :: 0 <= j < k < |q| ==> q[j] < q[k])
      && (forall i: nat :: i in q <==> i < n && s[i].Occupied?)
      && |q| == Count(s[..n])
  {
    if n > 0 {
      assert s[..n][..n - 1] == s[..n - 1];
      OccupiedBelowIs(s, n - 1);
      var p := OccupiedBelow(s, n - 1);
      forall j | 0 <= j < |p| ensures p[j] < n - 1 { assert p[j] in p; }
    }
  }
}
