/**
  The plain bounded map that both associative containers stand for.  Keys are told apart by a
  caller-supplied equivalence `same`; the map holds at most `capacity` entries.
 */
module BoundedMap {
  import opened Basics

  ghost predicate EquivalenceRelation<K(!new)>(same: (K, K) -> bool) {
    && (forall x :: same(x, x))
    && (forall x, y :: same(x, y) ==> same(y, x))
    && (forall x, y, z :: same(x, y) && same(y, z) ==> same(x, z))
  }

  ghost predicate Present<K, V>(same: (K, K) -> bool, m: map<K, V>, key: K) {
    exists k :: k in m && same(k, key)
  }

  ghost function Insert<K, V>(same: (K, K) -> bool, capacity: nat, m: map<K, V>, key: K, value: V)
    : (map<K, V>, Status) {
    if Present(same, m, key) then (m, AlreadyExists)
    else if |m| >= capacity then (m, Full)
    else (m[key := value], Ok)
  }

  ghost function Erase<K, V>(same: (K, K) -> bool, m: map<K, V>, key: K): (map<K, V>, Status) {
    if Present(same, m, key) then (map k | k in m && !same(k, key) :: m[k], Ok) else (m, NotFound)
  }

  ghost function InsertOrAssign<K, V>(same: (K, K) -> bool, capacity: nat, m: map<K, V>, key: K, value: V)
    : (map<K, V>, Status) {
    if Present(same, m, key) then (map k | k in m :: if same(k, key) then value else m[k], Ok)
    else Insert(same, capacity, m, key, value)
  }

  /** Removing the one stored key with the same key is what the bounded map calls erasing `key`. */
  lemma ErasedKey<K(!new), V>(same: (K, K) -> bool, m: map<K, V>, stored: K, key: K)
    requires EquivalenceRelation(same) && stored in m && same(stored, key)
    requires forall k :: k in m && k != stored ==> !same(k, stored)
    ensures Erase(same, m, key) == (m - {stored}, Ok)
  {
    assert same(key, stored);
    assert (map k | k in m && !same(k, key) :: m[k]) == m - {stored};
  }

  // ----- what the operations mean -----

  /** No two keys of the map are the same. */
  ghost predicate OneOfEach<K, V>(same: (K, K) -> bool, m: map<K, V>) {
    forall k, k' :: k in m && k' in m && same(k, k') ==> k == k'
  }

  /** A lookup of `key` finds `value`, and no other value. */
  ghost predicate Finds<K, V>(same: (K, K) -> bool, m: map<K, V>, key: K, value: V) {
    && (exists k :: k in m && same(k, key))
    && (forall k :: k in m && same(k, key) ==> m[k] == value)
  }

  /** The entries of the keys that are not the same as `key` are in both maps, and equal. */
  ghost predicate OthersKept<K, V>(same: (K, K) -> bool, m: map<K, V>, m': map<K, V>, key: K) {
    && (forall k :: k in m && !same(k, key) ==> k in m' && m'[k] == m[k])
    && (forall k :: k in m' && !same(k, key) ==> k in m)
  }

  /** What an insertion means: the statuses tell its cases apart, and only success makes the key found. */
  ghost predicate Inserts<K, V>(same: (K, K) -> bool, capacity: nat, m: map<K, V>, key: K, value: V,
          m': map<K, V>, status: Status) {
    && (status == Ok || status == AlreadyExists || status == Full)
    && (status == AlreadyExists <==> exists k :: k in m && same(k, key))
    && (status == Full <==> (forall k :: k in m ==> !same(k, key)) && |m| >= capacity)
    && (status == Ok <==> Finds(same, m', key, value) && |m'| == |m| + 1)
    && (status == Ok ==> key in m')
    && (status != Ok ==> m' == m)
    && OthersKept(same, m, m', key)
  }

  /** What an erasure means: success exactly when the key was there, and afterwards it is not. */
  ghost predicate Erases<K, V>(same: (K, K) -> bool, m: map<K, V>, key: K, m': map<K, V>, status: Status) {
    && (status == Ok || status == NotFound)
    && (status == Ok <==> exists k :: k in m && same(k, key))
    && (forall k :: k in m' ==> !same(k, key))
    && |m'| == |m| - (if status == Ok then 1 else 0)
    && OthersKept(same, m, m', key)
  }

  /** What an assignment means: it fails only for a new key in a full map, and keeps a stored key as it is. */
  ghost predicate InsertsOrAssigns<K, V>(same: (K, K) -> bool, capacity: nat, m: map<K, V>, key: K, value: V,
          m': map<K, V>, status: Status) {
    && (status == Ok || status == Full)
    && (status == Full <==> (forall k :: k in m ==> !same(k, key)) && |m| >= capacity)
    && (status == Ok ==> Finds(same, m', key, value))
    && (status == Full ==> m' == m)
    && ((exists k :: k in m && same(k, key)) ==> m'.Keys == m.Keys)
    && (status == Ok && (forall k :: k in m ==> !same(k, key)) ==> key in m' && |m'| == |m| + 1)
    && OthersKept(same, m, m', key)
  }

  lemma {:induction false} InsertMeans<K(!new), V>(same: (K, K) -> bool, capacity: nat, m: map<K, V>, key: K, value: V)
    requires EquivalenceRelation(same)
    ensures var (m', status) := Insert(same, capacity, m, key, value);
      Inserts(same, capacity, m, key, value, m', status)
  {
    if !Present(same, m, key) {
      assert key !in m;
      assert m[key := value].Keys == m.Keys + {key};
    }
  }

  lemma {:induction false} EraseMeans<K(!new), V>(same: (K, K) -> bool, m: map<K, V>, key: K)
    requires EquivalenceRelation(same) && OneOfEach(same, m)
    ensures var (m', status) := Erase(same, m, key); Erases(same, m, key, m', status)
  {
    if Present(same, m, key) {
      var stored :| stored in m && same(stored, key);
      forall k | k in m && k != stored ensures !same(k, stored) { }
      ErasedKey(same, m, stored, key);
      assert (m - {stored}).Keys == m.Keys - {stored};
    }
  }

  lemma {:induction false} InsertOrAssignMeans<K(!new), V>(same: (K, K) -> bool, capacity: nat, m: map<K, V>, key: K,
          value: V)
    requires EquivalenceRelation(same)
    ensures var (m', status) := InsertOrAssign(same, capacity, m, key, value);
      InsertsOrAssigns(same, capacity, m, key, value, m', status)
  {
    if Present(same, m, key) {
      assert InsertOrAssign(same, capacity, m, key, value).0.Keys == m.Keys;
    } else {
      InsertMeans(same, capacity, m, key, value);
    }
  }

  // ----- runs -----

  datatype Op<K, V> = InsertOp(key: K, value: V) | EraseOp(key: K) | ContainsOp(key: K)

  datatype Answer = Did(status: Status) | Found(present: bool)

  ghost function Step<K, V>(same: (K, K) -> bool, capacity: nat, m: map<K, V>, op: Op<K, V>): (map<K, V>, Answer) {
    match op
    case InsertOp(key, value) => var (m', status) := Insert(same, capacity, m, key, value); (m', Did(status))
    case EraseOp(key) => var (m', status) := Erase(same, m, key); (m', Did(status))
    case ContainsOp(key) => (m, Found(Present(same, m, key)))
  }

  /** What an answer means for the map before and after the operation. */
  ghost predicate Answers<K, V>(same: (K, K) -> bool, capacity: nat, m: map<K, V>, op: Op<K, V>, m': map<K, V>,
          answer: Answer) {
    match op
    case InsertOp(key, value) => answer.Did? && Inserts(same, capacity, m, key, value, m', answer.status)
    case EraseOp(key) => answer.Did? && Erases(same, m, key, m', answer.status)
    case ContainsOp(key) => m' == m && answer.Found? && (answer.present <==> exists k :: k in m && same(k, key))
  }

  lemma {:induction false} StepMeans<K(!new), V>(same: (K, K) -> bool, capacity: nat, m: map<K, V>, op: Op<K, V>)
    requires EquivalenceRelation(same) && OneOfEach(same, m)
    ensures var (m', answer) := Step(same, capacity, m, op);
      Answers(same, capacity, m, op, m', answer) && OneOfEach(same, m')
  {
    match op
    case InsertOp(key, value) => InsertMeans(same, capacity, m, key, value);
    case EraseOp(key) => EraseMeans(same, m, key);
    case ContainsOp(key) =>
  }

  /** The answers to a whole sequence of operations, starting from `m`. */
  ghost function Run<K, V>(same: (K, K) -> bool, capacity: nat, m: map<K, V>, ops: seq<Op<K, V>>): seq<Answer>
    decreases ops
  {
    if ops == [] then [] else
      var (m', answer) := Step(same, capacity, m, ops[0]);
      [answer] + Run(same, capacity, m', ops[1..])
  }

  /** `ms` are the maps that a run goes through, and each answer means what it says about two of them. */
  ghost predicate Explains<K, V>(same: (K, K) -> bool, capacity: nat, ms: seq<map<K, V>>, ops: seq<Op<K, V>>,
          answers: seq<Answer>) {
    && |ms| == |ops| + 1 && |answers| == |ops|
    && forall i :: 0 <= i < |ops| ==> Answers(same, capacity, ms[i], ops[i], ms[i + 1], answers[i])
  }

  lemma {:induction false} RunMeans<K(!new), V>(same: (K, K) -> bool, capacity: nat, m: map<K, V>, ops: seq<Op<K, V>>)
    returns (ms: seq<map<K, V>>)
    requires EquivalenceRelation(same) && OneOfEach(same, m)
    ensures Explains(same, capacity, ms, ops, Run(same, capacity, m, ops)) && ms[0] == m
    decreases ops
  {
    hide Inserts, Erases, OneOfEach, EquivalenceRelation;
    ms := [m];
    if ops != [] {
      var (m', answer) := Step(same, capacity, m, ops[0]);
      StepMeans(same, capacity, m, ops[0]);
      var rest := RunMeans(same, capacity, m', ops[1..]);
      hide Answers, Step;
      ms := [m] + rest;
      assert Run(same, capacity, m, ops) == [answer] + Run(same, capacity, m', ops[1..]);
    }
  }

  lemma {:induction false} RunStep<K, V>(same: (K, K) -> bool, capacity: nat, m: map<K, V>, ops: seq<Op<K, V>>, i: nat,
          done: seq<Answer>)
    requires i < |ops|
    ensures var (m', answer) := Step(same, capacity, m, ops[i]);
      done + Run(same, capacity, m, ops[i..]) == (done + [answer]) + Run(same, capacity, m', ops[i + 1..])
  {
    assert ops[i..][0] == ops[i] && ops[i..][1..] == ops[i + 1..];
  }

  lemma {:induction false} RunEnds<K, V>(same: (K, K) -> bool, capacity: nat, m: map<K, V>, ops: seq<Op<K, V>>)
    requires ops == []
    ensures Run(same, capacity, m, ops) == []
  {
  }

  /** Only what the equivalence relates matters, not how it is written down. */
  lemma {:induction false} StepDependsOnRelation<K(!new), V>(same: (K, K) -> bool, same': (K, K) -> bool, capacity: nat,
          m: map<K, V>, op: Op<K, V>)
    requires forall x, y :: same(x, y) <==> same'(x, y)
    ensures Step(same, capacity, m, op) == Step(same', capacity, m, op)
  {
    var key := op.key;
    assert Present(same, m, key) <==> Present(same', m, key);
    assert (map k | k in m && !same(k, key) :: m[k]) == (map k | k in m && !same'(k, key) :: m[k]);
  }

  lemma {:induction false} RunDependsOnRelation<K(!new), V>(same: (K, K) -> bool, same': (K, K) -> bool, capacity: nat,
          m: map<K, V>, ops: seq<Op<K, V>>)
    requires forall x, y :: same(x, y) <==> same'(x, y)
    ensures Run(same, capacity, m, ops) == Run(same', capacity, m, ops)
    decreases ops
  {
    if ops != [] {
      StepDependsOnRelation(same, same', capacity, m, ops[0]);
      RunDependsOnRelation(same, same', capacity, Step(same, capacity, m, ops[0]).0, ops[1..]);
    }
  }
}
