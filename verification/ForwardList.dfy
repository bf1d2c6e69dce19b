/**
  The fixed-capacity singly linked list.  Its node addresses are `0 .. N - 1` for the embedded pool
  and `N` for the sentinel before the first element, so `next` has `N + 1` entries and `values` `N`.
 */
module ListContainer {
  import opened Basics
  import opened PoolLinks

  /** The `next` link of the `k`-th node of `path` leads to the one after it. */
  predicate Leads(next: seq<Link>, path: seq<nat>, k: nat)
    requires k < |path|
  {
    path[k] < |next| && next[path[k]] == LinkAt(path, k + 1)
  }

  /** From `first`, the `next` links visit exactly `path` and then end. */
  ghost predicate Chain(next: seq<Link>, first: Link, path: seq<nat>) {
    first == LinkAt(path, 0) && forall k :: 0 <= k < |path| ==> Leads(next, path, k)
  }

  /** `live` and `free` hold `n` different slots below `n` between them. */
  ghost predicate Shared(n: nat, live: seq<nat>, free: seq<nat>) {
    && |live| + |free| == n && NoRepeats(live) && NoRepeats(free)
    && (forall k :: 0 <= k < |live| ==> live[k] < n)
    && (forall k :: 0 <= k < |free| ==> free[k] < n)
    && (forall j, k :: 0 <= j < |live| && 0 <= k < |free| ==> live[j] != free[k])
  }

  /** Every live slot holds an object, and no free one does. */
  ghost predicate Filled<T>(values: seq<Option<T>>, live: seq<nat>, free: seq<nat>) {
    && (forall k :: 0 <= k < |live| ==> live[k] < |values| && values[live[k]].Some?)
    && (forall k :: 0 <= k < |free| ==> free[k] < |values| && values[free[k]].None?)
  }

  ghost predicate Sound<T>(next: seq<Link>, values: seq<Option<T>>, head: Link, freeHead: Link, size: nat,
          live: seq<nat>, free: seq<nat>) {
    && |next| == |values| + 1 && Shared(|values|, live, free) && Filled(values, live, free)
    && head == next[|values|] && Chain(next, head, live) && Chain(next, freeHead, free)
    && size == |live|
  }

  /** The elements along `path`. */
  ghost function Elements<T>(values: seq<Option<T>>, path: seq<nat>): (s: seq<T>)
    requires forall k :: 0 <= k < |path| ==> path[k] < |values| && values[path[k]].Some?
  {
    seq(|path|, k requires 0 <= k < |path| => values[path[k]].value)
  }

  /** The node in front of position `k`: the sentinel `n` for the first. */
  function Prior(live: seq<nat>, n: nat, k: nat): nat
    requires k <= |live|
  {
    if k == 0 then n else live[k - 1]
  }

  /** The position right after the node `i`. */
  ghost function PositionAfter(live: seq<nat>, n: nat, i: nat): (k: nat)
    requires i == n || i in live
    ensures k <= |live| && (i == n ==> k == 0) && (i != n ==> k > 0 && live[k - 1] == i)
  {
    if i == n then 0 else Rank(live, i) + 1
  }

  function InsertAt<T>(s: seq<T>, k: nat, x: T): seq<T>
    requires k <= |s|
  {
    s[..k] + [x] + s[k..]
  }

  function DeleteAt<T>(s: seq<T>, k: nat): seq<T>
    requires k < |s|
  {
    s[..k] + s[k + 1..]
  }

  function Backwards<T>(s: seq<T>): seq<T> {
    seq(|s|, k requires 0 <= k < |s| => s[|s| - 1 - k])
  }

  function Without<T(==)>(s: seq<T>, x: T): seq<T> {
    if s == [] then [] else Without(s[..|s| - 1], x) + if s[|s| - 1] == x then [] else [s[|s| - 1]]
  }

  /** What is inserted is found at its position, and deleting there gives back what was. */
  lemma {:induction false} InsertDelete<T>(s: seq<T>, k: nat, x: T)
    requires k <= |s|
    ensures |InsertAt(s, k, x)| == |s| + 1 && InsertAt(s, k, x)[k] == x && DeleteAt(InsertAt(s, k, x), k) == s
    ensures k < |s| ==> InsertAt(DeleteAt(s, k), k, s[k]) == s
  {
    assert DeleteAt(InsertAt(s, k, x), k) == s;
    if k < |s| {
      assert InsertAt(DeleteAt(s, k), k, s[k]) == s;
    }
  }

  /** Turning round exchanges the parts of a sequence, and twice does nothing. */
  lemma {:induction false} BackwardsParts<T>(s: seq<T>, s': seq<T>, x: T)
    ensures Backwards(s + s') == Backwards(s') + Backwards(s)
    ensures Backwards([x]) == [x] && Backwards(Backwards(s)) == s
  {
    assert Backwards(s + s') == Backwards(s') + Backwards(s);
    assert Backwards(Backwards(s)) == s;
  }

  /** Removal goes part by part, so what is left keeps its order. */
  lemma {:induction false} WithoutParts<T>(s: seq<T>, s': seq<T>, x: T, y: T)
    ensures Without(s + s', x) == Without(s, x) + Without(s', x)
    ensures Without([y], x) == if y == x then [] else [y]
    decreases s'
  {
    if s' == [] {
      assert s + s' == s;
    } else {
      var front := s'[..|s'| - 1];
      WithoutParts(s, front, x, y);
      assert (s + s')[..|s + s'| - 1] == s + front;
    }
    assert [y][..0] == [];
  }

  // ----- no node is ever lost -----

  lemma {:induction false} Pigeonhole(q: seq<nat>, pool: set<nat>)
    requires NoRepeats(q) && forall k :: 0 <= k < |q| ==> q[k] in pool
    ensures |q| <= |pool|
    decreases q
  {
    if q != [] {
      Pigeonhole(q[1..], pool - {q[0]});
    }
  }

  ghost function Pool(n: nat): (pool: set<nat>)
    ensures |pool| == n && forall i: nat :: i in pool <==> i < n
  {
    if n == 0 then {} else Pool(n - 1) + {n - 1}
  }

  /** Every node of the pool is on exactly one of the two chains. */
  lemma {:induction false} NothingLost(n: nat, live: seq<nat>, free: seq<nat>, i: nat)
    requires Shared(n, live, free) && i < n
    ensures (i in live) != (i in free)
  {
    if i !in live && i !in free {
      Pigeonhole(live + free, Pool(n) - {i});
      assert false;
    }
  }

  // ----- relinking -----

  /** Taking the first free node and linking it in at position `k`. */
  lemma {:induction false} Inserted<T>(next: seq<Link>, values: seq<Option<T>>, head: Link, freeHead: Link,
          live: seq<nat>, free: seq<nat>, k: nat, x: T)
    requires Sound(next, values, head, freeHead, |live|, live, free) && free != [] && k <= |live|
    ensures var n := |values|; var item := free[0]; var p := Prior(live, n, k);
      && item < n && p <= n && item != p && freeHead == To(item)
      && Sound(next[item := next[p]][p := To(item)], values[item := Some(x)], if p == n then To(item) else head,
               next[item], |live| + 1, InsertAt(live, k, item), free[1..])
      && Elements(values[item := Some(x)], InsertAt(live, k, item)) == InsertAt(Elements(values, live), k, x)
      && item !in live
  {
    InsertedChains(next, |values|, head, freeHead, live, free, k);
    InsertedShared(|values|, live, free, k);
  }

  lemma {:induction false} InsertedShared(n: nat, live: seq<nat>, free: seq<nat>, k: nat)
    requires Shared(n, live, free) && free != [] && k <= |live|
    ensures Shared(n, InsertAt(live, k, free[0]), free[1..])
  {
  }

  lemma {:induction false} InsertedChains(next: seq<Link>, n: nat, head: Link, freeHead: Link, live: seq<nat>,
          free: seq<nat>, k: nat)
    requires |next| == n + 1 && head == next[n] && Shared(n, live, free)
    requires Chain(next, head, live) && Chain(next, freeHead, free) && free != [] && k <= |live|
    ensures var item := free[0]; var p := Prior(live, n, k); var next' := next[item := next[p]][p := To(item)];
      && next'[n] == (if p == n then To(item) else head)
      && Chain(next', next'[n], InsertAt(live, k, item)) && Chain(next', next[item], free[1..])
  {
    var item, p := free[0], Prior(live, n, k);
    var next', live' := next[item := next[p]][p := To(item)], InsertAt(live, k, item);
    assert Leads(next, free, 0);
    if k > 0 { assert Leads(next, live, k - 1); }
    forall j | 0 <= j < |live'| ensures Leads(next', live', j) {
      if j < k - 1 {
        assert Leads(next, live, j);
      } else if j > k {
        assert Leads(next, live, j - 1);
      }
    }
    forall j | 0 <= j < |free| - 1 ensures Leads(next', free[1..], j) {
      assert Leads(next, free, j + 1);
    }
  }

  /** Unlinking the node at position `k` and putting it at the front of the free list. */
  lemma {:induction false} Deleted<T>(next: seq<Link>, values: seq<Option<T>>, head: Link, freeHead: Link,
          live: seq<nat>, free: seq<nat>, k: nat)
    requires Sound(next, values, head, freeHead, |live|, live, free) && k < |live|
    ensures var n := |values|; var item := live[k]; var p := Prior(live, n, k);
      && item < n && p <= n && item != p && (head == To(item) <==> k == 0)
      && Sound(next[p := next[item]][item := freeHead], values[item := None], if k == 0 then next[item] else head,
               To(item), |live| - 1, DeleteAt(live, k), [item] + free)
      && Elements(values[item := None], DeleteAt(live, k)) == DeleteAt(Elements(values, live), k)
      && item !in DeleteAt(live, k)
  {
    DeletedChains(next, |values|, head, freeHead, live, free, k);
    DeletedShared(|values|, live, free, k);
  }

  lemma {:induction false} DeletedShared(n: nat, live: seq<nat>, free: seq<nat>, k: nat)
    requires Shared(n, live, free) && k < |live|
    ensures Shared(n, DeleteAt(live, k), [live[k]] + free)
  {
  }

  lemma {:induction false} DeletedChains(next: seq<Link>, n: nat, head: Link, freeHead: Link, live: seq<nat>,
          free: seq<nat>, k: nat)
    requires |next| == n + 1 && head == next[n] && Shared(n, live, free)
    requires Chain(next, head, live) && Chain(next, freeHead, free) && k < |live|
    ensures var item := live[k]; var p := Prior(live, n, k); var next' := next[p := next[item]][item := freeHead];
      && next'[n] == (if k == 0 then next[item] else head)
      && Chain(next', next'[n], DeleteAt(live, k)) && Chain(next', To(item), [item] + free)
  {
    var item, p := live[k], Prior(live, n, k);
    var next', live' := next[p := next[item]][item := freeHead], DeleteAt(live, k);
    assert Leads(next, live, k);
    forall j | 0 <= j < |live'| ensures Leads(next', live', j) {
      if j < k - 1 {
        assert Leads(next, live, j);
      } else if j >= k {
        assert Leads(next, live, j + 1);
      }
    }
    forall j | 0 <= j <= |free| ensures Leads(next', [item] + free, j) {
      if j > 0 { assert Leads(next, free, j - 1); }
    }
  }

  /** Every slot of `path` holds what it held before. */
  ghost predicate Unchanged<T>(was: seq<Option<T>>, values: seq<Option<T>>, path: seq<nat>) {
    |was| == |values| && forall k :: 0 <= k < |path| ==> path[k] < |values| && values[path[k]] == was[path[k]]
  }

  lemma {:induction false} UnchangedAt<T>(was: seq<Option<T>>, values: seq<Option<T>>, path: seq<nat>, k: nat)
    requires Unchanged(was, values, path) && k < |path|
    ensures path[k] < |values| == |was| && values[path[k]] == was[path[k]]
  {
  }

  lemma {:induction false} UnchangedThrough<T>(was: seq<Option<T>>, mid: seq<Option<T>>, values: seq<Option<T>>,
          path: seq<nat>, k: nat)
    requires k < |path| && Unchanged(was, mid, path) && Unchanged(mid, values, DeleteAt(path, k))
    ensures Unchanged(was, values, DeleteAt(path, k))
  {
    forall j | 0 <= j < |path| - 1
      ensures DeleteAt(path, k)[j] < |values| && values[DeleteAt(path, k)[j]] == was[DeleteAt(path, k)[j]]
    {
      assert DeleteAt(path, k)[j] == path[if j < k then j else j + 1];
    }
  }

  // ----- reversal -----

  predicate LeadsBack(next: seq<Link>, live: seq<nat>, k: nat)
    requires k < |live|
  {
    live[k] < |next| && next[live[k]] == LinkAt(live, k - 1)
  }

  /** The links of the first `k` nodes have been turned round, and no others. */
  ghost predicate Turned(next0: seq<Link>, next: seq<Link>, live: seq<nat>, k: nat) {
    && |next| == |next0| && k <= |live|
    && (forall j :: 0 <= j < k ==> LeadsBack(next, live, j))
    && (forall i: nat :: i < |next| && i !in live[..k] ==> next[i] == next0[i])
  }

  lemma {:induction false} TurnNext(next0: seq<Link>, next: seq<Link>, live: seq<nat>, k: nat)
    requires NoRepeats(live) && Chain(next0, LinkAt(live, 0), live) && Turned(next0, next, live, k) && k < |live|
    ensures live[k] < |next| && next[live[k]] == LinkAt(live, k + 1)
    ensures Turned(next0, next[live[k] := LinkAt(live, k - 1)], live, k + 1)
  {
    assert Leads(next0, live, k);
    assert live[k] !in live[..k];
    var next' := next[live[k] := LinkAt(live, k - 1)];
    assert live[..k + 1] == live[..k] + [live[k]];
    forall j | 0 <= j < k ensures LeadsBack(next', live, j) {
      assert LeadsBack(next, live, j);
    }
  }

  /** Once every link is turned, the list runs the other way. */
  lemma {:induction false} AllTurned<T>(next0: seq<Link>, next: seq<Link>, values: seq<Option<T>>, head: Link,
          freeHead: Link, live: seq<nat>, free: seq<nat>)
    requires Sound(next0, values, head, freeHead, |live|, live, free) && Turned(next0, next, live, |live|)
    ensures var last := LinkAt(live, |live| - 1);
      Sound(next[|values| := last], values, last, freeHead, |live|, Backwards(live), free)
    ensures Elements(values, Backwards(live)) == Backwards(Elements(values, live))
  {
    var last, back := LinkAt(live, |live| - 1), Backwards(live);
    var next' := next[|values| := last];
    forall j | 0 <= j < |back| ensures Leads(next', back, j) {
      assert LeadsBack(next, live, |live| - 1 - j);
    }
    forall j | 0 <= j < |free| ensures Leads(next', free, j) {
      assert Leads(next0, free, j);
      assert free[j] !in live[..|live|];
    }
  }

  // ----- removal by value -----

  /** The slots of `path` whose element is not `x`. */
  ghost function Survivors<T>(values: seq<Option<T>>, path: seq<nat>, x: T): (kept: seq<nat>)
    requires forall k :: 0 <= k < |path| ==> path[k] < |values| && values[path[k]].Some?
    ensures forall k :: 0 <= k < |kept| ==> kept[k] in path && values[kept[k]].Some? && values[kept[k]].value != x
  {
    if path == [] then [] else
      Survivors(values, path[..|path| - 1], x)
      + if values[path[|path| - 1]] == Some(x) then [] else [path[|path| - 1]]
  }

  lemma {:induction false} SurvivorElements<T>(values: seq<Option<T>>, path: seq<nat>, x: T)
    requires forall k :: 0 <= k < |path| ==> path[k] < |values| && values[path[k]].Some?
    ensures Elements(values, Survivors(values, path, x)) == Without(Elements(values, path), x)
    decreases path
  {
    if path != [] {
      var front := path[..|path| - 1];
      SurvivorElements(values, front, x);
      assert Elements(values, path)[..|path| - 1] == Elements(values, front);
    }
  }

  /** The removal loop has dealt with the first `j` of the nodes `all`, and kept `k` of them. */
  ghost predicate Sifted<T>(was: seq<Option<T>>, all: seq<nat>, x: T, live: seq<nat>, j: nat, k: nat) {
    && (forall i :: 0 <= i < |all| ==> all[i] < |was| && was[all[i]].Some?)
    && j <= |all| && k == |Survivors(was, all[..j], x)| && live == Survivors(was, all[..j], x) + all[j..]
  }

  lemma {:induction false} SiftStart<T>(was: seq<Option<T>>, all: seq<nat>, x: T)
    requires forall i :: 0 <= i < |all| ==> all[i] < |was| && was[all[i]].Some?
    ensures Sifted(was, all, x, all, 0, 0)
  {
  }

  lemma {:induction false} SiftStep<T>(was: seq<Option<T>>, all: seq<nat>, x: T, live: seq<nat>, j: nat, k: nat)
    requires Sifted(was, all, x, live, j, k) && k < |live|
    ensures j < |all| && live[k] == all[j] && live[k] < |was|
    ensures was[live[k]] == Some(x) ==> Sifted(was, all, x, DeleteAt(live, k), j + 1, k)
    ensures was[live[k]] != Some(x) ==> Sifted(was, all, x, live, j + 1, k + 1)
  {
    var kept := Survivors(was, all[..j], x);
    assert all[..j + 1][..j] == all[..j] && all[j..] == [all[j]] + all[j + 1..];
    if was[live[k]] == Some(x) {
      assert DeleteAt(live, k) == kept + all[j + 1..];
    } else {
      assert live == kept + [all[j]] + all[j + 1..];
    }
  }

  lemma {:induction false} SiftEnd<T>(was: seq<Option<T>>, all: seq<nat>, x: T, live: seq<nat>, values: seq<Option<T>>,
          j: nat, k: nat)
    requires Sifted(was, all, x, live, j, k) && k >= |live| && Unchanged(was, values, live)
    ensures live == Survivors(was, all, x) && Filled(values, live, [])
    ensures Elements(values, live) == Without(Elements(was, all), x)
  {
    assert all[..j] == all;
    SurvivorElements(was, all, x);
  }

  /** What is removed is exactly the occurrences of `x`. */
  lemma {:induction false} WithoutCounts<T>(s: seq<T>, x: T, y: T)
    ensures multiset(Without(s, x))[y] == if x == y then 0 else multiset(s)[y]
    decreases s
  {
    if s != [] {
      var front, last := s[..|s| - 1], s[|s| - 1];
      WithoutCounts(front, x, y);
      assert multiset(s)[y] == multiset(front)[y] + (if last == y then 1 else 0) by { assert s == front + [last]; }
      assert Without(s, x) == Without(front, x) + if last == x then [] else [last];
    }
  }

  /** `PositionAfter` undoes `Prior`. */
  lemma {:induction false} PriorPosition(live: seq<nat>, n: nat, k: nat)
    requires NoRepeats(live) && n !in live && k <= |live|
    ensures PositionAfter(live, n, Prior(live, n, k)) == k
  {
    if k > 0 {
      RankOfElement(live, k - 1);
    }
  }

  // ----- the container -----

  class ForwardList<T(==)> {
    const capacity: nat
    const next: array<Link>
    const values: array<Option<T>>
    var head: Link
    var freeHead: Link
    var size: nat
    ghost var live: seq<nat>
    ghost var free: seq<nat>

    ghost predicate Valid()
      reads this, next, values
    {
      && next.Length == capacity + 1 && values.Length == capacity
      && Sound(next[..], values[..], head, freeHead, size, live, free)
    }

    /** The elements from first to last. */
    ghost function Contents(): (s: seq<T>)
      requires Valid()
      reads this, next, values
      ensures |s| == size
    {
      Elements(values[..], live)
    }

    /** An iterator that may be passed in: the end, the sentinel, or a live node. */
    ghost predicate Iterator(position: Link)
      reads this
    {
      position != Null ==> position.slot == capacity || position.slot in live
    }

    lemma LinkAfter(k: nat)
      requires Valid() && k <= |live|
      ensures Prior(live, capacity, k) <= capacity < next.Length && next[Prior(live, capacity, k)] == LinkAt(live, k)
      ensures Prior(live, capacity, 0) == capacity
    {
      if k > 0 { assert Leads(next[..], live, k - 1); }
    }

    lemma NodeAt(k: nat)
      requires Valid() && k < |live|
      ensures live[k] < capacity < next.Length && live[k] < values.Length && values[live[k]].Some?
      ensures next[live[k]] == LinkAt(live, k + 1) && Prior(live, capacity, k + 1) == live[k]
    {
      assert Leads(next[..], live, k);
    }

    constructor (n: nat)
      requires n > 0
      ensures Valid() && fresh(next) && fresh(values) && capacity == n && Contents() == []
    {
      capacity := n;
      next := new Link[n + 1](_ => Null);
      values := new Option<T>[n](_ => None);
      head, freeHead, size, live, free := Null, Null, 0, [], [];
      new;
      InitialisePool();
    }

    method InitialisePool()
      requires next.Length == capacity + 1 && values.Length == capacity && size == 0
      requires forall i :: 0 <= i < values.Length ==> values[i] == None
      modifies this, next
      ensures Valid() && Contents() == []
    {
      freeHead := Null;
      live, free := [], [];
      for i := capacity downto 0
        invariant size == 0 && live == []
        invariant free == seq(capacity - i, k => i + k) && Chain(next[..], freeHead, free)
      {
        ghost var was, tail := next[..], free;
        next[i] := freeHead;
        freeHead := To(i);
        free := [i] + free;
        forall k | 0 <= k < |free| ensures Leads(next[..], free, k) {
          if k > 0 { assert Leads(was, tail, k - 1); }
        }
      }
      ghost var was := next[..];
      next[capacity] := Null;
      head := Null;
      forall k | 0 <= k < |free| ensures Leads(next[..], free, k) {
        assert Leads(was, free, k);
      }
    }

    method AllocateNode() returns (item: Link)
      requires Valid()
      modifies this`freeHead, next
      ensures item == old(freeHead) == LinkAt(free, 0)
      ensures item == Null ==> next[..] == old(next[..]) && freeHead == old(freeHead)
      ensures item != Null ==>
        item.slot < capacity && next[..] == old(next[..])[item.slot := Null] && freeHead == old(next[item.slot])
    {
      if freeHead == Null {
        return Null;
      }
      item := freeHead;
      assert Leads(next[..], free, 0);
      freeHead := next[item.slot];
      next[item.slot] := Null;
    }

    method ReleaseNode(item: nat)
      requires item < capacity && next.Length == capacity + 1 && values.Length == capacity
      modifies this`freeHead, this`size, next, values
      ensures values[..] == old(values[..])[item := None]
      ensures next[..] == old(next[..])[item := old(freeHead)]
      ensures freeHead == To(item) && size == if old(size) > 0 then old(size) - 1 else 0
    {
      values[item] := None;
      next[item] := freeHead;
      freeHead := To(item);
      if size > 0 {
        size := size - 1;
      }
    }

    method PopFront() returns (status: Status)
      requires Valid()
      modifies this, next, values
      ensures Valid()
      ensures status == if old(live) == [] then Empty else Ok
      ensures live == (if status == Ok then old(live)[1..] else old(live))
      ensures Contents() == if status == Ok then old(Contents())[1..] else old(Contents())
    {
      if head == Null {
        return Empty;
      }
      ghost var s := next[..];
      Deleted(s, values[..], head, freeHead, live, free, 0);
      hide Sound, Elements;
      var item := head.slot;
      head := next[item];
      next[capacity] := head;
      ReleaseNode(item);
      assert next[..] == s[capacity := s[item]][item := old(freeHead)];
      assert DeleteAt(live, 0) == live[1..] && DeleteAt(old(Contents()), 0) == old(Contents())[1..];
      live, free := live[1..], [item] + free;
      status := Ok;
    }

    /** Inserts `x` right after `position`. */
    method EmplaceAfter(position: Link, x: T) returns (status: Status)
      requires Valid() && Iterator(position)
      modifies this, next, values
      ensures Valid()
      ensures status == if position == Null then OutOfRange else if old(size) == capacity then Full else Ok
      ensures status != Ok ==> live == old(live) && Contents() == old(Contents())
      ensures status == Ok ==> old(free) != []
      ensures status == Ok ==>
        var k := PositionAfter(old(live), capacity, position.slot);
        live == InsertAt(old(live), k, old(free)[0]) && Contents() == InsertAt(old(Contents()), k, x)
    {
      if position == Null {
        return OutOfRange;
      }
      ghost var k := PositionAfter(live, capacity, position.slot);
      ghost var s := next[..];
      if free != [] {
        Inserted(s, values[..], head, freeHead, live, free, k, x);
      }
      var item := AllocateNode();
      if item == Null {
        return Full;
      }
      hide Sound, Elements;
      values[item.slot] := Some(x);
      next[item.slot] := next[position.slot];
      next[position.slot] := item;
      if position.slot == capacity {
        head := item;
      }
      size := size + 1;
      assert next[..] == s[item.slot := s[position.slot]][position.slot := item];
      live, free := InsertAt(live, k, item.slot), free[1..];
      status := Ok;
    }

    /** Erases the node after `position`, if there is one, and answers what follows it. */
    method EraseAfter(position: Link) returns (result: Link)
      requires Valid() && Iterator(position)
      modifies this, next, values
      ensures Valid()
      ensures position == Null ==> result == Null && live == old(live) && Contents() == old(Contents())
      ensures position != Null ==>
        var k := PositionAfter(old(live), capacity, position.slot);
        && result == LinkAt(live, k)
        && live == (if k < |old(live)| then DeleteAt(old(live), k) else old(live))
        && Contents() == if k < |old(live)| then DeleteAt(old(Contents()), k) else old(Contents())
    {
      if position == Null {
        return Null;
      }
      ghost var k := PositionAfter(live, capacity, position.slot);
      LinkAfter(k);
      var victim := next[position.slot];
      if victim == Null {
        return Null;
      }
      ghost var s := next[..];
      Deleted(s, values[..], head, freeHead, live, free, k);
      assert Leads(s, live, k);
      next[position.slot] := next[victim.slot];
      if victim == head {
        head := next[victim.slot];
      }
      hide Sound, Elements;
      result := next[victim.slot];
      ReleaseNode(victim.slot);
      assert next[..] == s[position.slot := s[victim.slot]][victim.slot := old(freeHead)];
      live, free := DeleteAt(live, k), [victim.slot] + free;
    }

    /** Removes every element equal to `x`; the others keep their nodes and their order. */
    method Remove(x: T) returns (status: Status)
      requires Valid()
      modifies this, next, values
      ensures Valid() && status == Ok
      ensures live == Survivors(old(values[..]), old(live), x)
      ensures Contents() == Without(old(Contents()), x)
    {
      ghost var was, all := values[..], live;
      ghost var j, k := 0, 0;
      var previous, current := capacity, next[capacity];
      LinkAfter(0);
      SiftStart(was, all, x);
      assert Sifting(was, all, x, j, k, previous, current);
      hide Sifting;
      while current != Null
        invariant Sifting(was, all, x, j, k, previous, current)
        decreases |all| - j
      {
        previous, current, k := SiftNode(was, all, x, j, k, previous, current);
        j := j + 1;
      }
      SiftedAll(was, all, x, j, k, previous, current);
      status := Ok;
    }

    /** The state of the removal loop: `j` of the nodes `all` dealt with, `k` of them kept. */
    ghost predicate Sifting(was: seq<Option<T>>, all: seq<nat>, x: T, j: nat, k: nat, previous: nat, current: Link)
      reads this, next, values
    {
      && Valid() && Unchanged(was, values[..], live) && Sifted(was, all, x, live, j, k)
      && k <= |live| && previous == Prior(live, capacity, k) && current == LinkAt(live, k)
    }

    lemma SiftedAll(was: seq<Option<T>>, all: seq<nat>, x: T, j: nat, k: nat, previous: nat, current: Link)
      requires Sifting(was, all, x, j, k, previous, current) && current == Null
      ensures Valid() && live == Survivors(was, all, x) && Filled(was, all, [])
      ensures Contents() == Without(Elements(was, all), x)
    {
      SiftEnd(was, all, x, live, values[..], j, k);
    }

    /** One turn of the removal loop. */
    method SiftNode(ghost was: seq<Option<T>>, ghost all: seq<nat>, x: T, ghost j: nat, ghost k: nat, previous: nat,
            current: Link)
      returns (previous': nat, current': Link, ghost k': nat)
      requires current.To? && Sifting(was, all, x, j, k, previous, current)
      modifies this, next, values
      ensures j < |all| && Sifting(was, all, x, j + 1, k', previous', current')
    {
      hide Valid, Sound, Elements, Survivors, Sifted, Unchanged, Prior, DeleteAt;
      var item := current.slot;
      SiftStep(was, all, x, live, j, k);
      NodeAt(k);
      UnchangedAt(was, values[..], live, k);
      previous', current', k' := previous, next[item], k;
      if values[item] == Some(x) {
        ghost var mid, nodes := values[..], live;
        UnlinkNode(previous, item, k);
        UnchangedThrough(was, mid, values[..], nodes, k);
      } else {
        previous', k' := item, k + 1;
      }
    }

    /** The body of the removal loop for a matching node, which sits at position `k`. */
    method UnlinkNode(previous: nat, item: nat, ghost k: nat)
      requires Valid() && k < |live| && item == live[k] && previous == Prior(live, capacity, k)
      modifies this, next, values
      ensures Valid() && live == DeleteAt(old(live), k) && Unchanged(old(values[..]), values[..], live)
      ensures |live| == |old(live)| - 1 && Prior(live, capacity, k) == previous
      ensures LinkAt(live, k) == LinkAt(old(live), k + 1)
    {
      ghost var s := next[..];
      Deleted(s, values[..], head, freeHead, live, free, k);
      hide Sound, Elements;
      next[previous] := next[item];
      if head == To(item) {
        head := next[item];
      }
      ReleaseNode(item);
      assert next[..] == s[previous := s[item]][item := old(freeHead)];
      live, free := DeleteAt(live, k), [item] + free;
    }

    /** Reverses the list in place: the nodes stay where they are, only the links turn. */
    method Reverse()
      requires Valid()
      modifies this, next
      ensures Valid() && live == Backwards(old(live)) && Contents() == Backwards(old(Contents()))
    {
      ghost var s, k := next[..], 0;
      var previous, current := Null, head;
      while current != Null
        invariant k <= |live| && Turned(s, next[..], live, k)
        invariant previous == LinkAt(live, k - 1) && current == LinkAt(live, k)
        invariant live == old(live) && free == old(free) && head == old(head) && freeHead == old(freeHead)
        invariant size == old(size)
        decreases |live| - k
      {
        TurnNext(s, next[..], live, k);
        var following := next[current.slot];
        next[current.slot] := previous;
        previous, current := current, following;
        k := k + 1;
      }
      AllTurned(s, next[..], values[..], head, freeHead, live, free);
      hide Sound, Elements;
      ghost var turned := next[..];
      head := previous;
      next[capacity] := head;
      assert next[..] == turned[capacity := previous];
      live := Backwards(live);
    }

    method Clear()
      requires Valid()
      modifies this, next, values
      ensures Valid() && Contents() == [] && |free| == capacity
    {
      ghost var rest := live;
      var current := head;
      assert next[..][capacity := current] == next[..];
      while current != Null
        invariant next.Length == capacity + 1 && values.Length == capacity
        invariant Sound(next[..][capacity := current], values[..], current, freeHead, size, rest, free)
        decreases |rest|
      {
        var item := current.slot;
        ghost var s := next[..][capacity := current];
        Deleted(s, values[..], current, freeHead, rest, free, 0);
        current := next[item];
        ghost var freeWas := freeHead;
        ReleaseNode(item);
        assert next[..][capacity := current] == s[capacity := s[item]][item := freeWas];
        assert DeleteAt(rest, 0) == rest[1..];
        rest, free := rest[1..], [item] + free;
      }
      head := Null;
      next[capacity] := Null;
      live := [];
      assert next[..][capacity := Null] == next[..];
    }

    /** The first node whose element equals `x`, or the end. */
    method Find(x: T) returns (position: Link)
      requires Valid()
      ensures position == Null ==> x !in Contents()
      ensures position != Null ==> position.slot in live
      ensures position != Null ==> var k := Rank(live, position.slot); Contents()[k] == x && x !in Contents()[..k]
    {
      position := head;
      ghost var k := 0;
      while position != Null
        invariant k <= |live| && position == LinkAt(live, k) && x !in Contents()[..k]
        decreases |live| - k
      {
        assert Leads(next[..], live, k);
        if values[position.slot] == Some(x) {
          RankOfElement(live, k);
          return;
        }
        position := next[position.slot];
        k := k + 1;
      }
    }

    /** A list filled from `source`, as far as the pool reaches. */
    constructor FromList(n: nat, source: seq<T>)
      requires n > 0
      ensures Valid() && fresh(next) && fresh(values) && capacity == n
      ensures Contents() == source[..if |source| < n then |source| else n]
    {
      capacity := n;
      next := new Link[n + 1](_ => Null);
      values := new Option<T>[n](_ => None);
      head, freeHead, size, live, free := Null, Null, 0, [], [];
      new;
      InitialisePool();
      var tail := To(capacity);
      var i := 0;
      while i < |source|
        invariant Valid() && size == i <= |source| && Contents() == source[..i]
        invariant tail == To(Prior(live, capacity, i))
      {
        if size == capacity {
          break;
        }
        PriorPosition(live, capacity, i);
        var _ := EmplaceAfter(tail, source[i]);
        LinkAfter(i);
        tail := next[tail.slot];
        i := i + 1;
      }
    }
  }
}
