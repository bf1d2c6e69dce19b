/** Key order along the tree, the abstract contents, and the invariant of the whole container. */
module AvlKeys {
  import opened Basics
  import opened PoolLinks
  import opened AvlShape
  import opened AvlPool
  import BoundedMap

  ghost predicate Live<K, V>(s: seq<Cell<K, V>>, i: nat) {
    i < |s| && s[i].entry.Some?
  }

  function KeyOf<K, V>(s: seq<Cell<K, V>>, i: nat): K
    requires i < |s| && s[i].entry.Some?
  {
    s[i].entry.value.0
  }

  ghost predicate KeyLess<K, V>(s: seq<Cell<K, V>>, less: (K, K) -> bool, i: nat, j: nat) {
    Live(s, i) && Live(s, j) && less(KeyOf(s, i), KeyOf(s, j))
  }

  /** The keys of the slots in `q` strictly increase. */
  ghost predicate Ascending<K, V>(s: seq<Cell<K, V>>, less: (K, K) -> bool, q: seq<nat>) {
    forall i, j :: 0 <= i < j < |q| ==> KeyLess(s, less, q[i], q[j])
  }

  function SameKey<K>(less: (K, K) -> bool): (K, K) -> bool {
    (x, y) => Equivalent(less, x, y)
  }

  // ----- sequences of slots -----

  lemma {:induction false} AscendingParts<K, V>(s: seq<Cell<K, V>>, less: (K, K) -> bool, a: seq<nat>, b: seq<nat>)
    requires Ascending(s, less, a + b)
    ensures Ascending(s, less, a) && Ascending(s, less, b)
    ensures forall x, y :: x in a && y in b ==> KeyLess(s, less, x, y)
  {
    var q := a + b;
    forall i, j | 0 <= i < j < |a| ensures KeyLess(s, less, a[i], a[j]) { assert q[i] == a[i] && q[j] == a[j]; }
    forall i, j | 0 <= i < j < |b| ensures KeyLess(s, less, b[i], b[j]) {
      assert q[|a| + i] == b[i] && q[|a| + j] == b[j];
    }
    forall x, y | x in a && y in b ensures KeyLess(s, less, x, y) {
      var i :| 0 <= i < |a| && a[i] == x;
      var j :| 0 <= j < |b| && b[j] == y;
      assert q[i] == x && q[|a| + j] == y;
    }
  }

  lemma {:induction false} AscendingJoin<K, V>(s: seq<Cell<K, V>>, less: (K, K) -> bool, a: seq<nat>, b: seq<nat>)
    requires Ascending(s, less, a) && Ascending(s, less, b)
    requires forall x, y :: x in a && y in b ==> KeyLess(s, less, x, y)
    ensures Ascending(s, less, a + b)
  {
    var q := a + b;
    forall i, j | 0 <= i < j < |q| ensures KeyLess(s, less, q[i], q[j]) {
      if j < |a| { assert q[i] == a[i] && q[j] == a[j]; }
      else if |a| <= i { assert q[i] == b[i - |a|] && q[j] == b[j - |a|]; }
      else { assert q[i] in a && q[j] in b; }
    }
  }

  lemma {:induction false} AscendingFrame<K, V>(s: seq<Cell<K, V>>, s': seq<Cell<K, V>>, less: (K, K) -> bool,
          q: seq<nat>)
    requires Ascending(s, less, q) && |s'| == |s|
    requires forall i :: i in q && i < |s| ==> s'[i].entry == s[i].entry
    ensures Ascending(s', less, q)
  {
    forall i, j | 0 <= i < j < |q| ensures KeyLess(s', less, q[i], q[j]) {
      assert KeyLess(s, less, q[i], q[j]);
      assert q[i] in q && q[j] in q;
    }
  }

  // ----- descending from the root -----

  ghost predicate KeyBelow<K, V>(s: seq<Cell<K, V>>, less: (K, K) -> bool, i: nat, key: K) {
    Live(s, i) && less(KeyOf(s, i), key)
  }

  ghost predicate KeyAbove<K, V>(s: seq<Cell<K, V>>, less: (K, K) -> bool, i: nat, key: K) {
    Live(s, i) && less(key, KeyOf(s, i))
  }

  /** `key` belongs into the hole of `c`. */
  ghost predicate Brackets<K, V>(s: seq<Cell<K, V>>, less: (K, K) -> bool, key: K, c: Context) {
    && (forall i :: i in Before(c) ==> KeyBelow(s, less, i, key))
    && (forall i :: i in After(c) ==> KeyAbove(s, less, i, key))
  }

  /** In an ascending tree the keys around a node are on the right sides of it. */
  lemma {:induction false} AroundNode<K, V>(s: seq<Cell<K, V>>, less: (K, K) -> bool, c: Context, l: Tree, i: nat,
          r: Tree)
    requires Ascending(s, less, Inorder(Plug(c, Branch(l, i, r))))
    ensures forall x :: x in Before(c) + Inorder(l) ==> KeyLess(s, less, x, i)
    ensures forall x :: x in Inorder(r) + After(c) ==> KeyLess(s, less, i, x)
  {
    var (a, b) := (Before(c) + Inorder(l), Inorder(r) + After(c));
    EraseOrder(c, l, i, r);
    hide Inorder, Plug, Before, After, Ascending;
    AscendingParts(s, less, a + [i], b);
    AscendingParts(s, less, a, [i]);
    assert i in [i] && i in a + [i];
  }

  lemma {:induction false} DescendLeft<K(!new), V>(s: seq<Cell<K, V>>, less: (K, K) -> bool, key: K, c: Context,
          t: Tree)
    requires StrictWeakOrder(less) && t.Branch? && Ascending(s, less, Inorder(Plug(c, t)))
    requires Brackets(s, less, key, c) && KeyAbove(s, less, t.slot, key)
    ensures Brackets(s, less, key, Under(true, t.slot, t.right, c))
  {
    AroundNode(s, less, c, t.left, t.slot, t.right);
    forall x | x in After(Under(true, t.slot, t.right, c)) ensures KeyAbove(s, less, x, key) {
      assert x == t.slot || x in Inorder(t.right) + After(c);
      if x != t.slot { assert KeyLess(s, less, t.slot, x); }
    }
  }

  lemma {:induction false} DescendRight<K(!new), V>(s: seq<Cell<K, V>>, less: (K, K) -> bool, key: K, c: Context,
          t: Tree)
    requires StrictWeakOrder(less) && t.Branch? && Ascending(s, less, Inorder(Plug(c, t)))
    requires Brackets(s, less, key, c) && KeyBelow(s, less, t.slot, key)
    ensures Brackets(s, less, key, Under(false, t.slot, t.left, c))
  {
    AroundNode(s, less, c, t.left, t.slot, t.right);
    forall x | x in Before(Under(false, t.slot, t.left, c)) ensures KeyBelow(s, less, x, key) {
      assert x == t.slot || x in Before(c) + Inorder(t.left);
      if x != t.slot { assert KeyLess(s, less, x, t.slot); }
    }
  }

  // ----- abstract contents -----

  /** The entries in the slots `w` are exactly those of `m`. */
  ghost predicate Mirrors<K, V>(s: seq<Cell<K, V>>, w: set<nat>, m: map<K, V>) {
    && (forall i :: i in w ==> Live(s, i) && KeyOf(s, i) in m && m[KeyOf(s, i)] == s[i].entry.value.1)
    && (forall k :: k in m ==> exists i :: i in w && Live(s, i) && KeyOf(s, i) == k)
  }

  /** No two slots of an ascending tree hold equivalent keys. */
  lemma {:induction false} KeysDiffer<K(!new), V>(s: seq<Cell<K, V>>, less: (K, K) -> bool, t: Tree, i: nat, j: nat)
    requires StrictWeakOrder(less) && Ascending(s, less, Inorder(t))
    requires i in Slots(t) && j in Slots(t) && Live(s, i) && Live(s, j) && i != j
    ensures !Equivalent(less, KeyOf(s, i), KeyOf(s, j))
  {
    InorderSlots(t);
    var q := Inorder(t);
    var x :| 0 <= x < |q| && q[x] == i;
    var y :| 0 <= y < |q| && q[y] == j;
    assert if x < y then KeyLess(s, less, q[x], q[y]) else KeyLess(s, less, q[y], q[x]);
  }

  lemma {:induction false} AbsentAtLeaf<K(!new), V>(s: seq<Cell<K, V>>, less: (K, K) -> bool, key: K, c: Context,
          m: map<K, V>)
    requires StrictWeakOrder(less) && Brackets(s, less, key, c) && Mirrors(s, Slots(Plug(c, Leaf)), m)
    ensures !BoundedMap.Present(SameKey(less), m, key)
    ensures key !in m
  {
    if key in m { assert SameKey(less)(key, key); }
    InorderSlots(Plug(c, Leaf));
    PlugInorder(c, Leaf);
    forall k | k in m ensures !SameKey(less)(k, key) {
      var i :| i in Slots(Plug(c, Leaf)) && Live(s, i) && KeyOf(s, i) == k;
      assert i in Before(c) + Inorder(Leaf) + After(c);
      assert KeyBelow(s, less, i, key) || KeyAbove(s, less, i, key);
    }
  }

  lemma {:induction false} PresentAtNode<K(!new), V>(s: seq<Cell<K, V>>, less: (K, K) -> bool, key: K, w: set<nat>,
          i: nat, m: map<K, V>)
    requires Mirrors(s, w, m) && i in w && Live(s, i) && Equivalent(less, KeyOf(s, i), key)
    ensures BoundedMap.Present(SameKey(less), m, key)
  {
    assert SameKey(less)(KeyOf(s, i), key);
  }

  // ----- the container invariant -----

  ghost predicate Sound<K(!new), V>(s: seq<Cell<K, V>>, less: (K, K) -> bool, root: Link, freeHead: Link, size: nat,
          tree: Tree, free: seq<nat>, m: map<K, V>) {
    && TreeSound(s, root, size, tree)
    && Ascending(s, less, Inorder(tree))
    && Holds(s, tree, m)
    && PoolSound(s, tree, free, freeHead)
  }

  /** The links form `tree`, balanced and with exact heights. */
  ghost predicate TreeSound<K, V>(s: seq<Cell<K, V>>, root: Link, size: nat, tree: Tree) {
    Focused(s, root, Slots(tree), Top, tree) && Balanced(tree) && size == Size(tree)
  }

  /** The entries of `tree` are exactly those of `m`. */
  ghost predicate Holds<K, V>(s: seq<Cell<K, V>>, tree: Tree, m: map<K, V>) {
    Mirrors(s, Slots(tree), m) && |m| == Size(tree)
  }

  /** The other slots are on the free list. */
  ghost predicate PoolSound<K, V>(s: seq<Cell<K, V>>, tree: Tree, free: seq<nat>, freeHead: Link) {
    FreeList(s, free, freeHead) && Partitions(|s|, Slots(tree), free) && Size(tree) + |free| == |s|
  }

  /** Every slot is in the tree or on the free list, never both. */
  ghost predicate Partitions(n: nat, w: set<nat>, free: seq<nat>) {
    && (forall i :: 0 <= i < n ==> (i in w <==> i !in free))
    && (forall i :: i in w ==> i < n)
  }

  /** Linking a fresh slot into the hole where its key belongs keeps the keys ascending. */
  lemma {:induction false} AscendingInsert<K, V>(s: seq<Cell<K, V>>, s': seq<Cell<K, V>>, less: (K, K) -> bool, key: K,
          c: Context, item: nat)
    requires Ascending(s, less, Before(c) + After(c)) && Brackets(s, less, key, c)
    requires |s'| == |s| && Live(s', item) && KeyOf(s', item) == key
    requires forall i :: i in Before(c) + After(c) && i < |s| ==> s'[i].entry == s[i].entry
    ensures Ascending(s', less, Before(c) + [item] + After(c))
  {
    var (a, b) := (Before(c), After(c));
    AscendingFrame(s, s', less, a + b);
    AscendingParts(s', less, a, b);
    forall x | x in a ensures KeyLess(s', less, x, item) { assert x in a + b && KeyBelow(s, less, x, key); }
    forall x | x in b ensures KeyLess(s', less, item, x) { assert x in a + b && KeyAbove(s, less, x, key); }
    AscendingJoin(s', less, a, [item]);
    forall x, y | x in a + [item] && y in b ensures KeyLess(s', less, x, y) { assert x in a || x == item; }
    AscendingJoin(s', less, a + [item], b);
  }

  lemma {:induction false} MirrorsInsert<K, V>(s: seq<Cell<K, V>>, s': seq<Cell<K, V>>, w: set<nat>, m: map<K, V>,
          item: nat, key: K, value: V)
    requires Mirrors(s, w, m) && key !in m && item !in w && item < |s| == |s'|
    requires s'[item].entry == Some((key, value))
    requires forall i :: i in w && i < |s| ==> s'[i].entry == s[i].entry
    ensures Mirrors(s', w + {item}, m[key := value])
  {
    var m' := m[key := value];
    forall k | k in m' ensures exists i :: i in w + {item} && Live(s', i) && KeyOf(s', i) == k {
      if k == key {
        assert Live(s', item) && KeyOf(s', item) == k;
      } else {
        var i :| i in w && Live(s, i) && KeyOf(s, i) == k;
        assert Live(s', i) && KeyOf(s', i) == k;
      }
    }
  }

  lemma {:induction false} FreePop<K, V>(s: seq<Cell<K, V>>, s': seq<Cell<K, V>>, free: seq<nat>, head: Link)
    requires FreeList(s, free, head) && free != [] && |s'| == |s|
    requires forall i :: i in free[1..] && i < |s| ==> s'[i] == s[i]
    ensures FreeList(s', free[1..], LinkAt(free, 1))
  {
    var rest := free[1..];
    forall k | 0 <= k < |rest| ensures rest[k] < |s| && s'[rest[k]].left == LinkAt(rest, k + 1) {
      assert rest[k] == free[k + 1] && rest[k] in rest;
    }
    forall j, k | 0 <= j < k < |rest| ensures rest[j] != rest[k] {
      assert rest[j] == free[j + 1] && rest[k] == free[k + 1];
    }
  }

  lemma {:induction false} PartitionPop(n: nat, w: set<nat>, free: seq<nat>)
    requires Partitions(n, w, free) && free != [] && free[0] < n
    requires forall j, k :: 0 <= j < k < |free| ==> free[j] != free[k]
    ensures Partitions(n, w + {free[0]}, free[1..])
    ensures free[0] !in w
  {
    assert free[0] in free;
    assert free == [free[0]] + free[1..];
    assert free[0] !in free[1..];
  }

  /** The empty tree with every slot on the free list satisfies the invariant. */
  lemma {:induction false} SoundEmpty<K(!new), V>(s: seq<Cell<K, V>>, less: (K, K) -> bool, head: Link, free: seq<nat>)
    requires free == seq(|s|, k => k) && FreeList(s, free, head)
    ensures Sound(s, less, Null, head, 0, Leaf, free, map[])
  {
    forall i | 0 <= i < |s| ensures i in free { assert free[i] == i; }
  }

  /** Linking a fresh slot into the hole where its key belongs: keys, contents and pool. */
  lemma {:induction false} InsertAscending<K, V>(s: seq<Cell<K, V>>, s': seq<Cell<K, V>>, less: (K, K) -> bool, key: K,
          c: Context, item: nat, tree': Tree)
    requires Ascending(s, less, Inorder(Plug(c, Leaf))) && Brackets(s, less, key, c)
    requires |s'| == |s| && Live(s', item) && KeyOf(s', item) == key && item !in CSlots(c)
    requires forall i :: 0 <= i < |s| && i != item ==> s'[i].entry == s[i].entry
    requires Inorder(tree') == Before(c) + [item] + After(c)
    ensures Ascending(s', less, Inorder(tree'))
  {
    PlugLeaf(c);
    ContextOrder(c);
    AscendingInsert(s, s', less, key, c, item);
  }

  lemma {:induction false} InsertHolds<K, V>(s: seq<Cell<K, V>>, s': seq<Cell<K, V>>, c: Context, item: nat,
          tree': Tree, m: map<K, V>, key: K, value: V)
    requires Holds(s, Plug(c, Leaf), m) && key !in m
    requires item < |s| == |s'| && item !in CSlots(c) && s'[item].entry == Some((key, value))
    requires forall i :: 0 <= i < |s| && i != item ==> s'[i].entry == s[i].entry
    requires Slots(tree') == CSlots(c) + {item} && Size(tree') == CSize(c) + 1
    ensures Holds(s', tree', m[key := value])
  {
    PlugLeaf(c);
    MirrorsInsert(s, s', CSlots(c), m, item, key, value);
  }

  lemma {:induction false} InsertPool<K, V>(s: seq<Cell<K, V>>, s': seq<Cell<K, V>>, c: Context, tree': Tree,
          free: seq<nat>, head: Link)
    requires PoolSound(s, Plug(c, Leaf), free, head) && free != [] && |s'| == |s|
    requires forall i :: 0 <= i < |s| && i !in CSlots(c) + {free[0]} ==> s'[i] == s[i]
    requires Slots(tree') == CSlots(c) + {free[0]} && Size(tree') == CSize(c) + 1
    ensures PoolSound(s', tree', free[1..], LinkAt(free, 1))
  {
    PlugLeaf(c);
    PartitionPop(|s|, CSlots(c), free);
    FreePop(s, s', free, head);
  }

  // ----- removal -----

  /** A sound tree is balanced, and none of its stored heights is near the limit of the cast. */
  lemma {:induction false} TreeParts<K, V>(s: seq<Cell<K, V>>, root: Link, size: nat, tree: Tree)
    requires TreeSound(s, root, size, tree) && size < SIZE_LIMIT
    ensures Balanced(tree) && LowHeights(s, Slots(tree)) && size == Size(tree)
  {
    RepHeights(s, tree, Null);
    HeightBound(tree);
  }

  /** The cell of `item` is `released`; no other entry changed, and no cell outside `w` did. */
  ghost predicate Released<K, V>(s: seq<Cell<K, V>>, s': seq<Cell<K, V>>, w: set<nat>, item: nat, released: Cell<K, V>)
    {
    && |s'| == |s| && item in w && item < |s| && s'[item] == released
    && (forall i :: 0 <= i < |s| && i != item ==> s'[i].entry == s[i].entry)
    && (forall i :: 0 <= i < |s| && i !in w ==> s'[i] == s[i])
  }

  lemma {:induction false} ReleasedCell<K, V>(s: seq<Cell<K, V>>, s1: seq<Cell<K, V>>, w: set<nat>, item: nat,
          released: Cell<K, V>)
    requires OnlyLinks(s, s1, w) && item < |s| && item in w
    ensures Released(s, s1[item := released], w, item, released)
  {
  }

  lemma {:induction false} ReleasedThrough<K, V>(s: seq<Cell<K, V>>, s1: seq<Cell<K, V>>, s2: seq<Cell<K, V>>,
          w: set<nat>, w': set<nat>, item: nat, released: Cell<K, V>)
    requires Released(s, s1, w, item, released) && OnlyLinks(s1, s2, w') && w' == w - {item}
    ensures Released(s, s2, w, item, released)
  {
  }

  /** Dropping one slot: keys, contents and pool. */
  lemma {:induction false} EraseAscending<K, V>(s: seq<Cell<K, V>>, s': seq<Cell<K, V>>, less: (K, K) -> bool,
          a: seq<nat>, item: nat, b: seq<nat>, w: set<nat>, released: Cell<K, V>)
    requires Ascending(s, less, a + [item] + b) && Released(s, s', w, item, released) && item !in a && item !in b
    ensures Ascending(s', less, a + b)
  {
    AscendingParts(s, less, a + [item], b);
    AscendingParts(s, less, a, [item]);
    forall x, y | x in a && y in b ensures KeyLess(s, less, x, y) { assert x in a + [item]; }
    AscendingJoin(s, less, a, b);
    AscendingFrame(s, s', less, a + b);
  }

  lemma {:induction false} EraseMirrors<K(!new), V>(s: seq<Cell<K, V>>, s': seq<Cell<K, V>>, less: (K, K) -> bool,
          tree: Tree, m: map<K, V>, item: nat, released: Cell<K, V>)
    requires StrictWeakOrder(less) && Ascending(s, less, Inorder(tree))
    requires Mirrors(s, Slots(tree), m) && Live(s, item) && Released(s, s', Slots(tree), item, released)
    ensures Mirrors(s', Slots(tree) - {item}, m - {KeyOf(s, item)})
    ensures forall k :: k in m && k != KeyOf(s, item) ==> !SameKey(less)(k, KeyOf(s, item))
    ensures KeyOf(s, item) in m
  {
    var w, m' := Slots(tree) - {item}, m - {KeyOf(s, item)};
    forall i | i in w ensures Live(s', i) && KeyOf(s', i) in m' && m'[KeyOf(s', i)] == s'[i].entry.value.1 {
      KeysDiffer(s, less, tree, i, item);
    }
    forall k | k in m && k != KeyOf(s, item)
      ensures !SameKey(less)(k, KeyOf(s, item)) && exists i :: i in w && Live(s', i) && KeyOf(s', i) == k
    {
      var i :| i in Slots(tree) && Live(s, i) && KeyOf(s, i) == k;
      KeysDiffer(s, less, tree, i, item);
      assert Live(s', i) && KeyOf(s', i) == k;
    }
  }

  lemma {:induction false} FreePush<K, V>(s: seq<Cell<K, V>>, s': seq<Cell<K, V>>, free: seq<nat>, head: Link,
          item: nat)
    requires FreeList(s, free, head) && |s'| == |s| && item < |s| && item !in free
    requires s'[item].left == head
    requires forall i :: i in free && i < |s| ==> s'[i] == s[i]
    ensures FreeList(s', [item] + free, To(item))
  {
    var more := [item] + free;
    forall k | 0 <= k < |more| ensures more[k] < |s| && s'[more[k]].left == LinkAt(more, k + 1) {
      if k > 0 { assert more[k] == free[k - 1] && free[k - 1] in free; }
    }
  }

  lemma {:induction false} ErasePool<K, V>(s: seq<Cell<K, V>>, s': seq<Cell<K, V>>, tree: Tree, tree': Tree,
          free: seq<nat>, head: Link, item: nat, released: Cell<K, V>)
    requires PoolSound(s, tree, free, head) && Released(s, s', Slots(tree), item, released) && released.left == head
    requires Slots(tree') == Slots(tree) - {item} && Size(tree') == Size(tree) - 1
    ensures PoolSound(s', tree', [item] + free, To(item))
  {
    FreePush(s, s', free, head, item);
  }

  /** What the old tree says about the slots around `item`. */
  lemma {:induction false} ErasedApart<K, V>(s: seq<Cell<K, V>>, root: Link, w: set<nat>, c: Context, l: Tree,
          item: nat, r: Tree)
    requires Focused(s, root, w, c, Branch(l, item, r))
    ensures item !in CSlots(c) + Slots(l) + Slots(r)
    ensures item !in Before(c) + Inorder(l) && item !in Inorder(r) + After(c)
    ensures Live(s, item)
  {
    ContextOrder(c);
    InorderSlots(l);
    InorderSlots(r);
  }

  lemma {:induction false} EraseShape(c: Context, l: Tree, item: nat, r: Tree, c': Context, t': Tree)
    requires item !in CSlots(c) + Slots(l) + Slots(r) && Dropped(c, l, r, c', t')
    ensures var tree := Plug(c, Branch(l, item, r));
      && CSlots(c') + Slots(t') == Slots(tree) - {item}
      && CSize(c') + Size(t') == Size(tree) - 1 && item in Slots(tree)
      && Before(c') + Inorder(t') + After(c') == (Before(c) + Inorder(l)) + (Inorder(r) + After(c))
  {
    PlugSlots(c, Branch(l, item, r));
  }

  lemma {:induction false} EraseOrder(c: Context, l: Tree, item: nat, r: Tree)
    ensures Inorder(Plug(c, Branch(l, item, r))) == (Before(c) + Inorder(l)) + [item] + (Inorder(r) + After(c))
  {
    PlugInorder(c, Branch(l, item, r));
    var (x, y, z, u) := (Before(c), Inorder(l), Inorder(r), After(c));
    assert x + (y + [item] + z) + u == (x + y) + [item] + (z + u);
  }

  /** The effect of an erasure on the keys, the contents and the pool, once the links form `tree'`. */
  lemma {:induction false} EraseSound<K(!new), V>(s: seq<Cell<K, V>>, s': seq<Cell<K, V>>, less: (K, K) -> bool,
          tree: Tree, tree': Tree, free: seq<nat>, head: Link, m: map<K, V>, a: seq<nat>, item: nat, b: seq<nat>)
    requires StrictWeakOrder(less) && Ascending(s, less, Inorder(tree)) && Holds(s, tree, m)
    requires PoolSound(s, tree, free, head)
    requires Inorder(tree) == a + [item] + b && Inorder(tree') == a + b && item !in a && item !in b
    requires Live(s, item) && Slots(tree') == Slots(tree) - {item}
    requires Released(s, s', Slots(tree), item, Cell(head, Null, Null, 0, None))
    ensures Ascending(s', less, Inorder(tree')) && Holds(s', tree', m - {KeyOf(s, item)})
    ensures PoolSound(s', tree', [item] + free, To(item)) && Unmoved(s, s', Slots(tree'))
    ensures forall k :: k in m && k != KeyOf(s, item) ==> !SameKey(less)(k, KeyOf(s, item))
  {
    hide *;
    var released := Cell(head, Null, Null, 0, None);
    InorderSlots(tree);
    InorderSlots(tree');
    EraseAscending(s, s', less, a, item, b, Slots(tree), released);
    EraseHolds(s, s', less, tree, tree', m, item, released);
    ErasePool(s, s', tree, tree', free, head, item, released);
  }

  lemma {:induction false} EraseHolds<K(!new), V>(s: seq<Cell<K, V>>, s': seq<Cell<K, V>>, less: (K, K) -> bool,
          tree: Tree, tree': Tree, m: map<K, V>, item: nat, released: Cell<K, V>)
    requires StrictWeakOrder(less) && Ascending(s, less, Inorder(tree)) && Holds(s, tree, m)
    requires Live(s, item) && Released(s, s', Slots(tree), item, released)
    requires Slots(tree') == Slots(tree) - {item} && Size(tree') == Size(tree) - 1
    ensures Holds(s', tree', m - {KeyOf(s, item)}) && Unmoved(s, s', Slots(tree'))
    ensures forall k :: k in m && k != KeyOf(s, item) ==> !SameKey(less)(k, KeyOf(s, item))
  {
    assert Unmoved(s, s', Slots(tree'));
    hide StrictWeakOrder, Ascending, Mirrors, Unmoved, Released;
    EraseMirrors(s, s', less, tree, m, item, released);
  }

  /** The effect of an insertion, likewise. */
  lemma {:induction false} InsertSound<K, V>(s: seq<Cell<K, V>>, s': seq<Cell<K, V>>, less: (K, K) -> bool, c: Context,
          tree': Tree, free: seq<nat>, head: Link, m: map<K, V>, key: K, value: V, item: nat)
    requires Ascending(s, less, Inorder(Plug(c, Leaf))) && Holds(s, Plug(c, Leaf), m)
    requires PoolSound(s, Plug(c, Leaf), free, head)
    requires Brackets(s, less, key, c) && key !in m && free != [] && item == free[0]
    requires item !in CSlots(c) && item < |s| == |s'| && s'[item].entry == Some((key, value))
    requires Inorder(tree') == Before(c) + [item] + After(c) && Slots(tree') == CSlots(c) + {item}
    requires Size(tree') == CSize(c) + 1
    requires forall i :: 0 <= i < |s| && i != item ==> s'[i].entry == s[i].entry
    requires forall i :: 0 <= i < |s| && i !in CSlots(c) + {item} ==> s'[i] == s[i]
    ensures Ascending(s', less, Inorder(tree')) && Holds(s', tree', m[key := value])
    ensures PoolSound(s', tree', free[1..], LinkAt(free, 1)) && Unmoved(s, s', Slots(Plug(c, Leaf)))
  {
    PlugLeaf(c);
    assert Unmoved(s, s', CSlots(c));
    hide Ascending, Mirrors, FreeList, Partitions, Unmoved, Brackets;
    InsertAscending(s, s', less, key, c, item, tree');
    InsertHolds(s, s', c, item, tree', m, key, value);
    InsertPool(s, s', c, tree', free, head);
  }

  /** No two keys of the map that the tree holds are equivalent. */
  lemma {:induction false} OneNodeEach<K(!new), V>(s: seq<Cell<K, V>>, less: (K, K) -> bool, t: Tree, m: map<K, V>)
    requires StrictWeakOrder(less) && Ascending(s, less, Inorder(t)) && Mirrors(s, Slots(t), m)
    ensures BoundedMap.OneOfEach(SameKey(less), m)
  {
    forall k, k' | k in m && k' in m && SameKey(less)(k, k') ensures k == k' {
      var i :| i in Slots(t) && Live(s, i) && KeyOf(s, i) == k;
      var j :| j in Slots(t) && Live(s, j) && KeyOf(s, j) == k';
      if i != j {
        KeysDiffer(s, less, t, i, j);
      }
    }
  }

  lemma {:induction false} SameKeyIsEquivalence<K(!new)>(less: (K, K) -> bool)
    requires StrictWeakOrder(less)
    ensures BoundedMap.EquivalenceRelation(SameKey(less))
  {
    var same := SameKey(less);
    forall x, y, z | same(x, y) && same(y, z) ensures same(x, z) {
      assert Equivalent(less, x, y) && Equivalent(less, y, z);
    }
  }
}
