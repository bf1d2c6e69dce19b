/** The fixed-capacity AVL tree: a pool of cells relinked in place, and the free list inside it. */
module AvlContainer {
  import opened Arithmetic
  import opened Basics
  import opened PoolLinks
  import opened AvlShape
  import opened AvlPool
  import opened AvlKeys
  import opened AvlWalk
  import BoundedMap

  class AvlTree<K(!new), V> {
    const less: (K, K) -> bool
    const nodes: array<Cell<K, V>>
    var root: Link
    var freeHead: Link
    var size: nat

    ghost var tree: Tree        // the shape the links form
    ghost var free: seq<nat>    // the slots on the free list, head first
    ghost var contents: map<K, V>

    ghost predicate Valid()
      reads this, nodes
    {
      && 0 < nodes.Length < SIZE_LIMIT
      && StrictWeakOrder(less)
      && Sound(nodes[..], less, root, freeHead, size, tree, free, contents)
    }

    // ----- construction and the node pool -----

    constructor (capacity: nat, less: (K, K) -> bool)
      requires 0 < capacity < SIZE_LIMIT && StrictWeakOrder(less)
      ensures Valid() && fresh(nodes) && nodes.Length == capacity && this.less == less
      ensures contents == map[] && tree == Leaf
    {
      this.less := less;
      nodes := new Cell<K, V>[capacity](_ => Cell(Null, Null, Null, 1, None));
      root, freeHead, size := Null, Null, 0;
      tree, contents := Leaf, map[];
      new;
      InitialisePool();
      SoundEmpty(nodes[..], less, freeHead, free);
    }

    /** Threads every slot onto the free list, in address order. */
    method InitialisePool()
      modifies this`freeHead, this`free, nodes
      ensures free == seq(nodes.Length, k => k) && FreeList(nodes[..], free, freeHead)
      ensures forall i :: 0 <= i < nodes.Length ==> nodes[i].entry.None?
    {
      freeHead := Null;
      var i := nodes.Length;
      while i > 0
        invariant 0 <= i <= nodes.Length
        invariant freeHead == if i < nodes.Length then To(i) else Null
        invariant forall j :: i <= j < nodes.Length ==>
          nodes[j] == Cell(if j + 1 < nodes.Length then To(j + 1) else Null, Null, Null, 0, None)
      {
        i := i - 1;
        nodes[i] := Cell(freeHead, Null, Null, 0, None);
        freeHead := To(i);
      }
      free := seq(nodes.Length, k => k);
    }

    method AllocateNode() returns (result: Link)
      requires FreeList(nodes[..], free, freeHead)
      modifies this`freeHead, nodes
      ensures result == LinkAt(free, 0)
      ensures result == Null ==> freeHead == old(freeHead) && nodes[..] == old(nodes[..])
      ensures result.To? ==> freeHead == LinkAt(free, 1)
      ensures result.To? ==>
        nodes[..] == old(nodes[..])[result.slot := Cell(Null, Null, Null, 1, old(nodes[result.slot].entry))]
    {
      if freeHead == Null {
        return Null;
      }
      result := freeHead;
      freeHead := nodes[result.slot].left;
      nodes[result.slot] := Cell(Null, Null, Null, 1, nodes[result.slot].entry);
    }

    /** Destroys the entry and pushes the slot onto the free list. */
    method ReleaseNode(item: nat)
      requires item < nodes.Length
      modifies this`freeHead, this`size, nodes
      ensures nodes[..] == old(nodes[..])[item := Cell(old(freeHead), Null, Null, 0, None)]
      ensures freeHead == To(item) && size == if old(size) > 0 then old(size) - 1 else 0
    {
      nodes[item] := Cell(freeHead, Null, Null, 0, None);
      freeHead := To(item);
      if size > 0 {
        size := size - 1;
      }
    }

    // ----- single writes through a node pointer -----

    method SetLeft(i: nat, link: Link)
      requires i < nodes.Length
      modifies nodes
      ensures nodes[..] == old(nodes[..])[i := old(nodes[i]).(left := link)]
    {
      nodes[i] := nodes[i].(left := link);
    }

    method SetRight(i: nat, link: Link)
      requires i < nodes.Length
      modifies nodes
      ensures nodes[..] == old(nodes[..])[i := old(nodes[i]).(right := link)]
    {
      nodes[i] := nodes[i].(right := link);
    }

    method SetParent(i: nat, link: Link)
      requires i < nodes.Length
      modifies nodes
      ensures nodes[..] == old(nodes[..])[i := old(nodes[i]).(parent := link)]
    {
      nodes[i] := nodes[i].(parent := link);
    }

    // ----- heights -----

    function BalanceFactor(i: nat): int
      requires i < nodes.Length
      requires nodes[i].left.To? ==> nodes[i].left.slot < nodes.Length
      requires nodes[i].right.To? ==> nodes[i].right.slot < nodes.Length
      reads nodes
    {
      StoredHeight(nodes[..], nodes[i].left) - StoredHeight(nodes[..], nodes[i].right)
    }

    /** The `uint8_t` cast is written out. */
    method UpdateHeight(i: nat)
      requires i < nodes.Length
      requires nodes[i].left.To? ==> nodes[i].left.slot < nodes.Length
      requires nodes[i].right.To? ==> nodes[i].right.slot < nodes.Length
      modifies nodes
      ensures nodes[..] == old(nodes[..])[i := old(nodes[i].(height :=
        (Max(StoredHeight(nodes[..], nodes[i].left), StoredHeight(nodes[..], nodes[i].right)) + 1) % 256))]
    {
      var leftHeight, rightHeight := StoredHeight(nodes[..], nodes[i].left), StoredHeight(nodes[..], nodes[i].right);
      nodes[i] := nodes[i].(height := ((if leftHeight > rightHeight then leftHeight else rightHeight) + 1) % 256);
    }

    /** Every call of `UpdateHeight` goes through here: the stored child heights never make the cast truncate. */
    method UpdateExactHeight(i: nat)
      requires i < nodes.Length
      requires nodes[i].left.To? ==> nodes[i].left.slot < nodes.Length
      requires nodes[i].right.To? ==> nodes[i].right.slot < nodes.Length
      requires StoredHeight(nodes[..], nodes[i].left) <= 254 && StoredHeight(nodes[..], nodes[i].right) <= 254
      modifies nodes
      ensures nodes[..] == old(nodes[..])[i := old(nodes[i].(height :=
        Max(StoredHeight(nodes[..], nodes[i].left), StoredHeight(nodes[..], nodes[i].right)) + 1))]
    {
      UpdateHeight(i);
    }

    /** Between subtrees of height at most 254 the stored height becomes exact. */
    method RefreshHeight(i: nat, ghost w: set<nat>, ghost c: Context, ghost t: Tree)
      requires c.Under? && c.parent == i && Focused(nodes[..], root, w, c, t)
      requires H(t) <= 254 && H(c.sibling) <= 254
      modifies nodes
      ensures Focused(nodes[..], root, w, c.up, Join(c.isLeft, t, i, c.sibling))
      ensures OnlyLinks(old(nodes[..]), nodes[..], w)
    {
      ghost var s := nodes[..];
      ChildHeights(s, root, w, c, t);
      UpdateExactHeight(i);
      HeightStored(s, nodes[..], root, w, c, t);
    }

    // ----- relinking -----

    /** Puts the subtree at `n` where `o` hangs; `c` is the context of `o`. */
    method Transplant(o: nat, n: Link, ghost c: Context)
      requires o < nodes.Length && o !in CSlots(c) && nodes[o].parent == Above(c, Null)
      requires Hangs(nodes[..], c, To(o), Null) && root == TopLink(c, To(o))
      requires n.To? ==> n.slot < nodes.Length && n.slot !in CSlots(c)
      modifies this`root, nodes
      ensures Hangs(nodes[..], c, n, Null) && root == TopLink(c, n)
      ensures Transplanted(old(nodes[..]), nodes[..], c, n)
    {
      ghost var s0 := nodes[..];
      var par := nodes[o].parent;
      if par == Null {
        root := n;
      } else if nodes[par.slot].left == To(o) {
        SetLeft(par.slot, n);
      } else {
        SetRight(par.slot, n);
      }
      if n != Null {
        SetParent(n.slot, nodes[o].parent);
      }
      HangsRefill(s0, nodes[..], c, To(o), n, Null);
    }

    /** `p` with right child `q` goes down to the left; `a`, `b`, `d` are the three subtrees. */
    method RotateLeft(p: nat, ghost w: set<nat>, ghost c: Context, ghost a: Tree, ghost b: Tree, ghost q: nat,
            ghost d: Tree)
      requires Focused(nodes[..], root, w, Under(false, p, a, c), Branch(b, q, d))
      requires H(a) <= 252 && H(b) <= 252 && H(d) <= 252
      modifies this`root, nodes
      ensures Focused(nodes[..], root, w, c, Branch(Branch(a, p, b), q, d))
      ensures OnlyLinks(old(nodes[..]), nodes[..], w)
    {
      hide Focused, Rep, Hangs, Relinked, OnlyLinks, CSlots, Slots, TopLink;
      ghost var s := nodes[..];
      LeftSite(s, root, w, c, a, p, b, q, d);
      var child := nodes[p].right.slot;
      RelinkLeft(p, child, c);
      ghost var s1 := nodes[..];
      RelinkedInside(s, s1, w, c, p, q, RootLink(b));
      LeftRotated(s, s1, old(root), root, w, c, a, p, b, q, d);
      RefreshHeight(p, w, Under(true, p, b, Under(true, q, d, c)), a);
      OnlyLinksThrough(s, s1, nodes[..], w);
      ghost var s2 := nodes[..];
      RefreshHeight(child, w, Under(true, q, d, c), Branch(a, p, b));
      OnlyLinksThrough(s, s2, nodes[..], w);
    }

    /** The link writes of a left rotation, before the heights of `p` and `q` are refreshed. */
    method RelinkLeft(p: nat, q: nat, ghost c: Context)
      requires p < nodes.Length && q < nodes.Length && p != q && p !in CSlots(c) && q !in CSlots(c)
      requires nodes[p].right == To(q) && nodes[p].parent == Above(c, Null)
      requires Hangs(nodes[..], c, To(p), Null) && root == TopLink(c, To(p))
      requires nodes[q].left.To? ==>
        var b := nodes[q].left.slot; b < nodes.Length && b != p && b != q && b !in CSlots(c)
      modifies this`root, nodes
      ensures Hangs(nodes[..], c, To(q), Null) && root == TopLink(c, To(q))
      ensures nodes[p] == old(nodes[p]).(right := old(nodes[q].left), parent := To(q))
      ensures nodes[q] == old(nodes[q]).(left := To(p), parent := Above(c, Null))
      ensures Relinked(old(nodes[..]), nodes[..], c, p, q, old(nodes[q].left))
    {
      ghost var s := nodes[..];
      SetRight(p, nodes[q].left);
      if nodes[q].left != Null {
        SetParent(nodes[q].left.slot, To(p));
      }
      ghost var s1 := nodes[..];
      HangsSame(s, s1, c, To(p), Null);
      Transplant(p, To(q), c);
      ghost var s2 := nodes[..];
      SetLeft(q, To(p));
      SetParent(p, To(q));
      HangsSame(s2, nodes[..], c, To(q), Null);
      LeftRelinked(s, s1, s2, nodes[..], c, p, q, s[q].left);
    }

    /** `p` with left child `q` goes down to the right; `a`, `b`, `d` are the three subtrees. */
    method RotateRight(p: nat, ghost w: set<nat>, ghost c: Context, ghost a: Tree, ghost q: nat, ghost b: Tree,
            ghost d: Tree)
      requires Focused(nodes[..], root, w, Under(true, p, d, c), Branch(a, q, b))
      requires H(a) <= 252 && H(b) <= 252 && H(d) <= 252
      modifies this`root, nodes
      ensures Focused(nodes[..], root, w, c, Branch(a, q, Branch(b, p, d)))
      ensures OnlyLinks(old(nodes[..]), nodes[..], w)
    {
      hide Focused, Rep, Hangs, Relinked, OnlyLinks, CSlots, Slots, TopLink;
      ghost var s := nodes[..];
      RightSite(s, root, w, c, a, q, b, p, d);
      var child := nodes[p].left.slot;
      RelinkRight(p, child, c);
      ghost var s1 := nodes[..];
      RelinkedInside(s, s1, w, c, p, q, RootLink(b));
      RightRotated(s, s1, old(root), root, w, c, a, q, b, p, d);
      RefreshHeight(p, w, Under(false, p, b, Under(false, q, a, c)), d);
      OnlyLinksThrough(s, s1, nodes[..], w);
      ghost var s2 := nodes[..];
      RefreshHeight(child, w, Under(false, q, a, c), Branch(b, p, d));
      OnlyLinksThrough(s, s2, nodes[..], w);
    }

    /** The link writes of a right rotation, before the heights of `p` and `q` are refreshed. */
    method RelinkRight(p: nat, q: nat, ghost c: Context)
      requires p < nodes.Length && q < nodes.Length && p != q && p !in CSlots(c) && q !in CSlots(c)
      requires nodes[p].left == To(q) && nodes[p].parent == Above(c, Null)
      requires Hangs(nodes[..], c, To(p), Null) && root == TopLink(c, To(p))
      requires nodes[q].right.To? ==>
        var b := nodes[q].right.slot; b < nodes.Length && b != p && b != q && b !in CSlots(c)
      modifies this`root, nodes
      ensures Hangs(nodes[..], c, To(q), Null) && root == TopLink(c, To(q))
      ensures nodes[p] == old(nodes[p]).(left := old(nodes[q].right), parent := To(q))
      ensures nodes[q] == old(nodes[q]).(right := To(p), parent := Above(c, Null))
      ensures Relinked(old(nodes[..]), nodes[..], c, p, q, old(nodes[q].right))
    {
      ghost var s := nodes[..];
      SetLeft(p, nodes[q].right);
      if nodes[q].right != Null {
        SetParent(nodes[q].right.slot, To(p));
      }
      ghost var s1 := nodes[..];
      HangsSame(s, s1, c, To(p), Null);
      Transplant(p, To(q), c);
      ghost var s2 := nodes[..];
      SetRight(q, To(p));
      SetParent(p, To(q));
      HangsSame(s2, nodes[..], c, To(q), Null);
      RightRelinked(s, s1, s2, nodes[..], c, p, q, s[q].right);
    }

    // ----- the upward walk -----

    /** The left subtree is too high by two: one rotation, or two when the child leans the other way. */
    method RepairLeftHeavy(p: nat, ghost w: set<nat>, ghost c: Context, ghost l: Tree, ghost r: Tree)
      requires Focused(nodes[..], root, w, c, Branch(l, p, r))
      requires H(r) + 1 < H(l) <= 250
      modifies this`root, nodes
      ensures Focused(nodes[..], root, w, c, Balance(l, p, r))
      ensures OnlyLinks(old(nodes[..]), nodes[..], w)
    {
      ghost var s, cl := nodes[..], Under(true, p, r, c);
      FocusDown(s, root, w, c, Branch(l, p, r));
      FocusDown(s, root, w, cl, l);
      NodeInFocus(s, root, w, c, l, p, r);
      NodeInFocus(s, root, w, cl, l.left, l.slot, l.right);
      ChildHeights(s, root, w, Under(true, l.slot, l.right, cl), l.left);
      OnlyLinksSame(s, w);
      hide Focused, Rep, Hangs, OnlyLinks, Slots, CSlots;
      ghost var l' := l;
      if BalanceFactor(nodes[p].left.slot) < 0 {
        RotateLeft(nodes[p].left.slot, w, cl, l.left, l.right.left, l.right.slot, l.right.right);
        l' := AvlShape.RotateLeft(l);
      }
      ghost var s1 := nodes[..];
      RotateRight(p, w, c, l'.left, l'.slot, l'.right, r);
      OnlyLinksThrough(s, s1, nodes[..], w);
    }

    /** The mirror image, with the right subtree too high. */
    method RepairRightHeavy(p: nat, ghost w: set<nat>, ghost c: Context, ghost l: Tree, ghost r: Tree)
      requires Focused(nodes[..], root, w, c, Branch(l, p, r))
      requires H(l) + 1 < H(r) <= 250
      modifies this`root, nodes
      ensures Focused(nodes[..], root, w, c, Balance(l, p, r))
      ensures OnlyLinks(old(nodes[..]), nodes[..], w)
    {
      ghost var s, cr := nodes[..], Under(false, p, l, c);
      FocusDown(s, root, w, c, Branch(l, p, r));
      FocusDown(s, root, w, cr, r);
      NodeInFocus(s, root, w, c, l, p, r);
      NodeInFocus(s, root, w, cr, r.left, r.slot, r.right);
      ChildHeights(s, root, w, Under(true, r.slot, r.right, cr), r.left);
      OnlyLinksSame(s, w);
      hide Focused, Rep, Hangs, OnlyLinks, Slots, CSlots;
      ghost var r' := r;
      if BalanceFactor(nodes[p].right.slot) > 0 {
        RotateRight(nodes[p].right.slot, w, cr, r.left.left, r.left.slot, r.left.right, r.right);
        r' := AvlShape.RotateRight(r);
      }
      ghost var s1 := nodes[..];
      RotateLeft(p, w, c, l, r'.left, r'.slot, r'.right);
      OnlyLinksThrough(s, s1, nodes[..], w);
    }

    /** One turn of the walk, at the node above the hole of `c`. */
    method RepairNode(p: nat, ghost w: set<nat>, ghost c: Context, ghost t: Tree)
      requires c.Under? && c.parent == p && Focused(nodes[..], root, w, c, t)
      requires H(t) <= 250 && H(c.sibling) <= 250
      modifies this`root, nodes
      ensures Focused(nodes[..], root, w, c.up, Fixed(c, t))
      ensures OnlyLinks(old(nodes[..]), nodes[..], w)
    {
      ghost var l, r := if c.isLeft then t else c.sibling, if c.isLeft then c.sibling else t;
      RefreshHeight(p, w, c, t);
      FocusDown(nodes[..], root, w, c.up, Branch(l, p, r));
      ChildHeights(nodes[..], root, w, Under(true, p, r, c.up), l);
      var balance := BalanceFactor(p);
      if balance > 1 {
        RepairLeftHeavy(p, w, c.up, l, r);
      } else if balance < -1 {
        RepairRightHeavy(p, w, c.up, l, r);
      }
    }

    /**
      The walk from `start` to the root.  `c0` is the context of the position below `start`, `t0` the
      tree in it; everything but the path is balanced, and the links end up forming the pure result.
     */
    method Rebalance(start: Link, ghost w: set<nat>, ghost c0: Context, ghost t0: Tree, ghost h0: nat)
      requires start == Above(c0, Null) && Focused(nodes[..], root, w, c0, t0)
      requires Repairable(c0, t0, h0) && CSize(c0) + Size(t0) < SIZE_LIMIT
      modifies this`root, nodes
      ensures Focused(nodes[..], root, w, Top, RebalanceUp(c0, t0))
      ensures OnlyLinks(old(nodes[..]), nodes[..], w)
    {
      var current := start;
      ghost var c, t, h := c0, t0, h0;
      while current != Null
        invariant current == Above(c, Null) && Focused(nodes[..], root, w, c, t)
        invariant Repairable(c, t, h) && CSize(c) + Size(t) < SIZE_LIMIT
        invariant RebalanceUp(c, t) == RebalanceUp(c0, t0)
        invariant OnlyLinks(old(nodes[..]), nodes[..], w)
        decreases Depth(c), NeedsRotation(c, t)
      {
        var p := current.slot;
        HeightBound(t);
        HeightBound(c.sibling);
        RepairNode(p, w, c, t);
        WalkStep(c, t, h);
        FixedHeight(c, t);
        FocusNext(nodes[..], root, w, c, t);
        current := nodes[p].parent;
        c, t, h := NextContext(c, t), NextTree(c, t), NextHeight(c, t, h);
      }
    }

    // ----- searching -----

    /** The node whose key is equivalent to `key`, if there is one. */
    method FindNode(key: K) returns (found: Link)
      requires Valid()
      ensures found.To? <==> BoundedMap.Present(SameKey(less), contents, key)
      ensures found.To? ==>
        found.slot in Slots(tree) && Live(nodes[..], found.slot) && Equivalent(less, KeyOf(nodes[..], found.slot), key)
    {
      var current := root;
      ghost var c, t := Top, tree;
      while current != Null
        invariant Plug(c, t) == tree && current == RootLink(t)
        invariant Brackets(nodes[..], less, key, c)
        decreases t
      {
        FocusAt(nodes[..], root, Slots(tree), c, t);
        PlugSlots(c, t);
        var currentKey := nodes[current.slot].entry.value.0;
        if less(key, currentKey) {
          DescendLeft(nodes[..], less, key, c, t);
          current := nodes[current.slot].left;
          c, t := Under(true, t.slot, t.right, c), t.left;
        } else if less(currentKey, key) {
          DescendRight(nodes[..], less, key, c, t);
          current := nodes[current.slot].right;
          c, t := Under(false, t.slot, t.left, c), t.right;
        } else {
          PresentAtNode(nodes[..], less, key, Slots(tree), current.slot, contents);
          return current;
        }
      }
      AbsentAtLeaf(nodes[..], less, key, c, contents);
      return Null;
    }

    /** The value stored under a key equivalent to `key`. */
    method Mapped(key: K) returns (value: Option<V>)
      requires Valid()
      ensures value.Some? <==> BoundedMap.Present(SameKey(less), contents, key)
      ensures value.Some? ==> exists k :: k in contents && Equivalent(less, k, key) && contents[k] == value.value
    {
      var item := FindNode(key);
      if item == Null {
        return None;
      }
      assert Mirrors(nodes[..], Slots(tree), contents);
      assert KeyOf(nodes[..], item.slot) in contents;
      value := Some(nodes[item.slot].entry.value.1);
    }

    method Contains(key: K) returns (present: bool)
      requires Valid()
      ensures present <==> BoundedMap.Present(SameKey(less), contents, key)
    {
      hide Valid, SameKey;
      var item := FindNode(key);
      present := item != Null;
    }

    // ----- insertion -----

    lemma {:induction false} InsertMeans(key: K, value: V)
      requires Valid()
      ensures var (m, status) := BoundedMap.Insert(SameKey(less), nodes.Length, contents, key, value);
        BoundedMap.Inserts(SameKey(less), nodes.Length, contents, key, value, m, status)
    {
      SameKeyIsEquivalence(less);
      BoundedMap.InsertMeans(SameKey(less), nodes.Length, contents, key, value);
    }

    method Insert(key: K, value: V) returns (status: Status)
      requires Valid()
      modifies this, nodes
      ensures Valid()
      ensures (contents, status) == BoundedMap.Insert(SameKey(less), nodes.Length, old(contents), key, value)
      ensures BoundedMap.Inserts(SameKey(less), nodes.Length, old(contents), key, value, contents, status)
      ensures old(Slots(tree)) <= Slots(tree) && Unmoved(old(nodes[..]), nodes[..], old(Slots(tree)))
    {
      InsertMeans(key, value);
      hide BoundedMap.Inserts;
      var found, parent, insertLeft, c := Descend(key);
      if found {
        return AlreadyExists;
      }
      ghost var s := nodes[..];
      ghost var head := freeHead;
      var item := AllocateNode();
      if item == Null {
        return Full;
      }
      Attach(item.slot, parent, insertLeft, key, value, s, head, c);
      return Ok;
    }

    /** Walks down to the node with an equivalent key, or to the hole where `key` belongs. */
    method Descend(key: K) returns (found: bool, parent: Link, insertLeft: bool, ghost c: Context)
      requires Valid()
      ensures found <==> BoundedMap.Present(SameKey(less), contents, key)
      ensures !found ==> Plug(c, Leaf) == tree && Brackets(nodes[..], less, key, c) && key !in contents
      ensures !found ==> parent == Above(c, Null) && (c.Under? ==> insertLeft == c.isLeft)
    {
      var current := root;
      parent, insertLeft := Null, false;
      ghost var t := tree;
      c := Top;
      while current != Null
        invariant Plug(c, t) == tree && current == RootLink(t)
        invariant parent == Above(c, Null) && (c.Under? ==> insertLeft == c.isLeft)
        invariant Brackets(nodes[..], less, key, c)
        decreases t
      {
        FocusAt(nodes[..], root, Slots(tree), c, t);
        PlugSlots(c, t);
        parent := current;
        var currentKey := nodes[current.slot].entry.value.0;
        if less(key, currentKey) {
          DescendLeft(nodes[..], less, key, c, t);
          current := nodes[current.slot].left;
          insertLeft := true;
          c, t := Under(true, t.slot, t.right, c), t.left;
        } else if less(currentKey, key) {
          DescendRight(nodes[..], less, key, c, t);
          current := nodes[current.slot].right;
          insertLeft := false;
          c, t := Under(false, t.slot, t.left, c), t.right;
        } else {
          PresentAtNode(nodes[..], less, key, Slots(tree), current.slot, contents);
          found := true;
          return;
        }
      }
      AbsentAtLeaf(nodes[..], less, key, c, contents);
      found := false;
    }

    /** Constructs the entry in the slot just allocated, links it below `parent` and rebalances. */
    method Attach(item: nat, parent: Link, insertLeft: bool, key: K, value: V, ghost s: seq<Cell<K, V>>,
            ghost head: Link, ghost c: Context)
      requires 0 < nodes.Length == |s| < SIZE_LIMIT
      requires tree == Plug(c, Leaf) && Sound(s, less, root, head, size, tree, free, contents)
      requires Brackets(s, less, key, c) && key !in contents
      requires free != [] && item == free[0] && freeHead == LinkAt(free, 1) && item < |s|
      requires nodes[..] == s[item := Cell(Null, Null, Null, 1, s[item].entry)]
      requires parent == Above(c, Null) && (c.Under? ==> insertLeft == c.isLeft)
      modifies this, nodes
      ensures Sound(nodes[..], less, root, freeHead, size, tree, free, contents)
      ensures contents == old(contents)[key := value]
      ensures Slots(tree) == old(Slots(tree)) + {item} && Unmoved(s, nodes[..], old(Slots(tree)))
    {
      hide Rep, Hangs, Ascending, Mirrors, Brackets, Balanced, Unmoved;
      PlugLeaf(c);
      PartitionPop(|s|, CSlots(c), free);
      AttachLinks(item, parent, insertLeft, key, value, s, c);
      ghost var tree' := RebalanceUp(c, Branch(Leaf, item, Leaf));
      ghost var s', free', contents' := nodes[..], free[1..], contents[key := value];
      InsertSound(s, s', less, c, tree', free, head, contents, key, value, item);
      assert Sound(s', less, root, freeHead, size, tree', free', contents');
      tree, free, contents := tree', free', contents';
      assert nodes[..] == s';
    }

    method AttachLinks(item: nat, parent: Link, insertLeft: bool, key: K, value: V, ghost s: seq<Cell<K, V>>,
            ghost c: Context)
      requires nodes.Length == |s| < SIZE_LIMIT && TreeSound(s, root, size, Plug(c, Leaf)) && CSize(c) < nodes.Length
      requires item < |s| && item !in CSlots(c) && nodes[..] == s[item := Cell(Null, Null, Null, 1, s[item].entry)]
      requires parent == Above(c, Null) && (c.Under? ==> insertLeft == c.isLeft)
      modifies this`root, this`size, nodes
      ensures var tree' := RebalanceUp(c, Branch(Leaf, item, Leaf));
        && TreeSound(nodes[..], root, size, tree')
        && Inorder(tree') == Before(c) + [item] + After(c)
        && Slots(tree') == CSlots(c) + {item} && Size(tree') == CSize(c) + 1
      ensures forall i :: 0 <= i < |s| && i !in CSlots(c) + {item} ==> nodes[..][i] == s[i]
      ensures forall i :: 0 <= i < |s| && i != item ==> nodes[..][i].entry == s[i].entry
      ensures nodes[..][item].entry == Some((key, value))
    {
      LinkFresh(item, parent, insertLeft, key, value, s, c);
      size := size + 1;
      ghost var leaf := Branch(Leaf, item, Leaf);
      ghost var h := HeightAbove(c, 0);
      assert Repairable(c, leaf, h) by {
        PlugBalanced(c, Leaf);
        RepairableStart(c, leaf, 0);
      }
      Rebalance(parent, CSlots(c) + {item}, c, leaf, h);
      RebalanceUpBalanced(c, leaf, h);
      RebalanceUpOrder(c, leaf);
      PlugLeaf(c);
      assert Inorder(leaf) == [item] && Slots(leaf) == {item};
    }

    method LinkFresh(item: nat, parent: Link, insertLeft: bool, key: K, value: V, ghost s: seq<Cell<K, V>>,
            ghost c: Context)
      requires nodes.Length == |s| && Focused(s, root, Slots(Plug(c, Leaf)), Top, Plug(c, Leaf))
      requires item < |s| && item !in CSlots(c) && nodes[..] == s[item := Cell(Null, Null, Null, 1, s[item].entry)]
      requires parent == Above(c, Null) && (c.Under? ==> insertLeft == c.isLeft)
      modifies this`root, nodes
      ensures Focused(nodes[..], root, CSlots(c) + {item}, c, Branch(Leaf, item, Leaf))
      ensures forall i :: 0 <= i < |s| && i !in CSlots(c) + {item} ==> nodes[..][i] == s[i]
      ensures forall i :: 0 <= i < |s| && i != item ==> nodes[..][i].entry == s[i].entry
      ensures nodes[..][item].entry == Some((key, value))
    {
      FocusAt(s, root, Slots(Plug(c, Leaf)), c, Leaf);
      nodes[item] := nodes[item].(entry := Some((key, value)));
      SetParent(item, parent);
      if parent == Null {
        root := To(item);
      } else if insertLeft {
        SetLeft(parent.slot, To(item));
      } else {
        SetRight(parent.slot, To(item));
      }
      FreshLinked(s, nodes[..], old(root), root, c, item);
    }

    // ----- removal -----

    /** The leftmost node of the subtree `t` hanging in `c`; `path` leads from it up to `c`. */
    method Minimum(item: Link, ghost w: set<nat>, ghost c: Context, ghost t: Tree)
      returns (m: Link, ghost path: Context, ghost sr: Tree)
      requires item == RootLink(t) && Focused(nodes[..], root, w, c, t)
      ensures t.Leaf? ==> m == Null
      ensures t.Branch? ==> m.To? && Plug(path, Branch(Leaf, m.slot, sr)) == t && Before(path) == []
      ensures t.Branch? ==> Focused(nodes[..], root, w, Append(path, c), Branch(Leaf, m.slot, sr))
    {
      path, sr := Top, Leaf;
      m := item;
      if m == Null {
        return;
      }
      ghost var u := t;
      while nodes[m.slot].left != Null
        invariant u.Branch? && m == To(u.slot) && Plug(path, u) == t && Before(path) == []
        invariant Focused(nodes[..], root, w, Append(path, c), u)
        decreases u
      {
        FocusDown(nodes[..], root, w, Append(path, c), u);
        m := nodes[m.slot].left;
        path, u := Under(true, u.slot, u.right, path), u.left;
      }
      sr := u.right;
    }

    /** Unlinks a node with at most one child. */
    method DetachSimple(item: nat, ghost w: set<nat>, ghost c: Context, ghost l: Tree, ghost r: Tree)
      returns (child: Link)
      requires l.Leaf? || r.Leaf?
      requires Focused(nodes[..], root, w, c, Branch(l, item, r))
      modifies this`root, nodes
      ensures var x := if l.Leaf? then r else l; child == RootLink(x) && Focused(nodes[..], root, w, c, x)
      ensures OnlyLinks(old(nodes[..]), nodes[..], w)
    {
      ghost var s := nodes[..];
      ghost var x := if l.Leaf? then r else l;
      child := if nodes[item].left != Null then nodes[item].left else nodes[item].right;
      RepSlots(s, x, To(item));
      Transplant(item, child, c);
      RepFrame(s, nodes[..], x, To(item), Above(c, Null));
    }

    /** First half of unlinking a node with two children: its successor is taken out of its place. */
    method SpliceSuccessor(item: nat, succ: nat, ghost w: set<nat>, ghost c: Context, ghost l: Tree,
            ghost path: Context, ghost sr: Tree)
      returns (rebalanceFrom: Link)
      requires Focused(nodes[..], root, w, Append(path, Under(false, item, l, c)), Branch(Leaf, succ, sr))
      requires LowHeights(nodes[..], w)
      modifies this`root, nodes
      ensures Spliced(nodes[..], root, w, c, l, item, path, succ, sr)
      ensures rebalanceFrom == Above(path, To(succ))
      ensures OnlyLinks(old(nodes[..]), nodes[..], w) && LowHeights(nodes[..], w)
    {
      ghost var s := nodes[..];
      ghost var cItem := Under(false, item, l, c);
      AppendSlots(path, cItem);
      AboveAppend(path, cItem, Null);
      HangsSplit(s, path, cItem, To(succ), Null);
      var successorParent := nodes[succ].parent;
      if successorParent != To(item) {
        SpliceDeep(item, succ, w, c, l, path, sr);
        rebalanceFrom := successorParent;
      } else {
        SplicedAdjacent(s, root, w, c, l, item, succ, sr);
        rebalanceFrom := To(succ);
      }
    }

    /** The successor is not a child of `item`: its own right subtree takes its place. */
    method SpliceDeep(item: nat, succ: nat, ghost w: set<nat>, ghost c: Context, ghost l: Tree, ghost path: Context,
            ghost sr: Tree)
      requires path.Under?
      requires Focused(nodes[..], root, w, Append(path, Under(false, item, l, c)), Branch(Leaf, succ, sr))
      requires LowHeights(nodes[..], w)
      modifies this`root, nodes
      ensures Spliced(nodes[..], root, w, c, l, item, path, succ, sr)
      ensures OnlyLinks(old(nodes[..]), nodes[..], w) && LowHeights(nodes[..], w)
    {
      hide Focused, Rep, Hangs, Unhooked, Spliced, OnlyLinks, LowHeights;
      ghost var s := nodes[..];
      Unhook(item, succ, w, c, l, path, sr);
      ghost var s1 := nodes[..];
      Rehang(item, succ, w, c, l, path, sr);
      OnlyLinksThrough(s, s1, nodes[..], w);
    }

    method Unhook(item: nat, succ: nat, ghost w: set<nat>, ghost c: Context, ghost l: Tree, ghost path: Context,
            ghost sr: Tree)
      requires path.Under?
      requires Focused(nodes[..], root, w, Append(path, Under(false, item, l, c)), Branch(Leaf, succ, sr))
      requires LowHeights(nodes[..], w)
      modifies this`root, nodes
      ensures Unhooked(nodes[..], root, w, c, l, item, path, succ, sr)
      ensures OnlyLinks(old(nodes[..]), nodes[..], w) && LowHeights(nodes[..], w)
    {
      ghost var s, up := nodes[..], Append(path, Under(false, item, l, c));
      SimpleSite(s, root, w, up, Leaf, succ, sr);
      hide Focused, Rep, Hangs, Unhooked, OnlyLinks, CSlots, Slots, TopLink, Append;
      Transplant(succ, nodes[succ].right, up);
      UnhookedDeep(s, nodes[..], root, w, c, l, item, path, succ, sr);
      TransplantedInside(s, nodes[..], w, up, RootLink(sr));
      SameHeights(s, nodes[..], w);
    }

    method Rehang(item: nat, succ: nat, ghost w: set<nat>, ghost c: Context, ghost l: Tree, ghost path: Context,
            ghost sr: Tree)
      requires path.Under? && Unhooked(nodes[..], root, w, c, l, item, path, succ, sr) && LowHeights(nodes[..], w)
      modifies nodes
      ensures Spliced(nodes[..], root, w, c, l, item, path, succ, sr)
      ensures OnlyLinks(old(nodes[..]), nodes[..], w) && LowHeights(nodes[..], w)
    {
      ghost var s := nodes[..];
      UnhookedSite(s, root, w, c, l, item, path, succ, sr);
      hide Rep, Hangs, Unhooked, Spliced, CSlots, Slots, TopLink, OnlyLinks;
      var top := nodes[item].right.slot;
      SetRight(succ, nodes[item].right);
      SetParent(nodes[succ].right.slot, To(succ));
      SplicedDeep(s, nodes[..], root, w, c, l, item, path, succ, sr, top);
      SameHeights(s, nodes[..], w);
    }

    /** Second half: the successor takes the place and the left subtree of the node. */
    method SubstituteSuccessor(item: nat, succ: nat, ghost w: set<nat>, ghost c: Context, ghost l: Tree,
            ghost path: Context, ghost sr: Tree)
      requires l.Branch? && Spliced(nodes[..], root, w, c, l, item, path, succ, sr) && LowHeights(nodes[..], w)
      modifies this`root, nodes
      ensures Focused(nodes[..], root, w, Append(path, Under(false, succ, l, c)), sr)
      ensures OnlyLinks(old(nodes[..]), nodes[..], w)
    {
      ghost var s := nodes[..];
      SplicedSite(s, root, w, c, l, item, path, succ, sr);
      hide Focused, Rep, Hangs, Spliced, OnlyLinks, LowHeights, Transplanted, CSlots, Slots, TopLink, Append;
      Transplant(item, To(succ), c);
      ghost var s1 := nodes[..];
      SplicedHeights(s, s1, old(root), w, c, l, item, path, succ, sr);
      AdoptLeft(item, succ);
      Substituted(s, s1, nodes[..], old(root), root, w, c, l, item, path, succ, sr, nodes[succ].height);
    }

    /** `succ` takes over the left subtree of `item`. */
    method AdoptLeft(item: nat, succ: nat)
      requires item < nodes.Length && succ < nodes.Length && item != succ
      requires nodes[item].left.To? && nodes[item].left.slot < nodes.Length && nodes[item].left.slot != succ
      requires nodes[succ].right.To? ==> nodes[succ].right.slot < nodes.Length && nodes[succ].right.slot != succ
      requires nodes[nodes[item].left.slot].height <= HEIGHT_LIMIT
      requires nodes[succ].right.To? ==> nodes[nodes[succ].right.slot].height <= HEIGHT_LIMIT
      modifies nodes
      ensures var l := old(nodes[item].left.slot);
        var cell := old(nodes[succ]).(left := To(l), height := nodes[succ].height);
        nodes[..] == old(nodes[..])[succ := cell][l := old(nodes[l]).(parent := To(succ))]
      ensures var left := old(nodes[nodes[item].left.slot].height);
        nodes[succ].height == 1 + Max(left, old(StoredHeight(nodes[..], nodes[succ].right)))
    {
      SetLeft(succ, nodes[item].left);
      SetParent(nodes[succ].left.slot, To(succ));
      UpdateExactHeight(succ);
    }

    /** Unlinks `item`.  `from` is where the walk has to start; it is the node above the hole of `c'`. */
    method Detach(item: nat, ghost w: set<nat>, ghost c: Context, ghost l: Tree, ghost r: Tree)
      returns (from: Link, ghost c': Context, ghost t': Tree, ghost h': nat)
      requires Focused(nodes[..], root, w, c, Branch(l, item, r)) && Balanced(Plug(c, Branch(l, item, r)))
      requires LowHeights(nodes[..], w)
      modifies this`root, nodes
      ensures from == Above(c', Null) && Focused(nodes[..], root, w, c', t')
      ensures Repairable(c', t', h') && Dropped(c, l, r, c', t')
      ensures OnlyLinks(old(nodes[..]), nodes[..], w)
    {
      hide Focused, Rep, Hangs, Balanced, Repairable, Dropped, OnlyLinks, LowHeights;
      NodeInFocus(nodes[..], root, w, c, l, item, r);
      var rebalanceFrom := nodes[item].parent;
      if nodes[item].left == Null || nodes[item].right == Null {
        var child := DetachSimple(item, w, c, l, r);
        from := if rebalanceFrom != Null then rebalanceFrom else child;
        ghost var x := if l.Leaf? then r else l;
        if c.Top? && x.Branch? {
          DropToRoot(l, item, r);
          FocusDown(nodes[..], root, w, c, x);
          c', t' := Under(true, x.slot, x.right, Top), x.left;
          h' := HeightAbove(c', H(x.left));
        } else {
          DropSimple(c, l, r);
          DropSimpleRepairable(c, l, item, r);
          c', t', h' := c, x, HeightAbove(c, 1 + H(x));
        }
      } else {
        from, c', t', h' := DetachTwo(item, w, c, l, r);
      }
    }

    method DetachTwo(item: nat, ghost w: set<nat>, ghost c: Context, ghost l: Tree, ghost r: Tree)
      returns (from: Link, ghost c': Context, ghost t': Tree, ghost h': nat)
      requires l.Branch? && r.Branch?
      requires Focused(nodes[..], root, w, c, Branch(l, item, r)) && Balanced(Plug(c, Branch(l, item, r)))
      requires LowHeights(nodes[..], w)
      modifies this`root, nodes
      ensures from == Above(c', Null) && Focused(nodes[..], root, w, c', t')
      ensures Repairable(c', t', h') && Dropped(c, l, r, c', t')
      ensures OnlyLinks(old(nodes[..]), nodes[..], w)
    {
      hide Focused, Hangs, Rep, Repairable, Dropped, Balanced, OnlyLinks, LowHeights, Spliced, Slots, CSlots;
      ghost var s := nodes[..];
      FocusDown(s, root, w, c, Branch(l, item, r));
      NodeInFocus(s, root, w, c, l, item, r);
      var successor, path, sr := Minimum(nodes[item].right, w, Under(false, item, l, c), r);
      ghost var outer := Under(false, successor.slot, l, c);
      c', t' := Append(path, outer), sr;
      h' := HeightAbove(c', 1 + H(sr));
      DropTwo(c, l, r, path, successor.slot, sr);
      DropTwoRepairable(c, l, item, r, path, successor.slot, sr);
      AboveAppend(path, outer, Null);
      from := SpliceSuccessor(item, successor.slot, w, c, l, path, sr);
      ghost var s1 := nodes[..];
      SubstituteSuccessor(item, successor.slot, w, c, l, path, sr);
      OnlyLinksThrough(s, s1, nodes[..], w);
    }

    /** Unlinks `item`, returns its slot to the pool and rebalances the path above. */
    method EraseNode(item: nat) returns (ghost a: seq<nat>, ghost b: seq<nat>)
      requires Valid() && item in Slots(tree)
      modifies this, nodes
      ensures Valid()
      ensures old(Inorder(tree)) == a + [item] + b && Inorder(tree) == a + b
      ensures Slots(tree) == old(Slots(tree)) - {item} && Unmoved(old(nodes[..]), nodes[..], Slots(tree))
      ensures old(Live(nodes[..], item)) && contents == old(contents - {KeyOf(nodes[..], item)})
      ensures forall k :: k in old(contents) && k != old(KeyOf(nodes[..], item)) ==>
        !SameKey(less)(k, old(KeyOf(nodes[..], item)))
    {
      hide Rep, Hangs, Ascending, Mirrors, Balanced, FreeList, Partitions, Unmoved, Released, Inorder, Before, After;
      ghost var s, head := nodes[..], freeHead;
      ghost var (c, t) := Locate(tree, item);
      a, b := Before(c) + Inorder(t.left), Inorder(t.right) + After(c);
      FocusAt(s, root, Slots(tree), c, t);
      ErasedApart(s, root, Slots(tree), c, t.left, item, t.right);
      EraseOrder(c, t.left, item, t.right);
      ghost var tree' := EraseLinks(item, c, t.left, t.right);
      ghost var s', free', contents' := nodes[..], [item] + free, contents - {KeyOf(s, item)};
      EraseSound(s, s', less, tree, tree', free, head, contents, a, item, b);
      assert Sound(s', less, root, freeHead, size, tree', free', contents');
      tree, free, contents := tree', free', contents';
      assert nodes[..] == s';
    }

    /** Unlinks `item` and returns its slot to the pool, before the path above is rebalanced. */
    method UnlinkNode(item: nat, ghost c: Context, ghost l: Tree, ghost r: Tree)
      returns (from: Link, ghost c': Context, ghost t': Tree, ghost h': nat)
      requires nodes.Length < SIZE_LIMIT && size <= nodes.Length
      requires tree == Plug(c, Branch(l, item, r)) && TreeSound(nodes[..], root, size, tree)
      requires Focused(nodes[..], root, Slots(tree), c, Branch(l, item, r))
      modifies this`root, this`freeHead, this`size, nodes
      ensures from == Above(c', Null) && Focused(nodes[..], root, Slots(tree) - {item}, c', t')
      ensures Repairable(c', t', h')
      ensures Dropped(c, l, r, c', t') && item !in CSlots(c) + Slots(l) + Slots(r)
      ensures Released(old(nodes[..]), nodes[..], Slots(tree), item, Cell(old(freeHead), Null, Null, 0, None))
      ensures freeHead == To(item) && size == old(size) - 1
    {
      hide TreeSound, Focused, Rep, Hangs, Balanced, Repairable, LowHeights, Dropped, OnlyLinks, Released, Slots,
        CSlots, Size, Plug, Inorder;
      ghost var s := nodes[..];
      TreeParts(s, root, size, tree);
      from, c', t', h' := Detach(item, Slots(tree), c, l, r);
      ErasedApart(s, old(root), Slots(tree), c, l, item, r);
      EraseShape(c, l, item, r, c', t');
      ghost var s1, head := nodes[..], freeHead;
      ReleaseNode(item);
      ReleasedCell(s, s1, Slots(tree), item, Cell(head, Null, Null, 0, None));
      FocusRelease(s1, root, Slots(tree), c', t', item, Cell(head, Null, Null, 0, None));
    }

    /** The writes of an erasure, and the shape they leave behind. */
    method EraseLinks(item: nat, ghost c: Context, ghost l: Tree, ghost r: Tree) returns (ghost tree': Tree)
      requires nodes.Length < SIZE_LIMIT && size <= nodes.Length
      requires tree == Plug(c, Branch(l, item, r)) && TreeSound(nodes[..], root, size, tree)
      requires Focused(nodes[..], root, Slots(tree), c, Branch(l, item, r))
      modifies this`root, this`freeHead, this`size, nodes
      ensures TreeSound(nodes[..], root, size, tree') && freeHead == To(item)
      ensures Slots(tree') == Slots(tree) - {item}
      ensures Inorder(tree') == (Before(c) + Inorder(l)) + (Inorder(r) + After(c))
      ensures Released(old(nodes[..]), nodes[..], Slots(tree), item, Cell(old(freeHead), Null, Null, 0, None))
    {
      assert Size(tree) == size;
      hide Focused, Rep, Hangs, Balanced, Repairable, Dropped, OnlyLinks, Released, Plug, Slots, CSlots, Inorder,
        Before, After, Size, CSize;
      ghost var s, w := nodes[..], Slots(tree) - {item};
      var from, c', t', h' := UnlinkNode(item, c, l, r);
      EraseShape(c, l, item, r, c', t');
      ghost var s1 := nodes[..];
      Rebalance(from, w, c', t', h');
      ReleasedThrough(s, s1, nodes[..], Slots(tree), w, item, s1[item]);
      tree' := RebalanceUp(c', t');
      RebalanceUpBalanced(c', t', h');
      RebalanceUpOrder(c', t');
    }

    lemma {:induction false} EraseMeans(key: K)
      requires Valid()
      ensures var (m, status) := BoundedMap.Erase(SameKey(less), contents, key);
        BoundedMap.Erases(SameKey(less), contents, key, m, status)
    {
      SameKeyIsEquivalence(less);
      OneNodeEach(nodes[..], less, tree, contents);
      BoundedMap.EraseMeans(SameKey(less), contents, key);
    }

    method Erase(key: K) returns (status: Status)
      requires Valid()
      modifies this, nodes
      ensures Valid()
      ensures (contents, status) == BoundedMap.Erase(SameKey(less), old(contents), key)
      ensures BoundedMap.Erases(SameKey(less), old(contents), key, contents, status)
      ensures Slots(tree) <= old(Slots(tree)) && Unmoved(old(nodes[..]), nodes[..], Slots(tree))
    {
      assert StrictWeakOrder(less);
      assert Unmoved(nodes[..], nodes[..], Slots(tree)) by { WalkableTree(); }
      EraseMeans(key);
      hide Valid, StrictWeakOrder, Slots, Unmoved, BoundedMap.Erases;
      var item := FindNode(key);
      if item == Null {
        return NotFound;
      }
      ghost var s, m := nodes[..], contents;
      var _, _ := EraseNode(item.slot);
      assert contents == BoundedMap.Erase(SameKey(less), m, key).0 by {
        SameKeyIsEquivalence(less);
        BoundedMap.ErasedKey(SameKey(less), m, KeyOf(s, item.slot), key);
      }
      return Ok;
    }

    // ----- in-order walks -----

    /** The in-order successor, found through the links alone; see `Climbs` for the part it relies on. */
    method Successor(item: Link, ghost c: Context, ghost r: Tree) returns (next: Link)
      requires item.To? ==> item.slot < nodes.Length && nodes[item.slot].right == RootLink(r) && Rep(nodes[..], r, item)
      requires item.To? && r.Leaf? ==> Climbs(nodes[..], item.slot, c)
      ensures item == Null ==> next == Null
      ensures item.To? && r.Branch? ==> next == LinkAt(Inorder(r), 0)
      ensures item.To? && r.Leaf? ==> next == ClimbEnd(nodes[..], item.slot, c)
    {
      if item == Null {
        return Null;
      }
      if nodes[item.slot].right != Null {
        next := nodes[item.slot].right;
        ghost var u, par := r, item;
        while nodes[next.slot].left != Null
          invariant u.Branch? && next == To(u.slot) && Rep(nodes[..], u, par)
          invariant Inorder(u)[0] == Inorder(r)[0]
          decreases u
        {
          FirstOfLeft(u);
          par := next;
          next := nodes[next.slot].left;
          u := u.left;
        }
        return;
      }
      var current := item.slot;
      next := nodes[current].parent;
      ghost var up := c;
      while next != Null && nodes[next.slot].right == To(current)
        invariant Climbs(nodes[..], current, up) && next == nodes[current].parent
        invariant ClimbEnd(nodes[..], current, up) == ClimbEnd(nodes[..], item.slot, c)
        decreases up
      {
        current := next.slot;
        next := nodes[next.slot].parent;
        up := up.up;
      }
    }

    /** `++` on an iterator: null stays null. */
    method Next(item: Link) returns (next: Link)
      requires Valid() && (item.To? ==> item.slot in Slots(tree))
      ensures item == Null ==> next == Null
      ensures item.To? ==> item.slot in Inorder(tree)
      ensures item.To? ==> next == LinkAt(Inorder(tree), Rank(Inorder(tree), item.slot) + 1)
    {
      hide *;
      if item == Null {
        return Null;
      }
      ghost var (c, t) := Locate(tree, item.slot);
      WalkableTree();
      SuccessorIsNext(nodes[..], root, tree, c, t.left, item.slot, t.right);
      next := Successor(item, c, t.right);
    }

    lemma WalkableTree()
      requires Valid()
      ensures Walkable(nodes[..], root, tree) && Unmoved(nodes[..], nodes[..], Slots(tree))
    {
      hide Rep, Hangs, FreeList, Partitions, Balanced;
      AscendingNoRepeats(nodes[..], less, Inorder(tree));
    }

    lemma OrderedTree()
      requires Valid()
      ensures var q := Inorder(tree);
        Ascending(nodes[..], less, q) && NoRepeats(q) && |q| == size && forall i :: i in q ==> i in Slots(tree)
    {
      hide Rep, Hangs, Ascending, Mirrors, FreeList, Partitions, Balanced;
      AscendingNoRepeats(nodes[..], less, Inorder(tree));
      InorderSlots(tree);
    }

    /** `--` on an iterator: null stays null. */
    method Previous(item: Link) returns (previous: Link)
      requires Valid() && (item.To? ==> item.slot in Slots(tree))
      ensures item == Null ==> previous == Null
      ensures item.To? ==> item.slot in Inorder(tree)
      ensures item.To? ==> previous == LinkAt(Inorder(tree), Rank(Inorder(tree), item.slot) - 1)
    {
      hide *;
      if item == Null {
        return Null;
      }
      ghost var (c, t) := Locate(tree, item.slot);
      WalkableTree();
      PredecessorIsPrevious(nodes[..], root, tree, c, t.left, item.slot, t.right);
      previous := Predecessor(item.slot, Slots(tree), c, t);
    }

    method Predecessor(item: nat, ghost w: set<nat>, ghost c: Context, ghost t: Tree) returns (previous: Link)
      requires t.Branch? && t.slot == item && Focused(nodes[..], root, w, c, t)
      ensures previous == LastLink(Before(c) + Inorder(t.left))
    {
      if nodes[item].left != Null {
        previous := nodes[item].left;
        ghost var u, par := t.left, To(item);
        while nodes[previous.slot].right != Null
          invariant u.Branch? && previous == To(u.slot) && Rep(nodes[..], u, par)
          invariant Inorder(u)[|Inorder(u)| - 1] == Inorder(t.left)[|Inorder(t.left)| - 1]
          decreases u
        {
          par := previous;
          previous := nodes[previous.slot].right;
          u := u.right;
        }
        return;
      }
      var current := item;
      previous := nodes[item].parent;
      ghost var up := c;
      while previous != Null && nodes[previous.slot].left == To(current)
        invariant Hangs(nodes[..], up, To(current), Null) && current !in CSlots(up) && previous == Above(up, Null)
        invariant Before(up) == Before(c)
        decreases up
      {
        current := previous.slot;
        previous := nodes[previous.slot].parent;
        up := up.up;
      }
    }

    /** `++` and then `--`: back at the start wherever there is a next entry. */
    method ForthAndBack(item: nat) returns (next: Link, back: Link)
      requires Valid() && item in Slots(tree)
      ensures item in Inorder(tree) && next == LinkAt(Inorder(tree), Rank(Inorder(tree), item) + 1)
      ensures back == if next.To? then To(item) else Null
    {
      hide Valid, Ascending, Slots, Inorder, Rank, LinkAt, Equivalent;
      OrderedTree();
      next := Next(To(item));
      PreviousUndoesNext(Inorder(tree), item);
      back := Previous(next);
    }

    /** `--` and then `++`: back at the start wherever there is a previous entry. */
    method BackAndForth(item: nat) returns (previous: Link, back: Link)
      requires Valid() && item in Slots(tree)
      ensures item in Inorder(tree) && previous == LinkAt(Inorder(tree), Rank(Inorder(tree), item) - 1)
      ensures back == if previous.To? then To(item) else Null
    {
      hide Valid, Ascending, Slots, Inorder, Rank, LinkAt, Equivalent;
      OrderedTree();
      previous := Previous(To(item));
      PreviousUndoesNext(Inorder(tree), item);
      back := Next(previous);
    }

    /** The node of the smallest key. */
    method Begin() returns (first: Link)
      requires Valid()
      ensures first == LinkAt(Inorder(tree), 0)
    {
      assert Focused(nodes[..], root, Slots(tree), Top, tree);
      hide Valid, Focused;
      ghost var path, sr;
      first, path, sr := Minimum(root, Slots(tree), Top, tree);
      if tree.Branch? { FirstOfMinimum(path, first.slot, sr); }
    }

    /** `begin()` and repeated `++`: every entry once, in ascending key order. */
    method InOrderWalk() returns (visited: seq<nat>)
      requires Valid()
      ensures visited == Inorder(tree) && Ascending(nodes[..], less, visited) && |visited| == size
    {
      hide Valid, Ascending, Rank, Inorder, Walkable;
      OrderedTree();
      ghost var q := Inorder(tree);
      var current := Begin();
      visited := [];
      while current != Null
        invariant |visited| <= |q| && visited == q[..|visited|] && current == LinkAt(q, |visited|)
        decreases |q| - |visited|
      {
        RankOfElement(q, |visited|);
        var next := Next(current);
        visited := visited + [current.slot];
        current := next;
      }
    }

    /** The first entry whose key is not less than `key`. */
    method LowerBound(key: K) returns (found: Link)
      requires Valid()
      ensures exists k: nat :: FirstNotLow(nodes[..], less, key, false, Inorder(tree), k, found)
    {
      var current := root;
      found := Null;
      ghost var c, t := Top, tree;
      while current != Null
        invariant Plug(c, t) == tree && current == RootLink(t)
        invariant Divides(nodes[..], less, key, false, c) && found == LinkAt(After(c), 0)
        decreases t
      {
        FocusAt(nodes[..], root, Slots(tree), c, t);
        if less(nodes[current.slot].entry.value.0, key) {
          DivideRight(nodes[..], less, key, false, c, t);
          current := nodes[current.slot].right;
          c, t := Under(false, t.slot, t.left, c), t.right;
        } else {
          DivideLeft(nodes[..], less, key, false, c, t);
          found := current;
          current := nodes[current.slot].left;
          c, t := Under(true, t.slot, t.right, c), t.left;
        }
      }
      DividesAtLeaf(nodes[..], less, key, false, c);
      assert FirstNotLow(nodes[..], less, key, false, Inorder(tree), |Before(c)|, found);
    }

    /** The first entry whose key is greater than `key`. */
    method UpperBound(key: K) returns (found: Link)
      requires Valid()
      ensures exists k: nat :: FirstNotLow(nodes[..], less, key, true, Inorder(tree), k, found)
    {
      var current := root;
      found := Null;
      ghost var c, t := Top, tree;
      while current != Null
        invariant Plug(c, t) == tree && current == RootLink(t)
        invariant Divides(nodes[..], less, key, true, c) && found == LinkAt(After(c), 0)
        decreases t
      {
        FocusAt(nodes[..], root, Slots(tree), c, t);
        if less(key, nodes[current.slot].entry.value.0) {
          DivideLeft(nodes[..], less, key, true, c, t);
          found := current;
          current := nodes[current.slot].left;
          c, t := Under(true, t.slot, t.right, c), t.left;
        } else {
          DivideRight(nodes[..], less, key, true, c, t);
          current := nodes[current.slot].right;
          c, t := Under(false, t.slot, t.left, c), t.right;
        }
      }
      DividesAtLeaf(nodes[..], less, key, true, c);
      assert FirstNotLow(nodes[..], less, key, true, Inorder(tree), |Before(c)|, found);
    }

    /**
      Erases the node of an iterator and returns an iterator to the next key.  The successor is read
      off before any relinking and still is the right node afterwards.
     */
    method EraseAt(position: Link) returns (next: Link)
      requires Valid() && (position.To? ==> position.slot in Slots(tree))
      modifies this, nodes
      ensures Valid()
      ensures position == Null ==> next == Null && contents == old(contents) && Inorder(tree) == old(Inorder(tree))
      ensures position.To? ==>
        position.slot in old(Inorder(tree)) && next == LinkAt(Inorder(tree), old(Rank(Inorder(tree), position.slot)))
      ensures position.To? ==>
        old(Live(nodes[..], position.slot)) && contents == old(contents - {KeyOf(nodes[..], position.slot)})
      ensures Slots(tree) <= old(Slots(tree)) && Unmoved(old(nodes[..]), nodes[..], Slots(tree))
    {
      hide Valid, Sound, Inorder, LinkAt, Slots, Unmoved;
      WalkableTree();
      ghost var q := Inorder(tree);
      if position == Null {
        return Null;
      }
      next := Next(position);
      var a, b := EraseNode(position.slot);
      NextAfterErase(q, a, position.slot, b);
    }

    /**
      The loop releases nodes while it walks; once it climbs from a right child it meets released
      links and stops early.  It always ends, and the pool is rebuilt from scratch after it.
     */
    method Clear()
      requires Valid()
      modifies this, nodes
      ensures Valid() && contents == map[] && tree == Leaf && size == 0
      ensures free == seq(nodes.Length, k => k)
    {
      WalkableTree();
      assert 0 < nodes.Length < SIZE_LIMIT && StrictWeakOrder(less);
      hide Valid, StrictWeakOrder, Walkable;
      var current := Begin();
      ReleaseAll(current);
      Reset();
    }

    /** The empty tree, with the pool rebuilt. */
    method Reset()
      requires 0 < nodes.Length < SIZE_LIMIT && StrictWeakOrder(less)
      modifies this, nodes
      ensures Valid() && contents == map[] && tree == Leaf && size == 0
      ensures free == seq(nodes.Length, k => k)
    {
      hide StrictWeakOrder, FreeList;
      root := Null;
      size := 0;
      tree, contents := Leaf, map[];
      InitialisePool();
      SoundEmpty(nodes[..], less, freeHead, free);
    }

    method ReleaseAll(first: Link)
      requires Walkable(nodes[..], root, tree) && first == LinkAt(Inorder(tree), 0)
      modifies this`freeHead, this`size, nodes
    {
      ghost var s0, q := nodes[..], Inorder(tree);
      BehindStart(s0, root, tree);
      assert NoRepeats(q);
      var current := first;
      ghost var k, astray := 0, false;
      hide Walkable, NoRepeats, Inorder, Behind;
      while current != Null
        invariant nodes.Length == |s0|
        invariant !astray ==> Behind(s0, nodes[..], q, k) && current == LinkAt(q, k)
        invariant astray && current.To? ==>
          current.slot < nodes.Length && nodes[current.slot].right == Null && nodes[current.slot].parent == Null
        decreases if astray then (if current.To? then 1 else 0) else 2 + |q| - k
      {
        ghost var c, r := Top, Leaf;
        if !astray {
          var (at, t) := Locate(tree, q[k]);
          c, r := at, t.right;
          StepBehind(s0, nodes[..], root, tree, c, t.left, q[k], r, k);
          BehindRelease(s0, nodes[..], q, k, Cell(freeHead, Null, Null, 0, None));
        }
        var next := Successor(current, c, r);
        astray := astray || (r.Leaf? && c.Under? && !c.isLeft);
        ReleaseNode(current.slot);
        k := k + 1;
        current := next;
      }
    }
  }
}
