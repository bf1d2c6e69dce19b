/** Walking along a tree through its links: ranks in symmetric order, and climbing from a node. */
module AvlWalk {
  import opened Basics
  import opened PoolLinks
  import opened AvlShape
  import opened AvlPool
  import opened AvlKeys

  function LastLink(q: seq<nat>): Link {
    LinkAt(q, |q| - 1)
  }

  /** Strictly ascending keys leave no room for a slot to occur twice. */
  lemma {:induction false} AscendingNoRepeats<K(!new), V>(s: seq<Cell<K, V>>, less: (K, K) -> bool, q: seq<nat>)
    requires StrictWeakOrder(less) && Ascending(s, less, q)
    ensures NoRepeats(q)
  {
    forall j, k | 0 <= j < k < |q| ensures q[j] != q[k] { assert KeyLess(s, less, q[j], q[k]); }
  }

  /** A node sits between what precedes it in its context and left subtree, and the rest. */
  lemma {:induction false} RankOfNode(c: Context, l: Tree, i: nat, r: Tree)
    requires NoRepeats(Inorder(Plug(c, Branch(l, i, r))))
    ensures var q := Inorder(Plug(c, Branch(l, i, r))); var k := |Before(c)| + |Inorder(l)|;
      && q == (Before(c) + Inorder(l)) + [i] + (Inorder(r) + After(c))
      && i in q && Rank(q, i) == k
      && LinkAt(q, k + 1) == LinkAt(Inorder(r) + After(c), 0)
      && LinkAt(q, k - 1) == LinkAt(Before(c) + Inorder(l), k - 1)
  {
    EraseOrder(c, l, i, r);
    var q := Inorder(Plug(c, Branch(l, i, r)));
    var a := Before(c) + Inorder(l);
    assert q[|a|] == i;
    RankOfElement(q, |a|);
  }

  /** The slot after an erased one moves into its position. */
  lemma {:induction false} NextAfterErase(q: seq<nat>, a: seq<nat>, i: nat, b: seq<nat>)
    requires q == a + [i] + b && NoRepeats(q)
    ensures i in q && LinkAt(q, Rank(q, i) + 1) == LinkAt(a + b, Rank(q, i))
  {
    assert q[|a|] == i;
    RankOfElement(q, |a|);
  }

  // ----- climbing -----

  /**
    From node `i`, parent links lead along `c` as long as each node is the right child of the next.
    Nothing is said about the nodes above the first one that is not.
   */
  ghost predicate Climbs<K, V>(s: seq<Cell<K, V>>, i: nat, c: Context)
    decreases c
  {
    && i < |s| && s[i].parent == Above(c, Null)
    && (c.Under? ==> c.parent < |s| && (s[c.parent].right == To(i) ==> Climbs(s, c.parent, c.up)))
  }

  /** Where that climb stops. */
  ghost function ClimbEnd<K, V>(s: seq<Cell<K, V>>, i: nat, c: Context): Link
    requires Climbs(s, i, c)
    decreases c
  {
    if c.Top? then Null
    else if s[c.parent].right == To(i) then ClimbEnd(s, c.parent, c.up)
    else To(c.parent)
  }

  /** In an intact tree the climb ends at the first node after the subtree of `i`. */
  lemma {:induction false} ClimbReachesAfter<K, V>(s: seq<Cell<K, V>>, i: nat, c: Context)
    requires Hangs(s, c, To(i), Null) && i < |s| && s[i].parent == Above(c, Null) && i !in CSlots(c)
    ensures Climbs(s, i, c) && ClimbEnd(s, i, c) == LinkAt(After(c), 0)
    decreases c
  {
    if c.Under? {
      if c.isLeft {
        assert s[c.parent].right == RootLink(c.sibling);
      } else {
        ClimbReachesAfter(s, c.parent, c.up);
      }
    }
  }

  /** An intact tree in which every slot occurs once. */
  ghost predicate Walkable<K, V>(s: seq<Cell<K, V>>, root: Link, tree: Tree) {
    Focused(s, root, Slots(tree), Top, tree) && NoRepeats(Inorder(tree))
  }

  lemma {:induction false} SuccessorIsNext<K, V>(s: seq<Cell<K, V>>, root: Link, tree: Tree, c: Context, l: Tree,
          i: nat, r: Tree)
    requires tree == Plug(c, Branch(l, i, r)) && Walkable(s, root, tree)
    ensures i < |s| && s[i].right == RootLink(r) && Rep(s, r, To(i)) && Climbs(s, i, c)
    ensures i in Inorder(tree)
    ensures LinkAt(Inorder(tree), Rank(Inorder(tree), i) + 1)
      == if r.Branch? then LinkAt(Inorder(r), 0) else ClimbEnd(s, i, c)
  {
    hide Focused, Rep, Hangs, Climbs, ClimbEnd, Slots, CSlots, Inorder, Before, After, Plug;
    FocusAt(s, root, Slots(tree), c, Branch(l, i, r));
    NodeInFocus(s, root, Slots(tree), c, l, i, r);
    ClimbReachesAfter(s, i, c);
    RankOfNode(c, l, i, r);
    FirstOfRest(r, c);
  }

  lemma {:induction false} FirstOfRest(r: Tree, c: Context)
    ensures LinkAt(Inorder(r) + After(c), 0) == if r.Branch? then LinkAt(Inorder(r), 0) else LinkAt(After(c), 0)
  {
    assert r.Leaf? ==> Inorder(r) + After(c) == After(c);
  }

  lemma {:induction false} PredecessorIsPrevious<K, V>(s: seq<Cell<K, V>>, root: Link, tree: Tree, c: Context, l: Tree,
          i: nat, r: Tree)
    requires tree == Plug(c, Branch(l, i, r)) && Walkable(s, root, tree)
    ensures Focused(s, root, Slots(tree), c, Branch(l, i, r))
    ensures i in Inorder(tree)
    ensures LinkAt(Inorder(tree), Rank(Inorder(tree), i) - 1) == LastLink(Before(c) + Inorder(l))
  {
    hide Focused, Rep, Hangs, Slots, CSlots, Plug, Inorder, Before, After;
    FocusAt(s, root, Slots(tree), c, Branch(l, i, r));
    RankOfNode(c, l, i, r);
  }

  /** `--` undoes `++` and `++` undoes `--` at every live node that has a neighbour on that side. */
  lemma {:induction false} PreviousUndoesNext(q: seq<nat>, i: nat)
    requires NoRepeats(q) && i in q
    ensures var next := LinkAt(q, Rank(q, i) + 1);
      next.To? ==> next.slot in q && LinkAt(q, Rank(q, next.slot) - 1) == To(i)
    ensures var previous := LinkAt(q, Rank(q, i) - 1);
      previous.To? ==> previous.slot in q && LinkAt(q, Rank(q, previous.slot) + 1) == To(i)
  {
    var k := Rank(q, i);
    if k + 1 < |q| { RankOfElement(q, k + 1); }
    if k > 0 { RankOfElement(q, k - 1); }
  }

  // ----- bounds -----

  /** Slot `i` comes before the bound: its key is below `key`, or not above it for the upper bound. */
  ghost predicate Low<K, V>(s: seq<Cell<K, V>>, less: (K, K) -> bool, key: K, upper: bool, i: nat) {
    Live(s, i) && if upper then !less(key, KeyOf(s, i)) else less(KeyOf(s, i), key)
  }

  /** The bound of `key` lies in the hole of `c`. */
  ghost predicate Divides<K, V>(s: seq<Cell<K, V>>, less: (K, K) -> bool, key: K, upper: bool, c: Context) {
    && (forall i :: i in Before(c) ==> Low(s, less, key, upper, i))
    && (forall i :: i in After(c) ==> Live(s, i) && !Low(s, less, key, upper, i))
  }

  lemma {:induction false} DivideRight<K(!new), V>(s: seq<Cell<K, V>>, less: (K, K) -> bool, key: K, upper: bool,
          c: Context, t: Tree)
    requires StrictWeakOrder(less) && t.Branch? && Ascending(s, less, Inorder(Plug(c, t)))
    requires Divides(s, less, key, upper, c) && Low(s, less, key, upper, t.slot)
    ensures Divides(s, less, key, upper, Under(false, t.slot, t.left, c))
  {
    AroundNode(s, less, c, t.left, t.slot, t.right);
    forall x | x in Before(Under(false, t.slot, t.left, c)) ensures Low(s, less, key, upper, x) {
      assert x == t.slot || x in Before(c) + Inorder(t.left);
      if x != t.slot { assert KeyLess(s, less, x, t.slot); }
    }
  }

  lemma {:induction false} DivideLeft<K(!new), V>(s: seq<Cell<K, V>>, less: (K, K) -> bool, key: K, upper: bool,
          c: Context, t: Tree)
    requires StrictWeakOrder(less) && t.Branch? && Ascending(s, less, Inorder(Plug(c, t)))
    requires Divides(s, less, key, upper, c) && Live(s, t.slot) && !Low(s, less, key, upper, t.slot)
    ensures Divides(s, less, key, upper, Under(true, t.slot, t.right, c))
  {
    AroundNode(s, less, c, t.left, t.slot, t.right);
    forall x | x in After(Under(true, t.slot, t.right, c)) ensures Live(s, x) && !Low(s, less, key, upper, x) {
      assert x == t.slot || x in Inorder(t.right) + After(c);
      if x != t.slot { assert KeyLess(s, less, t.slot, x); }
    }
  }

  /** `found` is the first slot of the enumeration `q` that is not before the bound. */
  ghost predicate FirstNotLow<K, V>(s: seq<Cell<K, V>>, less: (K, K) -> bool, key: K, upper: bool, q: seq<nat>, k: nat,
          found: Link) {
    && k <= |q| && found == LinkAt(q, k)
    && (forall j :: 0 <= j < k ==> Low(s, less, key, upper, q[j]))
    && (forall j :: k <= j < |q| ==> Live(s, q[j]) && !Low(s, less, key, upper, q[j]))
  }

  lemma {:induction false} DividesAtLeaf<K, V>(s: seq<Cell<K, V>>, less: (K, K) -> bool, key: K, upper: bool,
          c: Context)
    requires Divides(s, less, key, upper, c)
    ensures FirstNotLow(s, less, key, upper, Inorder(Plug(c, Leaf)), |Before(c)|, LinkAt(After(c), 0))
  {
    PlugLeaf(c);
    var q := Inorder(Plug(c, Leaf));
    forall j | 0 <= j < |q| ensures if j < |Before(c)| then q[j] in Before(c) else q[j] in After(c) {
      if j < |Before(c)| { assert q[j] == Before(c)[j]; } else { assert q[j] == After(c)[j - |Before(c)|]; }
    }
  }

  // ----- destroying walk -----

  /**
    `clear` walks along the tree while it releases the nodes behind it.  The first `k` slots of the
    enumeration have lost their right and parent links; the others are as they were in `s0`.
   */
  ghost predicate Behind<K, V>(s0: seq<Cell<K, V>>, s: seq<Cell<K, V>>, q: seq<nat>, k: nat) {
    && |s| == |s0| && k <= |q|
    && (forall j :: 0 <= j < k ==> q[j] < |s| && s[q[j]].right == Null && s[q[j]].parent == Null)
    && (forall j :: k <= j < |q| ==> q[j] < |s| && s[q[j]] == s0[q[j]])
  }

  /**
    The climb from a node without right child, in the half-released tree: it finds the next node if
    the node is a left child or the root; otherwise it stops at the parent, already released.
   */
  lemma {:induction false} ClimbBehind<K, V>(s0: seq<Cell<K, V>>, s: seq<Cell<K, V>>, root: Link, w: set<nat>,
          c: Context, l: Tree, i: nat)
    requires var q := Inorder(Plug(c, Branch(l, i, Leaf)));
      Focused(s0, root, w, c, Branch(l, i, Leaf)) && NoRepeats(q) && Behind(s0, s, q, |Before(c)| + |Inorder(l)|)
    ensures Climbs(s, i, c)
    ensures c.Under? && !c.isLeft ==>
      ClimbEnd(s, i, c) == To(c.parent) && c.parent != i && s[c.parent].right == Null && s[c.parent].parent == Null
    ensures c.Top? || c.isLeft ==> ClimbEnd(s, i, c) == LinkAt(After(c), 0)
  {
    var q := Inorder(Plug(c, Branch(l, i, Leaf)));
    var k := |Before(c)| + |Inorder(l)|;
    RankOfNode(c, l, i, Leaf);
    assert q[k] == i;
    if c.Under? {
      if c.isLeft {
        assert q[k + 1] == After(c)[0] == c.parent;
      } else {
        var b := |Before(c)| - 1;
        assert q[b] == Before(c)[b] == c.parent;
      }
    }
  }

  /** What one turn of that walk may rely on, and where it goes. */
  lemma {:induction false} StepBehind<K, V>(s0: seq<Cell<K, V>>, s: seq<Cell<K, V>>, root: Link, tree: Tree, c: Context,
          l: Tree, i: nat, r: Tree, k: nat)
    requires tree == Plug(c, Branch(l, i, r)) && Walkable(s0, root, tree)
    requires Behind(s0, s, Inorder(tree), k) && k < |Inorder(tree)| && Inorder(tree)[k] == i
    ensures i < |s| && s[i].right == RootLink(r) && Rep(s, r, To(i))
    ensures r.Branch? ==> LinkAt(Inorder(r), 0) == LinkAt(Inorder(tree), k + 1)
    ensures r.Leaf? ==> Climbs(s, i, c)
    ensures r.Leaf? && c.Under? && !c.isLeft ==>
      && ClimbEnd(s, i, c) == To(c.parent) && c.parent != i && c.parent < |s|
      && s[c.parent].right == Null && s[c.parent].parent == Null
    ensures r.Leaf? && (c.Top? || c.isLeft) ==> ClimbEnd(s, i, c) == LinkAt(Inorder(tree), k + 1)
  {
    var q := Inorder(tree);
    FocusAt(s0, root, Slots(tree), c, Branch(l, i, r));
    RankOfNode(c, l, i, r);
    RankOfElement(q, k);
    assert s[q[k]] == s0[q[k]];
    assert LinkAt(q, k + 1) == LinkAt(Inorder(r) + After(c), 0);
    if r.Leaf? {
      assert Inorder(r) + After(c) == After(c);
      ClimbBehind(s0, s, root, Slots(tree), c, l, i);
    } else {
      assert q[k + 1..] == Inorder(r) + After(c);
      RightBehind(s0, s, q, k, r, i);
    }
  }

  /** A right subtree that lies ahead of the walk is still in place. */
  lemma {:induction false} RightBehind<K, V>(s0: seq<Cell<K, V>>, s: seq<Cell<K, V>>, q: seq<nat>, k: nat, r: Tree,
          i: nat)
    requires Rep(s0, r, To(i)) && Behind(s0, s, q, k) && k < |q| && Inorder(r) <= q[k + 1..]
    ensures Rep(s, r, To(i))
  {
    InorderSlots(r);
    forall j | j in Slots(r) && j < |s| ensures s[j] == s0[j] {
      var x :| 0 <= x < |Inorder(r)| && Inorder(r)[x] == j;
      assert q[k + 1 + x] == q[k + 1..][x] == j;
    }
    RepFrame(s0, s, r, To(i), To(i));
  }

  lemma {:induction false} BehindStart<K, V>(s: seq<Cell<K, V>>, root: Link, tree: Tree)
    requires Walkable(s, root, tree)
    ensures Behind(s, s, Inorder(tree), 0)
    ensures forall i :: i in Inorder(tree) ==> i in Slots(tree)
  {
    RepSlots(s, tree, Null);
    InorderSlots(tree);
    var q := Inorder(tree);
    forall j | 0 <= j < |q| ensures q[j] < |s| { assert q[j] in q; }
  }

  lemma {:induction false} BehindRelease<K, V>(s0: seq<Cell<K, V>>, s: seq<Cell<K, V>>, q: seq<nat>, k: nat,
          cell: Cell<K, V>)
    requires NoRepeats(q) && Behind(s0, s, q, k) && k < |q| && cell.right == Null && cell.parent == Null
    ensures q[k] < |s| && Behind(s0, s[q[k] := cell], q, k + 1)
  {
  }
}
