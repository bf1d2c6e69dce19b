/**
  Pure shape of an AVL tree whose nodes are pool slots, the contexts (zippers) that surround a
  position inside such a tree, and the pure form of the upward rebalancing walk.
 */
module AvlShape {
  import opened Arithmetic

  datatype Tree = Leaf | Branch(left: Tree, slot: nat, right: Tree)

  /** A tree with one subtree missing.  `isLeft` tells on which side of `parent` the hole is. */
  datatype Context = Top | Under(isLeft: bool, parent: nat, sibling: Tree, up: Context)

  // ----- measures -----

  function H(t: Tree): nat {
    match t
    case Leaf => 0
    case Branch(l, _, r) => 1 + Max(H(l), H(r))
  }

  /** Going left or right as `path` says leads from the root to a node. */
  predicate Leads(t: Tree, path: seq<bool>) {
    t.Branch? && (path == [] || Leads(if path[0] then t.left else t.right, path[1..]))
  }

  /** The height is the number of nodes on the longest way down from the root. */
  lemma {:induction false} HeightIsLongest(t: Tree) returns (longest: seq<bool>)
    ensures forall path :: Leads(t, path) ==> |path| < H(t)
    ensures t.Branch? ==> Leads(t, longest) && |longest| + 1 == H(t)
    decreases t
  {
    longest := [];
    match t
    case Leaf =>
    case Branch(l, _, r) =>
      var left := HeightIsLongest(l);
      var right := HeightIsLongest(r);
      if H(l) > 0 || H(r) > 0 {
        longest := if H(l) >= H(r) then [true] + left else [false] + right;
        assert longest[1..] == if H(l) >= H(r) then left else right;
      }
  }

  function Size(t: Tree): nat {
    match t
    case Leaf => 0
    case Branch(l, _, r) => Size(l) + 1 + Size(r)
  }

  function Slots(t: Tree): set<nat> {
    match t
    case Leaf => {}
    case Branch(l, i, r) => Slots(l) + {i} + Slots(r)
  }

  function Inorder(t: Tree): seq<nat> {
    match t
    case Leaf => []
    case Branch(l, i, r) => Inorder(l) + [i] + Inorder(r)
  }

  function Join(isLeft: bool, t: Tree, p: nat, sibling: Tree): Tree {
    if isLeft then Branch(t, p, sibling) else Branch(sibling, p, t)
  }

  function Plug(c: Context, t: Tree): Tree {
    match c
    case Top => t
    case Under(isLeft, p, sibling, up) => Plug(up, Join(isLeft, t, p, sibling))
  }

  function CSlots(c: Context): set<nat> {
    match c
    case Top => {}
    case Under(_, p, sibling, up) => {p} + Slots(sibling) + CSlots(up)
  }

  function CSize(c: Context): nat {
    match c
    case Top => 0
    case Under(_, _, sibling, up) => 1 + Size(sibling) + CSize(up)
  }

  function Depth(c: Context): nat {
    match c
    case Top => 0
    case Under(_, _, _, up) => 1 + Depth(up)
  }

  /** The slots that come before (after) the hole in symmetric order. */
  function Before(c: Context): seq<nat> {
    match c
    case Top => []
    case Under(isLeft, p, sibling, up) => if isLeft then Before(up) else Before(up) + Inorder(sibling) + [p]
  }

  function After(c: Context): seq<nat> {
    match c
    case Top => []
    case Under(isLeft, p, sibling, up) => if isLeft then [p] + Inorder(sibling) + After(up) else After(up)
  }

  /** `inner` nested in the hole of `outer`. */
  function Append(inner: Context, outer: Context): Context {
    match inner
    case Top => outer
    case Under(isLeft, p, sibling, up) => Under(isLeft, p, sibling, Append(up, outer))
  }

  lemma {:induction false} PlugInorder(c: Context, t: Tree)
    ensures Inorder(Plug(c, t)) == Before(c) + Inorder(t) + After(c)
  {
    match c
    case Top =>
    case Under(isLeft, p, sibling, up) => PlugInorder(up, Join(isLeft, t, p, sibling));
  }

  lemma {:induction false} PlugSlots(c: Context, t: Tree)
    ensures Slots(Plug(c, t)) == CSlots(c) + Slots(t)
    ensures Size(Plug(c, t)) == CSize(c) + Size(t)
  {
    match c
    case Top =>
    case Under(isLeft, p, sibling, up) => PlugSlots(up, Join(isLeft, t, p, sibling));
  }

  lemma {:induction false} PlugLeaf(c: Context)
    ensures Slots(Plug(c, Leaf)) == CSlots(c) && Size(Plug(c, Leaf)) == CSize(c)
    ensures Inorder(Plug(c, Leaf)) == Before(c) + After(c)
  {
    PlugSlots(c, Leaf);
    PlugInorder(c, Leaf);
    assert Before(c) + [] + After(c) == Before(c) + After(c);
  }

  lemma {:induction false} ContextOrder(c: Context)
    ensures forall i :: i in Before(c) || i in After(c) ==> i in CSlots(c)
  {
    if c.Under? {
      InorderSlots(c.sibling);
      ContextOrder(c.up);
    }
  }

  lemma {:induction false} PlugAppend(inner: Context, outer: Context, t: Tree)
    ensures Plug(Append(inner, outer), t) == Plug(outer, Plug(inner, t))
  {
    match inner
    case Top =>
    case Under(isLeft, p, sibling, up) => PlugAppend(up, outer, Join(isLeft, t, p, sibling));
  }

  lemma {:induction false} AppendOrder(inner: Context, outer: Context)
    ensures Before(Append(inner, outer)) == Before(outer) + Before(inner)
    ensures After(Append(inner, outer)) == After(inner) + After(outer)
  {
    match inner
    case Top =>
    case Under(_, _, _, up) => AppendOrder(up, outer);
  }

  lemma {:induction false} AppendSlots(inner: Context, outer: Context)
    ensures CSlots(Append(inner, outer)) == CSlots(inner) + CSlots(outer)
    ensures CSize(Append(inner, outer)) == CSize(inner) + CSize(outer)
  {
    match inner
    case Top =>
    case Under(_, _, _, up) => AppendSlots(up, outer);
  }

  lemma {:induction false} InorderSlots(t: Tree)
    ensures |Inorder(t)| == Size(t)
    ensures forall i :: i in Inorder(t) <==> i in Slots(t)
  {
    match t
    case Leaf =>
    case Branch(l, _, r) => InorderSlots(l); InorderSlots(r);
  }

  lemma FirstOfLeft(t: Tree)
    requires t.Branch? && t.left.Branch?
    ensures |Inorder(t)| > 0 && |Inorder(t.left)| > 0 && Inorder(t)[0] == Inorder(t.left)[0]
  {
  }

  lemma {:induction false} FirstOfMinimum(path: Context, m: nat, sr: Tree)
    requires Before(path) == []
    ensures var q := Inorder(Plug(path, Branch(Leaf, m, sr))); q != [] && q[0] == m
  {
    PlugInorder(path, Branch(Leaf, m, sr));
  }

  // ----- balance -----

  predicate Balanced(t: Tree) {
    match t
    case Leaf => true
    case Branch(l, _, r) => Balanced(l) && Balanced(r) && -1 <= H(l) - H(r) <= 1
  }

  /** Every node of the context is balanced as long as the hole holds a tree of height `h`. */
  predicate CBalanced(c: Context, h: nat) {
    match c
    case Top => true
    case Under(_, _, sibling, up) =>
      Balanced(sibling) && -1 <= h - H(sibling) <= 1 && CBalanced(up, 1 + Max(h, H(sibling)))
  }

  lemma {:induction false} PlugBalanced(c: Context, t: Tree)
    ensures Balanced(Plug(c, t)) <==> Balanced(t) && CBalanced(c, H(t))
  {
    match c
    case Top =>
    case Under(isLeft, p, sibling, up) => PlugBalanced(up, Join(isLeft, t, p, sibling));
  }

  lemma {:induction false} CBalancedAppend(inner: Context, outer: Context, t: Tree)
    ensures CBalanced(Append(inner, outer), H(t)) <==> CBalanced(inner, H(t)) && CBalanced(outer, H(Plug(inner, t)))
  {
    match inner
    case Top =>
    case Under(isLeft, p, sibling, up) =>
      var joined := Join(isLeft, t, p, sibling);
      assert H(joined) == 1 + Max(H(t), H(sibling)) && Plug(inner, t) == Plug(up, joined);
      assert Append(inner, outer) == Under(isLeft, p, sibling, Append(up, outer));
      hide H, Max, Balanced, Plug, Append;
      CBalancedAppend(up, outer, joined);
  }

  function RotateLeft(t: Tree): Tree
    requires t.Branch? && t.right.Branch?
  {
    Branch(Branch(t.left, t.slot, t.right.left), t.right.slot, t.right.right)
  }

  function RotateRight(t: Tree): Tree
    requires t.Branch? && t.left.Branch?
  {
    Branch(t.left.left, t.left.slot, Branch(t.left.right, t.slot, t.right))
  }

  /** What one step of the walk makes of a node whose subtrees are `l` and `r`. */
  function Balance(l: Tree, i: nat, r: Tree): Tree {
    if H(l) > H(r) + 1 then
      RotateRight(Branch(if H(l.left) < H(l.right) then RotateLeft(l) else l, i, r))
    else if H(r) > H(l) + 1 then
      RotateLeft(Branch(l, i, if H(r.left) > H(r.right) then RotateRight(r) else r))
    else
      Branch(l, i, r)
  }

  /** The step above, at the node that holds the hole of `c` filled with `t`. */
  function Fixed(c: Context, t: Tree): Tree
    requires c.Under?
  {
    if c.isLeft then Balance(t, c.parent, c.sibling) else Balance(c.sibling, c.parent, t)
  }

  /** The whole walk from the hole to the root. */
  function RebalanceUp(c: Context, t: Tree): Tree {
    if c.Top? then t else RebalanceUp(c.up, Fixed(c, t))
  }

  lemma {:induction false} RotationKeepsOrder(a: Tree, p: nat, b: Tree, q: nat, d: Tree)
    ensures Inorder(Branch(Branch(a, p, b), q, d)) == Inorder(Branch(a, p, Branch(b, q, d)))
  {
    var (x, y, z) := (Inorder(a), Inorder(b), Inorder(d));
    assert Inorder(Branch(b, q, d)) == y + [q] + z;
    assert (x + [p] + y) + [q] + z == x + [p] + (y + [q] + z);
  }

  /** Rotations keep symmetric order, whatever the heights are. */
  lemma {:induction false} BalanceKeepsOrder(l: Tree, i: nat, r: Tree)
    ensures Inorder(Balance(l, i, r)) == Inorder(l) + [i] + Inorder(r)
    ensures Slots(Balance(l, i, r)) == Slots(l) + {i} + Slots(r)
    ensures Size(Balance(l, i, r)) == Size(l) + 1 + Size(r)
    ensures Balance(l, i, r).Branch?
  {
    if H(l) > H(r) + 1 {
      var l' := l;
      if H(l.left) < H(l.right) {
        l' := RotateLeft(l);
        RotationKeepsOrder(l.left, l.slot, l.right.left, l.right.slot, l.right.right);
      }
      RotationKeepsOrder(l'.left, l'.slot, l'.right, i, r);
    } else if H(r) > H(l) + 1 {
      var r' := r;
      if H(r.left) > H(r.right) {
        r' := RotateRight(r);
        RotationKeepsOrder(r.left.left, r.left.slot, r.left.right, r.slot, r.right);
      }
      RotationKeepsOrder(l, i, r'.left, r'.slot, r'.right);
    }
  }

  lemma {:induction false} LeftHeavyRestored(l: Tree, i: nat, r: Tree)
    requires Balanced(l) && Balanced(r) && H(l) == H(r) + 2
    ensures Balanced(Balance(l, i, r)) && H(l) <= H(Balance(l, i, r)) <= 1 + H(l)
  {
    var Branch(a, q, b) := l;
    if H(a) < H(b) {
      var Branch(x, m, y) := b;
      assert Balance(l, i, r) == Branch(Branch(a, q, x), m, Branch(y, i, r));
    } else {
      assert Balance(l, i, r) == Branch(a, q, Branch(b, i, r));
    }
  }

  lemma {:induction false} RightHeavyRestored(l: Tree, i: nat, r: Tree)
    requires Balanced(l) && Balanced(r) && H(r) == H(l) + 2
    ensures Balanced(Balance(l, i, r)) && H(r) <= H(Balance(l, i, r)) <= 1 + H(r)
  {
    var Branch(b, q, d) := r;
    if H(b) > H(d) {
      var Branch(x, m, y) := b;
      assert Balance(l, i, r) == Branch(Branch(l, i, x), m, Branch(y, q, d));
    } else {
      assert Balance(l, i, r) == Branch(Branch(l, i, b), q, d);
    }
  }

  /** A height difference of at most two is repaired, and the height changes by at most one. */
  lemma {:induction false} BalanceRestores(l: Tree, i: nat, r: Tree)
    requires Balanced(l) && Balanced(r) && -2 <= H(l) - H(r) <= 2
    ensures Balanced(Balance(l, i, r))
    ensures Max(H(l), H(r)) <= H(Balance(l, i, r)) <= 1 + Max(H(l), H(r))
    ensures -1 <= H(l) - H(r) <= 1 ==> Balance(l, i, r) == Branch(l, i, r)
  {
    if H(l) > H(r) + 1 {
      LeftHeavyRestored(l, i, r);
    } else if H(r) > H(l) + 1 {
      RightHeavyRestored(l, i, r);
    }
  }

  /**
    The walk may continue at `c` with `t` in the hole: everything is balanced but possibly the node
    above the hole, which is off by at most two, and whose repaired height is within one of the
    height `h` for which the rest of the context is balanced.
   */
  predicate Repairable(c: Context, t: Tree, h: nat) {
    && Balanced(t)
    && (c.Under? ==>
          && Balanced(c.sibling)
          && -2 <= H(t) - H(c.sibling) <= 2
          && CBalanced(c.up, h)
          && -1 <= H(Fixed(c, t)) - h <= 1)
  }

  function HeightAbove(c: Context, h: nat): nat {
    if c.Top? then h else 1 + Max(h, H(c.sibling))
  }

  predicate NeedsRotation(c: Context, t: Tree) {
    c.Under? && !(-1 <= H(t) - H(c.sibling) <= 1)
  }

  lemma {:induction false} FixedHeight(c: Context, t: Tree)
    requires c.Under? && Balanced(t) && Balanced(c.sibling) && -2 <= H(t) - H(c.sibling) <= 2
    ensures Balanced(Fixed(c, t))
    ensures Max(H(t), H(c.sibling)) <= H(Fixed(c, t)) <= 1 + Max(H(t), H(c.sibling))
    ensures !NeedsRotation(c, t) ==> Fixed(c, t) == Join(c.isLeft, t, c.parent, c.sibling)
  {
    if c.isLeft { BalanceRestores(t, c.parent, c.sibling); } else { BalanceRestores(c.sibling, c.parent, t); }
  }

  lemma {:induction false} RepairableStart(c: Context, t: Tree, h: nat)
    requires Balanced(t) && CBalanced(c, h) && -1 <= H(t) - h <= 1
    ensures Repairable(c, t, HeightAbove(c, h))
  {
    if c.Under? {
      FixedHeight(c, t);
      if !NeedsRotation(c, t) {
        assert H(Fixed(c, t)) == 1 + Max(H(t), H(c.sibling));
      }
    }
  }

  lemma {:induction false} FixedBalanced(c: Context, t: Tree, h: nat)
    requires c.Under? && Repairable(c, t, h)
    ensures Balanced(Fixed(c, t))
    ensures Repairable(c.up, Fixed(c, t), HeightAbove(c.up, h))
  {
    FixedHeight(c, t);
    RepairableStart(c.up, Fixed(c, t), h);
  }

  /** A node that was rotated ends up as a child of the new subtree root. */
  lemma {:induction false} RotatedBelow(c: Context, t: Tree)
    requires NeedsRotation(c, t)
    ensures var b := Fixed(c, t);
      b.Branch? && ((b.left.Branch? && b.left.slot == c.parent) || (b.right.Branch? && b.right.slot == c.parent))
  {
  }

  /**
    Where the walk stands after one turn: at the parent, or, when a rotation took place, once more
    at the new root of the subtree just repaired.
   */
  function NextContext(c: Context, t: Tree): Context
    requires c.Under? && Fixed(c, t).Branch?
  {
    var b := Fixed(c, t);
    if NeedsRotation(c, t) then Under(true, b.slot, b.right, c.up) else c.up
  }

  function NextTree(c: Context, t: Tree): Tree
    requires c.Under? && Fixed(c, t).Branch?
  {
    var b := Fixed(c, t);
    if NeedsRotation(c, t) then b.left else b
  }

  function NextHeight(c: Context, t: Tree, h: nat): nat
    requires c.Under?
  {
    if NeedsRotation(c, t) then h else HeightAbove(c.up, h)
  }

  /** The second visit finds the node balanced, so every turn brings the walk closer to its result. */
  lemma {:induction false} WalkStep(c: Context, t: Tree, h: nat)
    requires c.Under? && Repairable(c, t, h)
    ensures Fixed(c, t).Branch?
    ensures var (c', t') := (NextContext(c, t), NextTree(c, t));
      && Repairable(c', t', NextHeight(c, t, h))
      && RebalanceUp(c', t') == RebalanceUp(c, t)
      && CSize(c') + Size(t') == CSize(c) + Size(t)
      && (Depth(c') < Depth(c) || (Depth(c') == Depth(c) && NeedsRotation(c, t) && !NeedsRotation(c', t')))
  {
    FixedOrder(c, t);
    FixedBalanced(c, t, h);
    if NeedsRotation(c, t) {
      var b := Fixed(c, t);
      var c' := NextContext(c, t);
      FixedHeight(c', b.left);
      assert Fixed(c', b.left) == b;
    }
  }

  lemma {:induction false} RebalanceUpBalanced(c: Context, t: Tree, h: nat)
    requires Repairable(c, t, h)
    ensures Balanced(RebalanceUp(c, t))
    decreases c
  {
    if c.Under? {
      FixedBalanced(c, t, h);
      RebalanceUpBalanced(c.up, Fixed(c, t), HeightAbove(c.up, h));
    }
  }

  lemma {:induction false} TakeUp(c: Context, t: Tree, f: Tree)
    requires c.Under? && Inorder(f) == Inorder(Join(c.isLeft, t, c.parent, c.sibling))
    ensures Before(c.up) + Inorder(f) + After(c.up) == Before(c) + Inorder(t) + After(c)
  {
    var (x, y, z, w) := (Before(c.up), Inorder(t), Inorder(c.sibling), After(c.up));
    if c.isLeft {
      assert x + (y + [c.parent] + z) + w == x + y + ([c.parent] + z + w);
    } else {
      assert x + (z + [c.parent] + y) + w == (x + z + [c.parent]) + y + w;
    }
  }

  lemma {:induction false} FixedOrder(c: Context, t: Tree)
    requires c.Under?
    ensures Inorder(Fixed(c, t)) == Inorder(Join(c.isLeft, t, c.parent, c.sibling))
    ensures Slots(Fixed(c, t)) == Slots(t) + {c.parent} + Slots(c.sibling)
    ensures Size(Fixed(c, t)) == Size(t) + 1 + Size(c.sibling)
    ensures Fixed(c, t).Branch?
  {
    if c.isLeft {
      BalanceKeepsOrder(t, c.parent, c.sibling);
    } else {
      BalanceKeepsOrder(c.sibling, c.parent, t);
    }
  }

  lemma {:induction false} RebalanceUpOrder(c: Context, t: Tree)
    ensures Inorder(RebalanceUp(c, t)) == Before(c) + Inorder(t) + After(c)
    ensures Slots(RebalanceUp(c, t)) == CSlots(c) + Slots(t)
    ensures Size(RebalanceUp(c, t)) == CSize(c) + Size(t)
    decreases c
  {
    if c.Under? {
      FixedOrder(c, t);
      TakeUp(c, t, Fixed(c, t));
      RebalanceUpOrder(c.up, Fixed(c, t));
    }
  }

  // ----- removal -----

  /** The node `slot` of the tree, seen from its place in it. */
  ghost function Locate(t: Tree, slot: nat): (at: (Context, Tree))
    requires slot in Slots(t)
    ensures Plug(at.0, at.1) == t && at.1.Branch? && at.1.slot == slot
    decreases t
  {
    if t.slot == slot then (Top, t)
    else if slot in Slots(t.left) then
      var (c, sub) := Locate(t.left, slot);
      PlugAppend(c, Under(true, t.slot, t.right, Top), sub);
      (Append(c, Under(true, t.slot, t.right, Top)), sub)
    else
      var (c, sub) := Locate(t.right, slot);
      PlugAppend(c, Under(false, t.slot, t.left, Top), sub);
      (Append(c, Under(false, t.slot, t.left, Top)), sub)
  }

  /** `t'` in `c'` is what is left, in the same order, of a node in the hole of `c` with subtrees `l` and `r`. */
  ghost predicate Dropped(c: Context, l: Tree, r: Tree, c': Context, t': Tree) {
    && Before(c') + Inorder(t') + After(c') == (Before(c) + Inorder(l)) + (Inorder(r) + After(c))
    && CSlots(c') + Slots(t') == CSlots(c) + Slots(l) + Slots(r)
    && CSize(c') + Size(t') == CSize(c) + Size(l) + Size(r)
  }

  /** A node with at most one child gives its place to that child. */
  lemma {:induction false} DropSimple(c: Context, l: Tree, r: Tree)
    requires l.Leaf? || r.Leaf?
    ensures Dropped(c, l, r, c, if l.Leaf? then r else l)
  {
  }

  lemma {:induction false} DropSimpleRepairable(c: Context, l: Tree, item: nat, r: Tree)
    requires (l.Leaf? || r.Leaf?) && Balanced(Plug(c, Branch(l, item, r)))
    ensures var x := if l.Leaf? then r else l; Repairable(c, x, HeightAbove(c, 1 + H(x)))
  {
    PlugBalanced(c, Branch(l, item, r));
    RepairableStart(c, if l.Leaf? then r else l, H(Branch(l, item, r)));
  }

  /** When the child becomes the root of the whole tree the walk starts, and idles, at the child. */
  lemma {:induction false} DropToRoot(l: Tree, item: nat, r: Tree)
    requires l.Leaf? || r.Leaf?
    requires Balanced(Branch(l, item, r)) && !(l.Leaf? && r.Leaf?)
    ensures var x := if l.Leaf? then r else l; var c' := Under(true, x.slot, x.right, Top);
      Dropped(Top, l, r, c', x.left) && Repairable(c', x.left, HeightAbove(c', H(x.left)))
  {
    var x := if l.Leaf? then r else l;
    var c' := Under(true, x.slot, x.right, Top);
    assert Inorder(l) + Inorder(r) == Inorder(x);
    assert Before(c') + Inorder(x.left) + After(c') == Inorder(x);
    RepairableStart(c', x.left, H(x.left));
  }

  /** A node with two children gives its place to its in-order successor, the leftmost node of `r`. */
  lemma {:induction false} DropTwo(c: Context, l: Tree, r: Tree, path: Context, succ: nat, sr: Tree)
    requires r == Plug(path, Branch(Leaf, succ, sr)) && Before(path) == []
    ensures Dropped(c, l, r, Append(path, Under(false, succ, l, c)), sr)
  {
    var m := Branch(Leaf, succ, sr);
    var outer := Under(false, succ, l, c);
    AppendSlots(path, outer);
    PlugSlots(path, m);
    assert Slots(m) == {succ} + Slots(sr);
    DropTwoOrder(c, l, path, succ, sr);
  }

  lemma {:induction false} DropTwoOrder(c: Context, l: Tree, path: Context, succ: nat, sr: Tree)
    requires Before(path) == []
    ensures var c' := Append(path, Under(false, succ, l, c));
      Before(c') + Inorder(sr) + After(c')
      == (Before(c) + Inorder(l)) + (Inorder(Plug(path, Branch(Leaf, succ, sr))) + After(c))
  {
    var m := Branch(Leaf, succ, sr);
    var (x, y, z, u) := (Before(c) + Inorder(l), Inorder(sr), After(path), After(c));
    calc {
      Before(Append(path, Under(false, succ, l, c))) + y + After(Append(path, Under(false, succ, l, c)));
    ==  { AppendOrder(path, Under(false, succ, l, c)); }
      ((x + [succ]) + []) + y + (z + u);
    ==
      x + (([] + ([] + [succ] + y) + z) + u);
    ==  { PlugInorder(path, m); }
      x + (Inorder(Plug(path, m)) + u);
    }
  }

  lemma {:induction false} DropTwoRepairable(c: Context, l: Tree, item: nat, r: Tree, path: Context, succ: nat,
          sr: Tree)
    requires r == Plug(path, Branch(Leaf, succ, sr)) && Balanced(Plug(c, Branch(l, item, r)))
    ensures var c' := Append(path, Under(false, succ, l, c)); Repairable(c', sr, HeightAbove(c', 1 + H(sr)))
  {
    var m := Branch(Leaf, succ, sr);
    var was := Append(path, Under(false, item, l, c));
    var now := Append(path, Under(false, succ, l, c));
    assert CBalanced(now, H(m)) && Balanced(m) by {
      PlugAppend(path, Under(false, item, l, c), m);
      PlugBalanced(was, m);
      CBalancedAppend(path, Under(false, item, l, c), m);
      CBalancedAppend(path, Under(false, succ, l, c), m);
    }
    assert Balanced(sr) && H(m) == 1 + H(sr);
    hide CBalanced, Balanced, Repairable, HeightAbove, Append, Plug;
    RepairableStart(now, sr, H(m));
  }

  // ----- height bound -----

  function Fib(n: nat): nat {
    if n < 2 then n else Fib(n - 1) + Fib(n - 2)
  }

  lemma {:induction false} FibMonotone(m: nat, n: nat)
    requires m <= n
    ensures Fib(m) <= Fib(n)
    decreases n
  {
    if m < n && n >= 2 {
      FibMonotone(m, n - 1);
    }
  }

  /** A balanced tree of height `h` has at least `Fib(h + 2) - 1` nodes. */
  lemma {:induction false} BalancedSize(t: Tree)
    requires Balanced(t)
    ensures Size(t) + 1 >= Fib(H(t) + 2)
  {
    match t
    case Leaf =>
    case Branch(l, _, r) =>
      BalancedSize(l);
      BalancedSize(r);
      hide Fib;
      FibJoin(H(l), H(r));
  }

  lemma {:induction false} FibJoin(a: nat, b: nat)
    requires a - 1 <= b <= a + 1
    ensures Fib(a + 2) + Fib(b + 2) >= Fib(Max(a, b) + 3)
  {
    var high, low := Max(a, b), if a < b then a else b;
    FibMonotone(high + 1, low + 2);
    assert Fib(high + 3) == Fib(high + 2) + Fib(high + 1);
  }

  lemma {:induction false} FibJump(n: nat)
    ensures Fib(n + 6) == 5 * Fib(n) + 8 * Fib(n + 1)
    ensures Fib(n + 7) == 8 * Fib(n) + 13 * Fib(n + 1)
  {
    assert Fib(n + 2) == Fib(n) + Fib(n + 1);
    assert Fib(n + 3) == Fib(n) + 2 * Fib(n + 1);
    assert Fib(n + 4) == 2 * Fib(n) + 3 * Fib(n + 1);
    assert Fib(n + 5) == 3 * Fib(n) + 5 * Fib(n + 1);
  }

  lemma {:induction false} FibLeap(n: nat)
    ensures Fib(n + 24) == 28657 * Fib(n) + 46368 * Fib(n + 1)
    ensures Fib(n + 25) == 46368 * Fib(n) + 75025 * Fib(n + 1)
  {
    FibJump(n);
    FibJump(n + 6);
    FibJump(n + 12);
    FibJump(n + 18);
  }

  lemma {:induction false} Fib94()
    ensures Fib(94) == 19740274219868223167
  {
    assert Fib(22) == 17711 && Fib(23) == 28657;
    FibLeap(22);
    FibLeap(46);
    FibLeap(70);
  }

  const SIZE_LIMIT: nat := 0x1_0000_0000_0000_0000

  const HEIGHT_LIMIT: nat := 91

  /** With fewer than 2^64 nodes a balanced tree is at most 91 levels high. */
  lemma {:induction false} HeightBound(t: Tree)
    requires Balanced(t) && Size(t) < SIZE_LIMIT
    ensures H(t) <= HEIGHT_LIMIT
  {
    hide Fib, Balanced, H, Size;
    if H(t) > 91 {
      BalancedSize(t);
      FibMonotone(94, H(t) + 2);
      Fib94();
    }
  }
}
