/**
  How a pool of linked cells represents a tree, a context around a position in it, and the free
  list; and the frame lemmas that say which writes leave such a representation alone.
 */
module AvlPool {
  import opened Arithmetic
  import opened Basics
  import opened PoolLinks
  import opened AvlShape

  /** One `node` of the pool.  `entry` is the value storage: `Some` while an object lives in it. */
  datatype Cell<K, V> = Cell(left: Link, right: Link, parent: Link, height: nat, entry: Option<(K, V)>)

  function RootLink(t: Tree): Link {
    if t.Leaf? then Null else To(t.slot)
  }

  /** The link to the node that holds the hole; `rim` when there is none. */
  function Above(c: Context, rim: Link): Link {
    if c.Top? then rim else To(c.parent)
  }

  /** The root of the whole tree when `hole` is what hangs in the hole. */
  function TopLink(c: Context, hole: Link): Link {
    if c.Top? then hole else TopLink(c.up, To(c.parent))
  }

  function Child<K, V>(cell: Cell<K, V>, isLeft: bool): Link {
    if isLeft then cell.left else cell.right
  }

  function WithChild<K, V>(cell: Cell<K, V>, isLeft: bool, link: Link): Cell<K, V> {
    if isLeft then cell.(left := link) else cell.(right := link)
  }

  /**
    The cells of `s` represent `t` below `par`: child and parent links agree with `t`, every stored
    height is exact, every slot is used once and holds an entry.
   */
  ghost predicate Rep<K, V>(s: seq<Cell<K, V>>, t: Tree, par: Link) {
    match t
    case Leaf => true
    case Branch(l, i, r) =>
      && i < |s| && s[i].entry.Some?
      && s[i].left == RootLink(l) && s[i].right == RootLink(r) && s[i].parent == par && s[i].height == H(t)
      && i !in Slots(l) && i !in Slots(r) && Slots(l) !! Slots(r)
      && Rep(s, l, To(i)) && Rep(s, r, To(i))
  }

  /**
    The cells of `s` represent the context `c` around `hole`, below `rim`.  The stored heights of
    the nodes on the path are not constrained: they are stale until the walk reaches them.
   */
  ghost predicate Hangs<K, V>(s: seq<Cell<K, V>>, c: Context, hole: Link, rim: Link) {
    match c
    case Top => true
    case Under(isLeft, p, sibling, up) =>
      && p < |s| && s[p].entry.Some?
      && Child(s[p], isLeft) == hole && Child(s[p], !isLeft) == RootLink(sibling) && s[p].parent == Above(up, rim)
      && p !in Slots(sibling) && p !in CSlots(up) && Slots(sibling) !! CSlots(up)
      && Rep(s, sibling, To(p)) && Hangs(s, up, To(p), rim)
  }

  /**
    The pool holds the tree `Plug(c, t)` inside the slots `w`, with exact heights everywhere but on
    the path of `c`.
   */
  ghost predicate Focused<K, V>(s: seq<Cell<K, V>>, root: Link, w: set<nat>, c: Context, t: Tree) {
    && CSlots(c) <= w && Slots(t) <= w
    && root == TopLink(c, RootLink(t))
    && Hangs(s, c, RootLink(t), Null)
    && Rep(s, t, Above(c, Null))
    && Slots(t) !! CSlots(c)
  }

  /** A complete tree can be entered at any of its positions. */
  lemma {:induction false} FocusAt<K, V>(s: seq<Cell<K, V>>, root: Link, w: set<nat>, c: Context, t: Tree)
    requires Focused(s, root, w, Top, Plug(c, t))
    ensures Focused(s, root, w, c, t)
    decreases c
  {
    if c.Under? {
      FocusAt(s, root, w, c.up, Join(c.isLeft, t, c.parent, c.sibling));
    }
  }

  /** The links of a node in focus. */
  lemma {:induction false} NodeInFocus<K, V>(s: seq<Cell<K, V>>, root: Link, w: set<nat>, c: Context, l: Tree, i: nat,
          r: Tree)
    requires Focused(s, root, w, c, Branch(l, i, r))
    ensures i < |s| && s[i].left == RootLink(l) && s[i].right == RootLink(r) && s[i].parent == Above(c, Null)
    ensures Rep(s, l, To(i)) && Rep(s, r, To(i)) && Hangs(s, c, To(i), Null) && i !in CSlots(c)
  {
  }

  /** One step up, once the height of the node above the hole is exact again. */
  lemma {:induction false} FocusUp<K, V>(s: seq<Cell<K, V>>, root: Link, w: set<nat>, c: Context, t: Tree)
    requires c.Under? && Focused(s, root, w, c, t)
    requires s[c.parent].height == 1 + Max(H(t), H(c.sibling))
    ensures Focused(s, root, w, c.up, Join(c.isLeft, t, c.parent, c.sibling))
  {
  }

  /** One step down, to either child. */
  lemma {:induction false} FocusDown<K, V>(s: seq<Cell<K, V>>, root: Link, w: set<nat>, c: Context, t: Tree)
    requires t.Branch? && Focused(s, root, w, c, t)
    ensures Focused(s, root, w, Under(true, t.slot, t.right, c), t.left)
    ensures Focused(s, root, w, Under(false, t.slot, t.left, c), t.right)
  {
  }

  // ----- frames -----

  lemma {:induction false} RepSlots<K, V>(s: seq<Cell<K, V>>, t: Tree, par: Link)
    requires Rep(s, t, par)
    ensures forall i :: i in Slots(t) ==> i < |s| && s[i].entry.Some?
  {
    if t.Branch? {
      RepSlots(s, t.left, To(t.slot));
      RepSlots(s, t.right, To(t.slot));
    }
  }

  lemma {:induction false} HangsSlots<K, V>(s: seq<Cell<K, V>>, c: Context, hole: Link, rim: Link)
    requires Hangs(s, c, hole, rim)
    ensures forall i :: i in CSlots(c) ==> i < |s| && s[i].entry.Some?
    decreases c
  {
    if c.Under? {
      RepSlots(s, c.sibling, To(c.parent));
      HangsSlots(s, c.up, To(c.parent), rim);
    }
  }

  /** Only the parent link of the root may change. */
  lemma {:induction false} RepFrame<K, V>(s: seq<Cell<K, V>>, s': seq<Cell<K, V>>, t: Tree, par: Link, par': Link)
    requires Rep(s, t, par) && |s| == |s'|
    requires forall i :: i in Slots(t) && i < |s| ==>
      s'[i] == if To(i) == RootLink(t) then s[i].(parent := par') else s[i]
    ensures Rep(s', t, par')
  {
    if t.Branch? {
      RepFrame(s, s', t.left, To(t.slot), To(t.slot));
      RepFrame(s, s', t.right, To(t.slot), To(t.slot));
    }
  }

  lemma {:induction false} RepSame<K, V>(s: seq<Cell<K, V>>, s': seq<Cell<K, V>>, t: Tree, par: Link)
    requires Rep(s, t, par) && |s| == |s'| && forall i :: i in Slots(t) && i < |s| ==> s'[i] == s[i]
    ensures Rep(s', t, par)
  {
    RepFrame(s, s', t, par, par);
  }

  lemma {:induction false} HangsSame<K, V>(s: seq<Cell<K, V>>, s': seq<Cell<K, V>>, c: Context, hole: Link, rim: Link)
    requires Hangs(s, c, hole, rim) && |s| == |s'|
    requires forall i :: i in CSlots(c) && i < |s| ==> s'[i] == s[i]
    ensures Hangs(s', c, hole, rim)
    decreases c
  {
    if c.Under? {
      RepSame(s, s', c.sibling, To(c.parent));
      HangsSame(s, s', c.up, To(c.parent), rim);
    }
  }

  /** Only the link into the hole may change, and the height of the node that holds it. */
  lemma {:induction false} HangsRefill<K, V>(s: seq<Cell<K, V>>, s': seq<Cell<K, V>>, c: Context, hole: Link,
          hole': Link, rim: Link)
    requires Hangs(s, c, hole, rim) && |s| == |s'|
    requires forall i :: i in CSlots(c) && i < |s| && To(i) != Above(c, Null) ==> s'[i] == s[i]
    requires c.Under? ==>
      c.parent < |s| && s'[c.parent] == WithChild(s[c.parent], c.isLeft, hole').(height := s'[c.parent].height)
    ensures Hangs(s', c, hole', rim)
  {
    if c.Under? {
      RepSame(s, s', c.sibling, To(c.parent));
      HangsSame(s, s', c.up, To(c.parent), rim);
    }
  }

  /** Only the parent link of the topmost node of the context may change. */
  lemma {:induction false} HangsRerim<K, V>(s: seq<Cell<K, V>>, s': seq<Cell<K, V>>, c: Context, hole: Link, rim: Link,
          rim': Link)
    requires Hangs(s, c, hole, rim) && |s| == |s'|
    requires forall i :: i in CSlots(c) && i < |s| ==>
      s'[i] == if To(i) == TopLink(c, hole) then s[i].(parent := rim') else s[i]
    requires hole.To? ==> hole.slot !in CSlots(c)
    ensures Hangs(s', c, hole, rim')
    decreases c
  {
    if c.Under? {
      TopLinkInside(c.up, To(c.parent));
      forall i | i in Slots(c.sibling) && i < |s|
        ensures s'[i] == if To(i) == RootLink(c.sibling) then s[i].(parent := To(c.parent)) else s[i]
      {
        assert i in CSlots(c) && To(i) != TopLink(c, hole);
      }
      RepSame(s, s', c.sibling, To(c.parent));
      HangsRerim(s, s', c.up, To(c.parent), rim, rim');
      assert c.parent in CSlots(c) && c.parent < |s|;
      if c.up.Under? {
        assert s'[c.parent] == s[c.parent];
      } else {
        assert s'[c.parent] == s[c.parent].(parent := rim');
      }
    }
  }

  lemma {:induction false} TopLinkInside(c: Context, hole: Link)
    ensures c.Under? ==> TopLink(c, hole).To? && TopLink(c, hole).slot in CSlots(c)
    decreases c
  {
    if c.Under? {
      TopLinkInside(c.up, To(c.parent));
    }
  }

  lemma {:induction false} HangsAppend<K, V>(s: seq<Cell<K, V>>, inner: Context, outer: Context, hole: Link, rim: Link)
    requires Hangs(s, inner, hole, Above(outer, rim))
    requires Hangs(s, outer, TopLink(inner, hole), rim)
    requires CSlots(inner) !! CSlots(outer)
    ensures Hangs(s, Append(inner, outer), hole, rim)
    ensures TopLink(Append(inner, outer), hole) == TopLink(outer, TopLink(inner, hole))
    ensures Above(Append(inner, outer), rim) == Above(inner, Above(outer, rim))
    decreases inner
  {
    if inner.Under? {
      AppendSlots(inner.up, outer);
      HangsAppend(s, inner.up, outer, To(inner.parent), rim);
    }
  }

  lemma {:induction false} HangsSplit<K, V>(s: seq<Cell<K, V>>, inner: Context, outer: Context, hole: Link, rim: Link)
    requires Hangs(s, Append(inner, outer), hole, rim)
    ensures Hangs(s, inner, hole, Above(outer, rim))
    ensures Hangs(s, outer, TopLink(inner, hole), rim)
    ensures CSlots(inner) !! CSlots(outer)
    decreases inner
  {
    if inner.Under? {
      AppendSlots(inner.up, outer);
      HangsSplit(s, inner.up, outer, To(inner.parent), rim);
    }
  }

  /** The pool cells outside `inside` are untouched, and no entry moved. */
  ghost predicate OnlyLinks<K, V>(s: seq<Cell<K, V>>, s': seq<Cell<K, V>>, inside: set<nat>) {
    && |s'| == |s|
    && (forall i :: 0 <= i < |s| ==> s'[i].entry == s[i].entry)
    && (forall i :: 0 <= i < |s| && i !in inside ==> s'[i] == s[i])
  }

  lemma {:induction false} OnlyLinksSame<K, V>(s: seq<Cell<K, V>>, w: set<nat>)
    ensures OnlyLinks(s, s, w)
  {
  }

  lemma {:induction false} OnlyLinksThrough<K, V>(s: seq<Cell<K, V>>, s1: seq<Cell<K, V>>, s2: seq<Cell<K, V>>,
          w: set<nat>)
    requires OnlyLinks(s, s1, w) && OnlyLinks(s1, s2, w)
    ensures OnlyLinks(s, s2, w)
  {
  }

  /** The slots in `w` still hold the entries they held: nothing was relocated. */
  ghost predicate Unmoved<K, V>(s: seq<Cell<K, V>>, s': seq<Cell<K, V>>, w: set<nat>) {
    |s'| == |s| && forall i :: i in w ==> i < |s| && s[i].entry.Some? && s'[i].entry == s[i].entry
  }

  /** Outside the context `c` only the parent link of `n` changed; no entry moved and no height changed. */
  ghost predicate Transplanted<K, V>(s: seq<Cell<K, V>>, s': seq<Cell<K, V>>, c: Context, n: Link) {
    && |s'| == |s|
    && (forall i :: 0 <= i < |s| ==> s'[i].entry == s[i].entry && s'[i].height == s[i].height)
    && (forall i :: 0 <= i < |s| && i !in CSlots(c) ==>
          s'[i] == if To(i) == n then s[i].(parent := Above(c, Null)) else s[i])
  }

  /** Outside the context `c` only `p`, `q` and the parent link of `b` changed, and no entry moved. */
  ghost predicate Relinked<K, V>(s: seq<Cell<K, V>>, s': seq<Cell<K, V>>, c: Context, p: nat, q: nat, b: Link) {
    && |s'| == |s|
    && (forall i :: 0 <= i < |s| ==> s'[i].entry == s[i].entry)
    && (forall i :: 0 <= i < |s| && i !in CSlots(c) && i != p && i != q ==>
          s'[i] == if To(i) == b then s[i].(parent := To(p)) else s[i])
  }

  lemma {:induction false} RelinkedInside<K, V>(s: seq<Cell<K, V>>, s': seq<Cell<K, V>>, w: set<nat>, c: Context,
          p: nat, q: nat, b: Link)
    requires Relinked(s, s', c, p, q, b)
    requires CSlots(c) <= w && p in w && q in w && (b.To? ==> b.slot in w)
    ensures OnlyLinks(s, s', w)
  {
  }

  lemma {:induction false} TransplantedInside<K, V>(s: seq<Cell<K, V>>, s': seq<Cell<K, V>>, w: set<nat>, c: Context,
          n: Link)
    requires Transplanted(s, s', c, n) && CSlots(c) <= w && (n.To? ==> n.slot in w)
    ensures OnlyLinks(s, s', w)
  {
  }

  /** Two writes, a transplant and two writes make up the relinking of a rotation to the left... */
  lemma {:induction false} LeftRelinked<K, V>(s: seq<Cell<K, V>>, s1: seq<Cell<K, V>>, s2: seq<Cell<K, V>>,
          s3: seq<Cell<K, V>>, c: Context, p: nat, q: nat, b: Link)
    requires p < |s| && q < |s| && p != q && p !in CSlots(c) && q !in CSlots(c)
    requires b.To? ==> b.slot < |s| && b.slot != p && b.slot != q && b.slot !in CSlots(c)
    requires var s0 := s[p := s[p].(right := b)]; s1 == if b.To? then s0[b.slot := s0[b.slot].(parent := To(p))] else s0
    requires Transplanted(s1, s2, c, To(q))
    requires var s0 := s2[q := s2[q].(left := To(p))]; s3 == s0[p := s0[p].(parent := To(q))]
    ensures Relinked(s, s3, c, p, q, b)
    ensures s3[p] == s[p].(right := b, parent := To(q)) && s3[q] == s[q].(left := To(p), parent := Above(c, Null))
  {
  }

  /** ... and likewise to the right. */
  lemma {:induction false} RightRelinked<K, V>(s: seq<Cell<K, V>>, s1: seq<Cell<K, V>>, s2: seq<Cell<K, V>>,
          s3: seq<Cell<K, V>>, c: Context, p: nat, q: nat, b: Link)
    requires p < |s| && q < |s| && p != q && p !in CSlots(c) && q !in CSlots(c)
    requires b.To? ==> b.slot < |s| && b.slot != p && b.slot != q && b.slot !in CSlots(c)
    requires var s0 := s[p := s[p].(left := b)]; s1 == if b.To? then s0[b.slot := s0[b.slot].(parent := To(p))] else s0
    requires Transplanted(s1, s2, c, To(q))
    requires var s0 := s2[q := s2[q].(right := To(p))]; s3 == s0[p := s0[p].(parent := To(q))]
    ensures Relinked(s, s3, c, p, q, b)
    ensures s3[p] == s[p].(left := b, parent := To(q)) && s3[q] == s[q].(right := To(p), parent := Above(c, Null))
  {
  }

  function StoredHeight<K, V>(s: seq<Cell<K, V>>, link: Link): nat
    requires link.To? ==> link.slot < |s|
  {
    if link == Null then 0 else s[link.slot].height
  }

  /** No stored height in `w` is above the greatest that a tree of the container can have. */
  ghost predicate LowHeights<K, V>(s: seq<Cell<K, V>>, w: set<nat>) {
    forall i :: i in w && i < |s| ==> s[i].height <= HEIGHT_LIMIT
  }

  lemma {:induction false} RepHeights<K, V>(s: seq<Cell<K, V>>, t: Tree, par: Link)
    requires Rep(s, t, par)
    ensures forall i :: i in Slots(t) && i < |s| ==> s[i].height <= H(t)
  {
    if t.Branch? {
      RepHeights(s, t.left, To(t.slot));
      RepHeights(s, t.right, To(t.slot));
    }
  }

  lemma {:induction false} SameHeights<K, V>(s: seq<Cell<K, V>>, s': seq<Cell<K, V>>, w: set<nat>)
    requires LowHeights(s, w) && |s'| == |s| && forall i :: 0 <= i < |s| ==> s'[i].height == s[i].height
    ensures LowHeights(s', w)
  {
  }

  /** The stored heights of both subtrees of the node above the hole are exact. */
  lemma {:induction false} ChildHeights<K, V>(s: seq<Cell<K, V>>, root: Link, w: set<nat>, c: Context, t: Tree)
    requires c.Under? && Focused(s, root, w, c, t)
    ensures var cell := s[c.parent];
      && (cell.left.To? ==> cell.left.slot < |s|) && (cell.right.To? ==> cell.right.slot < |s|)
      && StoredHeight(s, cell.left) == H(if c.isLeft then t else c.sibling)
      && StoredHeight(s, cell.right) == H(if c.isLeft then c.sibling else t)
  {
  }

  /** Storing the exact height at the node above the hole moves the focus one step up. */
  lemma {:induction false} HeightStored<K, V>(s: seq<Cell<K, V>>, s': seq<Cell<K, V>>, root: Link, w: set<nat>,
          c: Context, t: Tree)
    requires c.Under? && Focused(s, root, w, c, t)
    requires s' == s[c.parent := s[c.parent].(height := 1 + Max(H(t), H(c.sibling)))]
    ensures Focused(s', root, w, c.up, Join(c.isLeft, t, c.parent, c.sibling))
  {
    HangsRefill(s, s', c, RootLink(t), RootLink(t), Null);
    RepSame(s, s', t, To(c.parent));
    FocusUp(s', root, w, c, t);
  }

  /** After one turn of the walk the parent link of the node just left leads to the next stop. */
  lemma {:induction false} FocusNext<K, V>(s: seq<Cell<K, V>>, root: Link, w: set<nat>, c: Context, t: Tree)
    requires c.Under? && Fixed(c, t).Branch? && Focused(s, root, w, c.up, Fixed(c, t))
    requires !NeedsRotation(c, t) ==> Fixed(c, t).slot == c.parent
    ensures Focused(s, root, w, NextContext(c, t), NextTree(c, t))
    ensures c.parent < |s| && s[c.parent].parent == Above(NextContext(c, t), Null)
  {
    if NeedsRotation(c, t) {
      RotatedBelow(c, t);
      FocusDown(s, root, w, c.up, Fixed(c, t));
    }
  }

  /** What the pool looks like around a node and its right child. */
  lemma {:induction false} LeftSite<K, V>(s: seq<Cell<K, V>>, root: Link, w: set<nat>, c: Context, a: Tree, p: nat,
          b: Tree, q: nat, d: Tree)
    requires Focused(s, root, w, Under(false, p, a, c), Branch(b, q, d))
    ensures p < |s| && q < |s| && p != q && p !in CSlots(c) && q !in CSlots(c) && CSlots(c) <= w && p in w && q in w
    ensures s[p].right == To(q) && s[q].left == RootLink(b) && s[p].parent == Above(c, Null)
    ensures Hangs(s, c, To(p), Null) && root == TopLink(c, To(p))
    ensures b.Branch? ==> b.slot < |s| && b.slot != p && b.slot != q && b.slot !in CSlots(c) && b.slot in w
  {
    RepSlots(s, b, To(q));
    if b.Branch? { assert b.slot in Slots(b); }
  }

  /** What the pool looks like around a node and its left child. */
  lemma {:induction false} RightSite<K, V>(s: seq<Cell<K, V>>, root: Link, w: set<nat>, c: Context, a: Tree, q: nat,
          b: Tree, p: nat, d: Tree)
    requires Focused(s, root, w, Under(true, p, d, c), Branch(a, q, b))
    ensures p < |s| && q < |s| && p != q && p !in CSlots(c) && q !in CSlots(c) && CSlots(c) <= w && p in w && q in w
    ensures s[p].left == To(q) && s[q].right == RootLink(b) && s[p].parent == Above(c, Null)
    ensures Hangs(s, c, To(p), Null) && root == TopLink(c, To(p))
    ensures b.Branch? ==> b.slot < |s| && b.slot != p && b.slot != q && b.slot !in CSlots(c) && b.slot in w
  {
    RepSlots(s, b, To(q));
    if b.Branch? { assert b.slot in Slots(b); }
  }

  /** `p` hangs below `q` with the subtrees `a` and `b`; `d` is the other subtree of `q`, which hangs in `c`. */
  lemma {:induction false} Rotated<K, V>(s: seq<Cell<K, V>>, root: Link, w: set<nat>, c: Context, isLeft: bool, p: nat,
          q: nat, a: Tree, b: Tree, d: Tree)
    requires CSlots(c) <= w && p in w && q in w && Slots(a) <= w && Slots(b) <= w && Slots(d) <= w
    requires CSlots(c) !! {p} !! {q} !! Slots(a) !! Slots(b) !! Slots(d)
    requires p < |s| && q < |s| && s[p].entry.Some? && s[q].entry.Some?
    requires Child(s[p], isLeft) == RootLink(a) && Child(s[p], !isLeft) == RootLink(b) && s[p].parent == To(q)
    requires Child(s[q], isLeft) == To(p) && Child(s[q], !isLeft) == RootLink(d) && s[q].parent == Above(c, Null)
    requires Rep(s, a, To(p)) && Rep(s, b, To(p)) && Rep(s, d, To(q))
    requires Hangs(s, c, To(q), Null) && root == TopLink(c, To(q))
    ensures Focused(s, root, w, Under(isLeft, p, b, Under(isLeft, q, d, c)), a)
  {
    var above := Under(isLeft, q, d, c);
    assert Hangs(s, above, To(p), Null);
    assert Hangs(s, Under(isLeft, p, b, above), RootLink(a), Null);
  }

  /** The net effect of the link writes of a left rotation at `p`. */
  lemma {:induction false} LeftRotated<K, V>(s: seq<Cell<K, V>>, s': seq<Cell<K, V>>, root: Link, root': Link,
          w: set<nat>, c: Context, a: Tree, p: nat, b: Tree, q: nat, d: Tree)
    requires Focused(s, root, w, Under(false, p, a, c), Branch(b, q, d))
    requires Relinked(s, s', c, p, q, RootLink(b)) && Hangs(s', c, To(q), Null) && root' == TopLink(c, To(q))
    requires s'[p] == s[p].(right := RootLink(b), parent := To(q))
    requires s'[q] == s[q].(left := To(p), parent := Above(c, Null))
    ensures Focused(s', root', w, Under(true, p, b, Under(true, q, d, c)), a)
  {
    assert Rep(s', a, To(p)) by { RepSame(s, s', a, To(p)); }
    assert Rep(s', b, To(p)) by { RepFrame(s, s', b, To(q), To(p)); }
    assert Rep(s', d, To(q)) by { RepSame(s, s', d, To(q)); }
    hide Rep, Hangs, Relinked;
    Rotated(s', root', w, c, true, p, q, a, b, d);
  }

  /** The net effect of the link writes of a right rotation at `p`. */
  lemma {:induction false} RightRotated<K, V>(s: seq<Cell<K, V>>, s': seq<Cell<K, V>>, root: Link, root': Link,
          w: set<nat>, c: Context, a: Tree, q: nat, b: Tree, p: nat, d: Tree)
    requires Focused(s, root, w, Under(true, p, d, c), Branch(a, q, b))
    requires Relinked(s, s', c, p, q, RootLink(b)) && Hangs(s', c, To(q), Null) && root' == TopLink(c, To(q))
    requires s'[p] == s[p].(left := RootLink(b), parent := To(q))
    requires s'[q] == s[q].(right := To(p), parent := Above(c, Null))
    ensures Focused(s', root', w, Under(false, p, b, Under(false, q, a, c)), d)
  {
    assert Rep(s', a, To(q)) by { RepSame(s, s', a, To(q)); }
    assert Rep(s', b, To(p)) by { RepFrame(s, s', b, To(q), To(p)); }
    assert Rep(s', d, To(p)) by { RepSame(s, s', d, To(p)); }
    hide Rep, Hangs, Relinked;
    Rotated(s', root', w, c, false, p, q, d, b, a);
  }

  /** A fresh cell linked into an empty hole. */
  lemma {:induction false} FreshLinked<K, V>(s: seq<Cell<K, V>>, s': seq<Cell<K, V>>, root: Link, root': Link,
          c: Context, item: nat)
    requires Focused(s, root, CSlots(c), c, Leaf) && |s'| == |s|
    requires item < |s| && item !in CSlots(c)
    requires s'[item].left == Null && s'[item].right == Null && s'[item].parent == Above(c, Null)
    requires s'[item].height == 1 && s'[item].entry.Some?
    requires forall i :: 0 <= i < |s| && i != item && To(i) != Above(c, Null) ==> s'[i] == s[i]
    requires c.Under? ==> s'[c.parent] == WithChild(s[c.parent], c.isLeft, To(item))
    requires root' == TopLink(c, To(item))
    ensures Focused(s', root', CSlots(c) + {item}, c, Branch(Leaf, item, Leaf))
  {
    HangsRefill(s, s', c, Null, To(item), Null);
  }

  /** Cells outside the representation do not matter. */
  lemma {:induction false} FocusFrame<K, V>(s: seq<Cell<K, V>>, s': seq<Cell<K, V>>, root: Link, w: set<nat>,
          c: Context, t: Tree)
    requires Focused(s, root, w, c, t) && |s'| == |s|
    requires forall i :: 0 <= i < |s| && i in CSlots(c) + Slots(t) ==> s'[i] == s[i]
    ensures Focused(s', root, CSlots(c) + Slots(t), c, t)
  {
    RepSame(s, s', t, Above(c, Null));
    HangsSame(s, s', c, RootLink(t), Null);
  }

  lemma {:induction false} FocusRelease<K, V>(s: seq<Cell<K, V>>, root: Link, w: set<nat>, c: Context, t: Tree,
          item: nat, cell: Cell<K, V>)
    requires Focused(s, root, w, c, t) && item < |s| && CSlots(c) + Slots(t) == w - {item}
    ensures Focused(s[item := cell], root, w - {item}, c, t)
  {
    FocusFrame(s, s[item := cell], root, w, c, t);
  }

  // ----- moving a successor into the place of its node -----

  /**
    `succ`, the leftmost node of the right subtree of `item`, is out of its old place: the rest of
    that subtree, `path` around `sr`, now hangs below `succ`, while `item` still holds its own place
    in `c` and its left subtree `l`.
   */
  ghost predicate Spliced<K, V>(s: seq<Cell<K, V>>, root: Link, w: set<nat>, c: Context, l: Tree, item: nat,
          path: Context, succ: nat, sr: Tree) {
    && CSlots(c) <= w && Slots(l) <= w && CSlots(path) <= w && Slots(sr) <= w && item in w && succ in w
    && CSlots(c) !! {item} !! Slots(l) !! CSlots(path) !! {succ} !! Slots(sr)
    && root == TopLink(c, To(item)) && Hangs(s, c, To(item), Null)
    && item < |s| && s[item].left == RootLink(l) && s[item].parent == Above(c, Null) && Rep(s, l, To(item))
    && succ < |s| && s[succ].entry.Some? && s[succ].right == TopLink(path, RootLink(sr))
    && Hangs(s, path, RootLink(sr), To(succ)) && Rep(s, sr, Above(path, To(succ)))
  }

  lemma {:induction false} SplicedAdjacent<K, V>(s: seq<Cell<K, V>>, root: Link, w: set<nat>, c: Context, l: Tree,
          item: nat, succ: nat, sr: Tree)
    requires Focused(s, root, w, Under(false, item, l, c), Branch(Leaf, succ, sr))
    ensures Spliced(s, root, w, c, l, item, Top, succ, sr)
  {
  }

  /** The state in between: `succ` is unlinked, the rest of its subtree still hangs below `item`. */
  ghost predicate Unhooked<K, V>(s: seq<Cell<K, V>>, root: Link, w: set<nat>, c: Context, l: Tree, item: nat,
          path: Context, succ: nat, sr: Tree) {
    && CSlots(c) <= w && Slots(l) <= w && CSlots(path) <= w && Slots(sr) <= w && item in w && succ in w
    && CSlots(c) !! {item} !! Slots(l) !! CSlots(path) !! {succ} !! Slots(sr)
    && root == TopLink(c, To(item)) && Hangs(s, c, To(item), Null)
    && item < |s| && s[item].left == RootLink(l) && s[item].parent == Above(c, Null) && Rep(s, l, To(item))
    && succ < |s| && s[succ].entry.Some? && s[item].right == TopLink(path, RootLink(sr))
    && Hangs(s, path, RootLink(sr), To(item)) && Rep(s, sr, Above(path, To(item)))
  }

  /** What the pool looks like around a node without left child. */
  lemma {:induction false} SimpleSite<K, V>(s: seq<Cell<K, V>>, root: Link, w: set<nat>, c: Context, l: Tree, i: nat,
          r: Tree)
    requires l.Leaf? && Focused(s, root, w, c, Branch(l, i, r))
    ensures i < |s| && i !in CSlots(c) && s[i].parent == Above(c, Null) && s[i].right == RootLink(r) && CSlots(c) <= w
    ensures Hangs(s, c, To(i), Null) && root == TopLink(c, To(i))
    ensures r.Branch? ==> r.slot < |s| && r.slot !in CSlots(c) && r.slot in w
  {
    RepSlots(s, r, To(i));
    if r.Branch? { assert r.slot in Slots(r); }
  }

  lemma {:induction false} UnhookedSite<K, V>(s: seq<Cell<K, V>>, root: Link, w: set<nat>, c: Context, l: Tree,
          item: nat, path: Context, succ: nat, sr: Tree)
    requires path.Under? && Unhooked(s, root, w, c, l, item, path, succ, sr)
    ensures item < |s| && succ < |s| && item != succ && succ in w && s[item].right == TopLink(path, RootLink(sr))
    ensures s[item].right.To? && s[item].right.slot < |s| && s[item].right.slot != succ && s[item].right.slot in w
  {
    TopLinkInPool(s, path, sr, To(item));
    TopLinkInside(path, RootLink(sr));
  }

  lemma {:induction false} UnhookedDeep<K, V>(s: seq<Cell<K, V>>, s': seq<Cell<K, V>>, root: Link, w: set<nat>,
          c: Context, l: Tree, item: nat, path: Context, succ: nat, sr: Tree)
    requires path.Under?
    requires Focused(s, root, w, Append(path, Under(false, item, l, c)), Branch(Leaf, succ, sr))
    requires Transplanted(s, s', Append(path, Under(false, item, l, c)), RootLink(sr))
    requires Hangs(s', Append(path, Under(false, item, l, c)), RootLink(sr), Null)
    ensures Unhooked(s', root, w, c, l, item, path, succ, sr)
  {
    var cItem := Under(false, item, l, c);
    AppendSlots(path, cItem);
    HangsSplit(s', path, cItem, RootLink(sr), Null);
    TopLinkAppend(path, cItem, To(succ));
    RepFrame(s, s', sr, To(succ), Above(path, Null));
  }

  lemma {:induction false} SplicedDeep<K, V>(s: seq<Cell<K, V>>, s': seq<Cell<K, V>>, root: Link, w: set<nat>,
          c: Context, l: Tree, item: nat, path: Context, succ: nat, sr: Tree, top: nat)
    requires path.Under? && Unhooked(s, root, w, c, l, item, path, succ, sr)
    requires To(top) == TopLink(path, RootLink(sr)) && top < |s|
    requires s' == s[succ := s[succ].(right := To(top))][top := s[top].(parent := To(succ))]
    ensures Spliced(s', root, w, c, l, item, path, succ, sr) && OnlyLinks(s, s', w)
  {
    TopLinkInside(path, RootLink(sr));
    hide Hangs, Rep, TopLink;
    assert Hangs(s', path, RootLink(sr), To(succ)) by { HangsRerim(s, s', path, RootLink(sr), To(item), To(succ)); }
    assert Hangs(s', c, To(item), Null) by { HangsSame(s, s', c, To(item), Null); }
    assert Rep(s', l, To(item)) by { RepSame(s, s', l, To(item)); }
    assert Rep(s', sr, Above(path, To(succ))) by { RepSame(s, s', sr, Above(path, Null)); }
  }

  lemma {:induction false} TopLinkInPool<K, V>(s: seq<Cell<K, V>>, c: Context, t: Tree, rim: Link)
    requires Hangs(s, c, RootLink(t), rim) && Rep(s, t, Above(c, rim))
    ensures var top := TopLink(c, RootLink(t)); top.To? ==> top.slot < |s| && top.slot in CSlots(c) + Slots(t)
  {
    TopLinkInside(c, RootLink(t));
    HangsSlots(s, c, RootLink(t), rim);
    RepSlots(s, t, Above(c, rim));
  }

  lemma {:induction false} AboveAppend(inner: Context, outer: Context, rim: Link)
    ensures Above(Append(inner, outer), rim) == Above(inner, Above(outer, rim))
  {
  }

  lemma {:induction false} TopLinkAppend(inner: Context, outer: Context, hole: Link)
    ensures TopLink(Append(inner, outer), hole) == TopLink(outer, TopLink(inner, hole))
    decreases inner
  {
    if inner.Under? {
      TopLinkAppend(inner.up, outer, To(inner.parent));
    }
  }

  lemma {:induction false} SplicedSite<K, V>(s: seq<Cell<K, V>>, root: Link, w: set<nat>, c: Context, l: Tree,
          item: nat, path: Context, succ: nat, sr: Tree)
    requires l.Branch? && Spliced(s, root, w, c, l, item, path, succ, sr)
    ensures item < |s| && succ < |s| && item != succ && item !in CSlots(c) && succ !in CSlots(c)
    ensures s[item].parent == Above(c, Null) && Hangs(s, c, To(item), Null) && root == TopLink(c, To(item))
    ensures l.slot < |s| && l.slot != succ
    ensures s[succ].right.To? ==> s[succ].right.slot != succ && s[succ].right.slot != l.slot
  {
    SplicedBounds(s, root, w, c, l, item, path, succ, sr);
  }

  lemma {:induction false} SplicedBounds<K, V>(s: seq<Cell<K, V>>, root: Link, w: set<nat>, c: Context, l: Tree,
          item: nat, path: Context, succ: nat, sr: Tree)
    requires l.Branch? && Spliced(s, root, w, c, l, item, path, succ, sr)
    ensures l.slot < |s| && l.slot in Slots(l)
    ensures s[succ].right.To? ==> s[succ].right.slot < |s| && s[succ].right.slot in CSlots(path) + Slots(sr)
  {
    TopLinkInPool(s, path, sr, To(succ));
  }

  /** The heights below `succ`, in its new place, are those stored before anything was unlinked. */
  lemma {:induction false} SplicedHeights<K, V>(s: seq<Cell<K, V>>, s1: seq<Cell<K, V>>, root: Link, w: set<nat>,
          c: Context, l: Tree, item: nat, path: Context, succ: nat, sr: Tree)
    requires l.Branch? && Spliced(s, root, w, c, l, item, path, succ, sr) && LowHeights(s, w)
    requires Transplanted(s, s1, c, To(succ))
    ensures l.slot < |s1| && s1[l.slot].height <= HEIGHT_LIMIT
    ensures s1[item].left == To(l.slot) && s1[succ].right == s[succ].right
    ensures s[succ].right.To? ==> s[succ].right.slot < |s1| && s1[s[succ].right.slot].height <= HEIGHT_LIMIT
  {
    SplicedBounds(s, root, w, c, l, item, path, succ, sr);
  }

  /** What the writes of the substitution change, subtree by subtree. */
  lemma {:induction false} SubstitutedCells<K, V>(s: seq<Cell<K, V>>, s1: seq<Cell<K, V>>, s2: seq<Cell<K, V>>,
          root: Link, w: set<nat>, c: Context, l: Tree, item: nat, path: Context, succ: nat, sr: Tree, h: nat)
    requires l.Branch? && Spliced(s, root, w, c, l, item, path, succ, sr) && Transplanted(s, s1, c, To(succ))
    requires l.slot < |s|
    requires s2 == s1[succ := s1[succ].(left := RootLink(l), height := h)][l.slot := s1[l.slot].(parent := To(succ))]
    ensures |s2| == |s1| == |s| && s2[succ] == s[succ].(left := RootLink(l), height := h, parent := Above(c, Null))
    ensures forall i :: i in CSlots(c) && i < |s| ==> s2[i] == s1[i]
    ensures forall i :: i in Slots(l) && i < |s| ==>
      s2[i] == if To(i) == RootLink(l) then s[i].(parent := To(succ)) else s[i]
    ensures forall i :: i in CSlots(path) + Slots(sr) && i < |s| ==> s2[i] == s[i]
    ensures OnlyLinks(s, s2, w)
  {
    hide Hangs, Rep, TopLink;
    assert l.slot in Slots(l);
    forall i | i in CSlots(path) + Slots(sr) && i < |s| ensures s2[i] == s[i] {
      assert i !in CSlots(c) && i != succ && i !in Slots(l);
    }
    forall i | i in Slots(l) && i < |s|
      ensures s2[i] == if To(i) == RootLink(l) then s[i].(parent := To(succ)) else s[i]
    {
      assert i !in CSlots(c) && i != succ;
    }
  }

  lemma {:induction false} Substituted<K, V>(s: seq<Cell<K, V>>, s1: seq<Cell<K, V>>, s2: seq<Cell<K, V>>, root: Link,
          root': Link, w: set<nat>, c: Context, l: Tree, item: nat, path: Context, succ: nat, sr: Tree, h: nat)
    requires l.Branch? && Spliced(s, root, w, c, l, item, path, succ, sr)
    requires Transplanted(s, s1, c, To(succ)) && Hangs(s1, c, To(succ), Null) && root' == TopLink(c, To(succ))
    requires l.slot < |s|
    requires s2 == s1[succ := s1[succ].(left := RootLink(l), height := h)][l.slot := s1[l.slot].(parent := To(succ))]
    ensures Focused(s2, root', w, Append(path, Under(false, succ, l, c)), sr) && OnlyLinks(s, s2, w)
  {
    SubstitutedCells(s, s1, s2, root, w, c, l, item, path, succ, sr, h);
    hide Hangs, Rep, OnlyLinks, Transplanted;
    assert Hangs(s2, c, To(succ), Null) by { HangsSame(s1, s2, c, To(succ), Null); }
    assert Rep(s2, l, To(succ)) by { RepFrame(s, s2, l, To(item), To(succ)); }
    assert Hangs(s2, path, RootLink(sr), To(succ)) by { HangsSame(s, s2, path, RootLink(sr), To(succ)); }
    assert Rep(s2, sr, Above(path, To(succ))) by { RepSame(s, s2, sr, Above(path, To(succ))); }
    Reassembled(s2, root', w, c, l, path, succ, sr);
  }

  lemma {:induction false} Reassembled<K, V>(s: seq<Cell<K, V>>, root: Link, w: set<nat>, c: Context, l: Tree,
          path: Context, succ: nat, sr: Tree)
    requires CSlots(c) <= w && Slots(l) <= w && CSlots(path) <= w && Slots(sr) <= w && succ in w
    requires CSlots(c) !! Slots(l) !! CSlots(path) !! {succ} !! Slots(sr)
    requires succ < |s| && s[succ].entry.Some? && s[succ].left == RootLink(l)
    requires s[succ].right == TopLink(path, RootLink(sr))
    requires s[succ].parent == Above(c, Null) && root == TopLink(c, To(succ))
    requires Hangs(s, c, To(succ), Null) && Rep(s, l, To(succ))
    requires Hangs(s, path, RootLink(sr), To(succ)) && Rep(s, sr, Above(path, To(succ)))
    ensures Focused(s, root, w, Append(path, Under(false, succ, l, c)), sr)
  {
    var outer := Under(false, succ, l, c);
    assert Hangs(s, outer, TopLink(path, RootLink(sr)), Null);
    AppendSlots(path, outer);
    HangsAppend(s, path, outer, RootLink(sr), Null);
  }

  // ----- free list -----

  ghost predicate FreeList<K, V>(s: seq<Cell<K, V>>, free: seq<nat>, head: Link) {
    && head == LinkAt(free, 0)
    && (forall k :: 0 <= k < |free| ==> free[k] < |s| && s[free[k]].left == LinkAt(free, k + 1))
    && NoRepeats(free)
  }
}
