/** Binary-heap order on a sequence, and the two sifting steps that restore it. */
module HeapOrder {
  import opened Basics

  function Parent(i: nat): nat
    requires i > 0
  {
    (i - 1) / 2
  }

  function Swap<T>(s: seq<T>, i: nat, j: nat): seq<T>
    requires i < |s| && j < |s|
  {
    s[i := s[j]][j := s[i]]
  }

  /** Below index `lo`, among the first `n` elements, no child has higher priority than its parent. */
  ghost predicate HeapFrom<T>(s: seq<T>, higher: (T, T) -> bool, lo: nat, n: nat) {
    n <= |s| && forall j :: 0 < j < n && lo <= Parent(j) ==> !higher(s[j], s[Parent(j)])
  }

  /** As `HeapFrom`, except that the element at `i` may have to move down. */
  ghost predicate MayGoDown<T>(s: seq<T>, higher: (T, T) -> bool, lo: nat, n: nat, i: nat) {
    && n <= |s| && lo <= i
    && (forall j :: 0 < j < n && lo <= Parent(j) && Parent(j) != i ==> !higher(s[j], s[Parent(j)]))
    && (forall j :: 0 < j < n && Parent(j) == i && i > 0 && lo <= Parent(i) ==> !higher(s[j], s[Parent(i)]))
  }

  /** As `HeapFrom` from the root, except that the element at `i` may have to move up. */
  ghost predicate MayGoUp<T>(s: seq<T>, higher: (T, T) -> bool, n: nat, i: nat) {
    && n <= |s| && i < n
    && (forall j :: 0 < j < n && j != i ==> !higher(s[j], s[Parent(j)]))
    && (forall j :: 0 < j < n && Parent(j) == i && i > 0 ==> !higher(s[j], s[Parent(i)]))
  }

  /** `child` is a child of `i` with the highest priority. */
  ghost predicate BestChild<T>(s: seq<T>, higher: (T, T) -> bool, n: nat, i: nat, child: nat) {
    && n <= |s| && 0 < child < n && Parent(child) == i
    && (forall j :: 0 < j < n && Parent(j) == i ==> !higher(s[j], s[child]))
  }

  lemma {:induction false} BestOfTwo<T(!new)>(s: seq<T>, higher: (T, T) -> bool, n: nat, i: nat, child: nat)
    requires StrictWeakOrder(higher) && n <= |s| && 2 * i + 1 < n
    requires child == if 2 * i + 2 < n && higher(s[2 * i + 2], s[2 * i + 1]) then 2 * i + 2 else 2 * i + 1
    ensures BestChild(s, higher, n, i, child)
  {
    forall j | 0 < j < n && Parent(j) == i ensures !higher(s[j], s[child]) {
      assert j == 2 * i + 1 || j == 2 * i + 2;
    }
  }

  lemma {:induction false} NoChild<T>(s: seq<T>, higher: (T, T) -> bool, lo: nat, n: nat, i: nat)
    requires MayGoDown(s, higher, lo, n, i) && 2 * i + 1 >= n
    ensures HeapFrom(s, higher, lo, n)
  {
    forall j | 0 < j < n && lo <= Parent(j) ensures !higher(s[j], s[Parent(j)]) {
      assert Parent(j) != i;
    }
  }

  lemma {:induction false} DownStep<T(!new)>(s: seq<T>, higher: (T, T) -> bool, lo: nat, n: nat, i: nat, child: nat)
    requires StrictWeakOrder(higher) && MayGoDown(s, higher, lo, n, i) && BestChild(s, higher, n, i, child)
    requires higher(s[child], s[i])
    ensures MayGoDown(Swap(s, i, child), higher, lo, n, child)
  {
  }

  lemma {:induction false} DownDone<T(!new)>(s: seq<T>, higher: (T, T) -> bool, lo: nat, n: nat, i: nat, child: nat)
    requires StrictWeakOrder(higher) && MayGoDown(s, higher, lo, n, i) && BestChild(s, higher, n, i, child)
    requires !higher(s[child], s[i])
    ensures HeapFrom(s, higher, lo, n)
  {
    forall j | 0 < j < n && Parent(j) == i ensures !higher(s[j], s[i]) {
      NotLessTransitive(higher, s[j], s[child], s[i]);
    }
  }

  /** The two clauses of `MayGoUp`, for one index. */
  lemma {:induction false} MayGoUpAt<T>(s: seq<T>, higher: (T, T) -> bool, n: nat, i: nat, j: nat)
    requires MayGoUp(s, higher, n, i) && 0 < j < n
    ensures j != i ==> !higher(s[j], s[Parent(j)])
    ensures Parent(j) == i && i > 0 ==> !higher(s[j], s[Parent(i)])
  {
  }

  /** What moving `s[i]` up past its parent does to the pair formed by `j` and its parent. */
  lemma {:induction false} UpStepAt<T(!new)>(s: seq<T>, higher: (T, T) -> bool, n: nat, i: nat, j: nat)
    requires StrictWeakOrder(higher) && MayGoUp(s, higher, n, i) && i > 0 && higher(s[i], s[Parent(i)]) && 0 < j < n
    ensures j != Parent(i) ==> !higher(Swap(s, i, Parent(i))[j], Swap(s, i, Parent(i))[Parent(j)])
    ensures Parent(j) == Parent(i) && Parent(i) > 0 ==>
      !higher(Swap(s, i, Parent(i))[j], Swap(s, i, Parent(i))[Parent(Parent(i))])
  {
    var p := Parent(i);
    assert n <= |s| && i < n;
    MayGoUpAt(s, higher, n, i, j);
    if p > 0 { MayGoUpAt(s, higher, n, i, p); }
    hide MayGoUp;
    if j != i && Parent(j) == p {
      NotLessTransitive(higher, s[j], s[p], s[i]);
      if p > 0 { NotLessTransitive(higher, s[j], s[p], s[Parent(p)]); }
    }
  }

  lemma {:induction false} UpStep<T(!new)>(s: seq<T>, higher: (T, T) -> bool, n: nat, i: nat)
    requires StrictWeakOrder(higher) && MayGoUp(s, higher, n, i) && i > 0 && higher(s[i], s[Parent(i)])
    ensures MayGoUp(Swap(s, i, Parent(i)), higher, n, Parent(i))
  {
    assert |Swap(s, i, Parent(i))| == |s|;
    hide StrictWeakOrder, Swap;
    forall j | 0 < j < n
      ensures j != Parent(i) ==> !higher(Swap(s, i, Parent(i))[j], Swap(s, i, Parent(i))[Parent(j)])
      ensures Parent(j) == Parent(i) && Parent(i) > 0 ==>
        !higher(Swap(s, i, Parent(i))[j], Swap(s, i, Parent(i))[Parent(Parent(i))])
    {
      UpStepAt(s, higher, n, i, j);
    }
  }

  lemma {:induction false} UpDone<T>(s: seq<T>, higher: (T, T) -> bool, n: nat, i: nat)
    requires MayGoUp(s, higher, n, i) && (i > 0 ==> !higher(s[i], s[Parent(i)]))
    ensures HeapFrom(s, higher, 0, n)
  {
  }

  /** The root of a heap has the highest priority of all. */
  lemma {:induction false} RootIsTop<T(!new)>(s: seq<T>, higher: (T, T) -> bool, n: nat, i: nat)
    requires StrictWeakOrder(higher) && HeapFrom(s, higher, 0, n) && i < n
    ensures !higher(s[i], s[0])
    decreases i
  {
    if i > 0 {
      RootIsTop(s, higher, n, Parent(i));
      NotLessTransitive(higher, s[i], s[Parent(i)], s[0]);
    }
  }

  lemma {:induction false} SwapKeepsElements<T>(s: seq<T>, i: nat, j: nat, n: nat)
    requires i < n && j < n && n <= |s|
    ensures multiset(Swap(s, i, j)[..n]) == multiset(s[..n])
    ensures Swap(s, i, j)[n..] == s[n..]
  {
    assert Swap(s, i, j)[..n] == Swap(s[..n], i, j);
    assert multiset(Swap(s[..n], i, j)) == multiset(s[..n]);
  }

  /** The reverse of a strict weak order is one too. */
  function Reversed<T>(less: (T, T) -> bool): (T, T) -> bool {
    (x, y) => less(y, x)
  }

  lemma {:induction false} ReversedIsOrder<T(!new)>(less: (T, T) -> bool)
    requires StrictWeakOrder(less)
    ensures StrictWeakOrder(Reversed(less))
  {
    var more := Reversed(less);
    forall x, y, z | Equivalent(more, x, y) && Equivalent(more, y, z) ensures Equivalent(more, x, z) {
      assert Equivalent(less, x, y) && Equivalent(less, y, z);
    }
  }
}
