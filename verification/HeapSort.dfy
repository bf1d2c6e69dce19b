/** `sort`: heapsort on an array, under any strict weak order. */
module HeapSort {
  import opened Basics
  import opened HeapOrder

  /** Every element in its place: none comes before an earlier one. */
  ghost predicate Sorted<T>(s: seq<T>, less: (T, T) -> bool) {
    forall i, j :: 0 <= i < j < |s| ==> !less(s[j], s[i])
  }

  method SwapElements<T>(a: array<T>, i: nat, j: nat)
    requires i < a.Length && j < a.Length
    modifies a
    ensures a[..] == Swap(old(a[..]), i, j)
  {
    a[i], a[j] := a[j], a[i];
  }

  /** Among the first `count` elements, sinks the one at `from` until it meets no greater child. */
  method SiftDown<T(!new)>(a: array<T>, from: nat, count: nat, less: (T, T) -> bool)
    requires StrictWeakOrder(less) && count <= a.Length
    requires MayGoDown(a[..], Reversed(less), from, count, from)
    modifies a
    ensures HeapFrom(a[..], Reversed(less), from, count)
    ensures multiset(a[..count]) == multiset(old(a[..count])) && a[count..] == old(a[count..])
  {
    ReversedIsOrder(less);
    hide MayGoDown, HeapFrom, BestChild, StrictWeakOrder, Swap;
    var root := from;
    ghost var more := Reversed(less);
    while count > 1 && root <= (count - 2) / 2
      invariant MayGoDown(a[..], more, from, count, root)
      invariant multiset(a[..count]) == multiset(old(a[..count])) && a[count..] == old(a[count..])
      decreases count - root
    {
      ghost var s := a[..];
      var child := root * 2 + 1;
      if child + 1 < count && less(a[child], a[child + 1]) {
        child := child + 1;
      }
      BestOfTwo(s, more, count, root, child);
      if !less(a[root], a[child]) {
        DownDone(s, more, from, count, root, child);
        return;
      }
      DownStep(s, more, from, count, root, child);
      SwapKeepsElements(s, root, child, count);
      SwapElements(a, root, child);
      assert a[..count] == a[..][..count] && a[count..] == a[..][count..];
      root := child;
    }
    NoChild(a[..], more, from, count, root);
  }

  method Sort<T(!new)>(a: array<T>, less: (T, T) -> bool)
    requires StrictWeakOrder(less)
    modifies a
    ensures Sorted(a[..], less)
    ensures multiset(a[..]) == multiset(old(a[..]))
  {
    var count := a.Length;
    if count <= 1 {
      return;
    }
    ghost var more := Reversed(less);
    var start := count / 2;
    while start > 0
      invariant 0 <= start <= count / 2 && HeapFrom(a[..], more, start, count)
      invariant multiset(a[..count]) == multiset(old(a[..count]))
    {
      SiftDown(a, start - 1, count, less);
      start := start - 1;
    }
    assert a[..count] == a[..] && old(a[..count]) == old(a[..]);
    var end := count;
    while end > 1
      invariant 0 < end <= count && HeapFrom(a[..], more, 0, end)
      invariant multiset(a[..]) == multiset(old(a[..]))
      invariant Settled(a[..], less, end)
    {
      end := SettleLast(a, end, less);
    }
  }

  /** The elements from `end` on are sorted, and none of them comes before one of the first `end`. */
  ghost predicate Settled<T>(s: seq<T>, less: (T, T) -> bool, end: nat) {
    && end <= |s|
    && (forall i, j :: end <= i < j < |s| ==> !less(s[j], s[i]))
    && (forall i, j :: 0 <= i < end <= j < |s| ==> !less(s[j], s[i]))
  }

  /** One turn of the second phase: the greatest element of the heap goes behind it. */
  method SettleLast<T(!new)>(a: array<T>, end: nat, less: (T, T) -> bool) returns (end': nat)
    requires StrictWeakOrder(less) && 1 < end <= a.Length
    requires HeapFrom(a[..], Reversed(less), 0, end) && Settled(a[..], less, end)
    modifies a
    ensures end' == end - 1 && HeapFrom(a[..], Reversed(less), 0, end') && Settled(a[..], less, end')
    ensures multiset(a[..]) == multiset(old(a[..]))
  {
    ghost var s := a[..];
    SwapElements(a, 0, end - 1);
    SwapKeepsElements(s, 0, end - 1, a.Length);
    assert a[..][..a.Length] == a[..] && s[..a.Length] == s;
    SwappedSettled(s, less, end);
    ghost var s1 := a[..];
    SiftDown(a, 0, end - 1, less);
    PrefixShuffled(s1, a[..], less, end - 1);
    end' := end - 1;
  }

  lemma {:induction false} SwappedSettled<T(!new)>(s: seq<T>, less: (T, T) -> bool, end: nat)
    requires StrictWeakOrder(less) && 1 < end <= |s|
    requires HeapFrom(s, Reversed(less), 0, end) && Settled(s, less, end)
    ensures Settled(Swap(s, 0, end - 1), less, end - 1)
    ensures MayGoDown(Swap(s, 0, end - 1), Reversed(less), 0, end - 1, 0)
  {
    ReversedIsOrder(less);
    forall i | 0 <= i < end ensures !less(s[0], s[i]) { RootIsTop(s, Reversed(less), end, i); }
  }

  /** Shuffling the first `end` elements among themselves does not unsettle the rest. */
  lemma {:induction false} PrefixShuffled<T>(s: seq<T>, s': seq<T>, less: (T, T) -> bool, end: nat)
    requires Settled(s, less, end) && |s'| == |s|
    requires multiset(s'[..end]) == multiset(s[..end]) && s'[end..] == s[end..]
    ensures Settled(s', less, end)
    ensures multiset(s') == multiset(s)
  {
    assert s == s[..end] + s[end..] && s' == s'[..end] + s'[end..];
    forall j | end <= j < |s| ensures s'[j] == s[j] { assert s'[end..][j - end] == s[end..][j - end]; }
    forall i | 0 <= i < end ensures s'[i] in s[..end] { assert s'[..end][i] in multiset(s'[..end]); }
  }
}
