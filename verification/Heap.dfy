/** The fixed-capacity binary heap. */
module HeapContainer {
  import opened Basics
  import opened HeapOrder

  /** `higher(x, y)` is the comparator: `x` has higher priority than `y`. */
  class Heap<T(0, !new)> {
    const higher: (T, T) -> bool
    const storage: array<T>
    var size: nat

    ghost predicate Valid()
      reads this, storage
    {
      0 < storage.Length && size <= storage.Length && StrictWeakOrder(higher) && HeapFrom(storage[..], higher, 0, size)
    }

    /** The elements held, as often as they are held. */
    ghost function Elements(): multiset<T>
      requires size <= storage.Length
      reads this, storage
    {
      multiset(storage[..size])
    }

    constructor (capacity: nat, higher: (T, T) -> bool)
      requires capacity > 0 && StrictWeakOrder(higher)
      ensures Valid() && fresh(storage) && storage.Length == capacity && this.higher == higher
      ensures Elements() == multiset{}
    {
      this.higher := higher;
      storage := new T[capacity];
      size := 0;
    }

    /** No element has higher priority than the one returned. */
    method Top() returns (top: T)
      requires Valid() && size > 0
      ensures top == storage[0] && top in Elements() && forall x :: x in Elements() ==> !higher(x, top)
    {
      top := storage[0];
      RootAboveAll(storage[..], higher, size);
    }

    method Push(value: T) returns (status: Status)
      requires Valid()
      modifies this, storage
      ensures Valid()
      ensures status == if old(size) == storage.Length then Full else Ok
      ensures Elements() == if status == Ok then old(Elements()) + multiset{value} else old(Elements())
    {
      if size == storage.Length {
        return Full;
      }
      ghost var s := storage[..];
      storage[size] := value;
      size := size + 1;
      Appended(s, storage[..], higher, size - 1, value);
      hide Valid, HeapFrom, MayGoUp;
      SiftUp(size - 1);
      return Ok;
    }

    method Pop() returns (status: Status)
      requires Valid()
      modifies this, storage
      ensures Valid()
      ensures status == if old(size) == 0 then Empty else Ok
      ensures size == if old(size) == 0 then 0 else old(size) - 1
      ensures status == Empty ==> Elements() == old(Elements())
      ensures status == Ok ==>
        old(storage[0]) in old(Elements()) && Elements() == old(Elements()) - multiset{old(storage[0])}
      ensures status == Ok ==> forall x :: x in old(Elements()) ==> !higher(x, old(storage[0]))
    {
      if size == 0 {
        return Empty;
      }
      RootAboveAll(storage[..], higher, size);
      ghost var s := storage[..];
      var last := size - 1;
      if last != 0 {
        storage[0] := storage[last];
      }
      size := size - 1;
      Plugged(s, storage[..], last, 0);
      if size > 0 {
        PluggedRoot(s, storage[..], higher, last);
        SiftDown(0);
      }
      return Ok;
    }

    /** Popping until the heap is empty yields all its elements in order of priority. */
    method Drain() returns (out: seq<T>)
      requires Valid()
      modifies this, storage
      ensures Valid() && size == 0
      ensures multiset(out) == old(Elements())
      ensures forall i, j :: 0 <= i < j < |out| ==> !higher(out[j], out[i])
    {
      hide StrictWeakOrder, HeapFrom;
      out := [];
      while size > 0
        invariant Valid() && multiset(out) + Elements() == old(Elements()) && Drained(out, Elements(), higher)
        decreases size
      {
        ghost var before := Elements();
        var top := Top();
        var _ := Pop();
        DrainStep(out, before, top, higher);
        out := out + [top];
      }
      assert Elements() == multiset{};
    }

    /** The element moved into the gap has to go one way at most. */
    method RemoveAt(index: nat) returns (status: Status)
      requires Valid()
      modifies this, storage
      ensures Valid()
      ensures status == if index >= old(size) then OutOfRange else Ok
      ensures status == OutOfRange ==> Elements() == old(Elements())
      ensures status == Ok ==>
        old(storage[index]) in old(Elements()) && Elements() == old(Elements()) - multiset{old(storage[index])}
    {
      if index >= size {
        return OutOfRange;
      }
      ghost var s := storage[..];
      var last := size - 1;
      if index != last {
        storage[index] := storage[last];
      }
      size := size - 1;
      Plugged(s, storage[..], last, index);
      Shortened(s, higher, last);
      hide StrictWeakOrder, HeapFrom, MayGoUp, MayGoDown;
      if index < size {
        if index > 0 && higher(storage[index], storage[Parent(index)]) {
          PluggedHigh(s, storage[..], higher, last, index);
          SiftUp(index);
        } else {
          PluggedLow(s, storage[..], higher, last, index);
          SiftDown(index);
        }
      }
      return Ok;
    }

    method ReplaceTop(value: T) returns (status: Status)
      requires Valid()
      modifies this, storage
      ensures Valid() && size == old(size)
      ensures status == if size == 0 then Empty else Ok
      ensures status == Empty ==> Elements() == old(Elements())
      ensures status == Ok ==> Elements() == old(Elements()) - multiset{old(storage[0])} + multiset{value}
    {
      if size == 0 {
        return Empty;
      }
      ghost var s := storage[..];
      storage[0] := value;
      assert storage[..size] == s[..size][0 := value];
      SiftDown(0);
      return Ok;
    }

    method Clear()
      requires Valid()
      modifies this`size
      ensures Valid() && Elements() == multiset{}
    {
      size := 0;
    }

    method SiftUp(from: nat)
      requires size <= storage.Length && 0 < storage.Length && StrictWeakOrder(higher)
      requires MayGoUp(storage[..], higher, size, from)
      modifies storage
      ensures Valid() && Elements() == old(Elements())
    {
      hide StrictWeakOrder, MayGoUp, HeapFrom, Swap;
      assert from < size by { InBounds(storage[..], higher, size, from); }
      var index: nat := from;
      while index > 0
        invariant index < size && MayGoUp(storage[..], higher, size, index)
        invariant multiset(storage[..size]) == old(multiset(storage[..size]))
      {
        ghost var s := storage[..];
        var p := Parent(index);
        if !higher(storage[index], storage[p]) {
          break;
        }
        UpStep(s, higher, size, index);
        SwapKeepsElements(s, index, p, size);
        SwapValues(index, p);
        assert storage[..size] == storage[..][..size];
        index := p;
      }
      UpDone(storage[..], higher, size, index);
    }

    method SiftDown(from: nat)
      requires size <= storage.Length && 0 < storage.Length && StrictWeakOrder(higher)
      requires MayGoDown(storage[..], higher, 0, size, from)
      modifies storage
      ensures Valid() && Elements() == old(Elements())
    {
      hide StrictWeakOrder, MayGoDown, HeapFrom, BestChild, Swap;
      var index := from;
      while true
        invariant MayGoDown(storage[..], higher, 0, size, index)
        invariant multiset(storage[..size]) == old(multiset(storage[..size]))
        decreases size - index
      {
        ghost var s := storage[..];
        var child := index * 2 + 1;
        if child >= size {
          NoChild(s, higher, 0, size, index);
          break;
        }
        var selected := child;
        var right := child + 1;
        if right < size && higher(storage[right], storage[child]) {
          selected := right;
        }
        BestOfTwo(s, higher, size, index, selected);
        if !higher(storage[selected], storage[index]) {
          DownDone(s, higher, 0, size, index, selected);
          break;
        }
        DownStep(s, higher, 0, size, index, selected);
        SwapKeepsElements(s, index, selected, size);
        SwapValues(index, selected);
        assert storage[..size] == storage[..][..size];
        index := selected;
      }
    }

    method SwapValues(i: nat, j: nat)
      requires i < storage.Length && j < storage.Length
      modifies storage
      ensures storage[..] == Swap(old(storage[..]), i, j)
    {
      storage[i], storage[j] := storage[j], storage[i];
    }
  }

  /** `out` is in order of priority, and nothing in `rest` should have come earlier. */
  ghost predicate Drained<T>(out: seq<T>, rest: multiset<T>, higher: (T, T) -> bool) {
    && (forall i, j :: 0 <= i < j < |out| ==> !higher(out[j], out[i]))
    && (forall i, x :: 0 <= i < |out| && x in rest ==> !higher(x, out[i]))
  }

  lemma {:induction false} DrainStep<T>(out: seq<T>, rest: multiset<T>, top: T, higher: (T, T) -> bool)
    requires Drained(out, rest, higher) && top in rest && forall x :: x in rest ==> !higher(x, top)
    ensures Drained(out + [top], rest - multiset{top}, higher)
    ensures multiset(out + [top]) + (rest - multiset{top}) == multiset(out) + rest
  {
  }

  // ----- the effect of single writes -----

  lemma {:induction false} InBounds<T>(s: seq<T>, higher: (T, T) -> bool, n: nat, i: nat)
    requires MayGoUp(s, higher, n, i)
    ensures i < n <= |s|
  {
  }

  lemma {:induction false} RootAboveAll<T(!new)>(s: seq<T>, higher: (T, T) -> bool, n: nat)
    requires StrictWeakOrder(higher) && 0 < n <= |s| && HeapFrom(s, higher, 0, n)
    ensures s[0] in multiset(s[..n]) && forall x :: x in multiset(s[..n]) ==> !higher(x, s[0])
  {
    assert s[..n][0] == s[0];
    forall x | x in s[..n] ensures !higher(x, s[0]) {
      var i :| 0 <= i < n && s[..n][i] == x;
      RootIsTop(s, higher, n, i);
    }
  }

  lemma {:induction false} Appended<T>(s: seq<T>, s': seq<T>, higher: (T, T) -> bool, n: nat, value: T)
    requires n < |s| == |s'| && s' == s[n := value] && HeapFrom(s, higher, 0, n)
    ensures MayGoUp(s', higher, n + 1, n)
    ensures multiset(s'[..n + 1]) == multiset(s[..n]) + multiset{value}
  {
    assert s'[..n + 1] == s[..n] + [value];
  }

  /** Moving the last of `last + 1` elements into place `i` and shortening drops the element that was at `i`. */
  lemma {:induction false} Plugged<T>(s: seq<T>, s': seq<T>, last: nat, i: nat)
    requires i <= last < |s| == |s'| && s' == s[i := s[last]]
    ensures s[i] in multiset(s[..last + 1]) && multiset(s'[..last]) == multiset(s[..last + 1]) - multiset{s[i]}
  {
    assert s[..last + 1] == s[..last] + [s[last]];
    assert s[..last + 1][i] == s[i];
    if i < last {
      assert s'[..last] == s[..last][i := s[last]];
    } else {
      assert s'[..last] == s[..last];
    }
  }

  lemma {:induction false} Shortened<T>(s: seq<T>, higher: (T, T) -> bool, last: nat)
    requires HeapFrom(s, higher, 0, last + 1)
    ensures HeapFrom(s, higher, 0, last)
  {
  }

  lemma {:induction false} PluggedRoot<T>(s: seq<T>, s': seq<T>, higher: (T, T) -> bool, last: nat)
    requires 0 < last < |s| && s' == s[0 := s[last]] && HeapFrom(s, higher, 0, last + 1)
    ensures MayGoDown(s', higher, 0, last, 0)
  {
  }

  lemma {:induction false} PluggedHigh<T(!new)>(s: seq<T>, s': seq<T>, higher: (T, T) -> bool, last: nat, i: nat)
    requires StrictWeakOrder(higher) && 0 < i < last < |s| && s' == s[i := s[last]] && HeapFrom(s, higher, 0, last + 1)
    requires higher(s'[i], s'[Parent(i)])
    ensures MayGoUp(s', higher, last, i)
  {
    forall j | 0 < j < last && Parent(j) == i ensures !higher(s'[j], s'[Parent(i)]) && !higher(s'[j], s'[i]) {
      NotLessTransitive(higher, s[j], s[i], s[Parent(i)]);
    }
  }

  lemma {:induction false} PluggedLow<T(!new)>(s: seq<T>, s': seq<T>, higher: (T, T) -> bool, last: nat, i: nat)
    requires StrictWeakOrder(higher) && i < last < |s| && s' == s[i := s[last]] && HeapFrom(s, higher, 0, last + 1)
    requires i > 0 ==> !higher(s'[i], s'[Parent(i)])
    ensures MayGoDown(s', higher, 0, last, i)
  {
    forall j | 0 < j < last && Parent(j) == i && i > 0 ensures !higher(s'[j], s'[Parent(i)]) {
      NotLessTransitive(higher, s[j], s[i], s[Parent(i)]);
    }
  }
}
