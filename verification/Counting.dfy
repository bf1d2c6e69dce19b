/** Counting the elements of a sequence that satisfy a predicate. */
module Counting {

  /** How many elements satisfy `at`. */
  function Number<T>(s: seq<T>, at: T -> bool): nat {
    if s == [] then 0 else Number(s[..|s| - 1], at) + if at(s[|s| - 1]) then 1 else 0
  }

  lemma {:induction false} NumberUpdate<T>(s: seq<T>, at: T -> bool, i: nat, x: T)
    requires i < |s|
    ensures Number(s[i := x], at) + (if at(s[i]) then 1 else 0) == Number(s, at) + if at(x) then 1 else 0
    decreases s
  {
    var last := |s| - 1;
    if i == last {
      assert s[i := x][..last] == s[..last];
    } else {
      assert s[i := x][..last] == s[..last][i := x];
      NumberUpdate(s[..last], at, i, x);
    }
  }

  lemma {:induction false} NumberNone<T>(s: seq<T>, at: T -> bool)
    requires forall i :: 0 <= i < |s| ==> !at(s[i])
    ensures Number(s, at) == 0
    decreases s
  {
    if s != [] {
      NumberNone(s[..|s| - 1], at);
    }
  }

  lemma {:induction false} NumberBound<T>(s: seq<T>, at: T -> bool)
    ensures Number(s, at) <= |s|
    decreases s
  {
    if s != [] {
      NumberBound(s[..|s| - 1], at);
    }
  }

  lemma {:induction false} NumberAll<T>(s: seq<T>, at: T -> bool)
    ensures Number(s, at) == |s| <==> forall i :: 0 <= i < |s| ==> at(s[i])
    decreases s
  {
    if s != [] {
      var last := |s| - 1;
      NumberAll(s[..last], at);
      NumberBound(s[..last], at);
      assert forall i :: 0 <= i < last ==> s[i] == s[..last][i];
    }
  }
}
