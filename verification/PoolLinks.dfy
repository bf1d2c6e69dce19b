/** Pointers into a pool of nodes, and enumerations of its slots. */
module PoolLinks {

  /** `node*`: null, or the address of a pool slot. */
  datatype Link = Null | To(slot: nat)

  /** The `k`-th slot of an enumeration, null outside of it. */
  function LinkAt(q: seq<nat>, k: int): Link {
    if 0 <= k < |q| then To(q[k]) else Null
  }

  /** The position of the first occurrence of `i`. */
  function Rank(q: seq<nat>, i: nat): (k: nat)
    requires i in q
    ensures k < |q| && q[k] == i
  {
    if q[0] == i then 0 else 1 + Rank(q[1..], i)
  }

  ghost predicate NoRepeats(q: seq<nat>) {
    forall j, k :: 0 <= j < k < |q| ==> q[j] != q[k]
  }

  lemma {:induction false} RankOfElement(q: seq<nat>, k: nat)
    requires NoRepeats(q) && k < |q|
    ensures Rank(q, q[k]) == k
  {
  }
}
