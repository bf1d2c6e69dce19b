/**
  The ordered and the hashed container stand for the same bounded map: every sequence of operations
  draws the same answers from both.
 */
module Agreement {
  import opened Basics
  import opened BoundedMap
  import opened AvlContainer
  import opened HashContainer
  import AvlShape
  import AvlKeys

  /** Ordering and equality tell the same keys apart. */
  ghost predicate Consistent<K(!new)>(less: (K, K) -> bool, same: (K, K) -> bool) {
    forall x, y :: same(x, y) <==> Equivalent(less, x, y)
  }

  method RunBoth<K(!new), V>(capacity: nat, less: (K, K) -> bool, hash: K -> nat, same: (K, K) -> bool,
          ops: seq<Op<K, V>>)
    returns (ordered: seq<Answer>, hashed: seq<Answer>)
    requires 0 < capacity < AvlShape.SIZE_LIMIT && StrictWeakOrder(less)
    requires Consistent(less, same) && HashAgrees(hash, same)
    ensures ordered == hashed == Run(same, capacity, map[], ops)
  {
    ConsistentIsEquivalence(less, same);
    RunDependsOnRelation(same, AvlKeys.SameKey(less), capacity, map[], ops);
    hide StrictWeakOrder, EquivalenceRelation, HashAgrees, Consistent, AvlTree.Valid, HashTable.Valid, Run;
    var tree := new AvlTree<K, V>(capacity, less);
    var table := new HashTable<K, V>(capacity, hash, same);
    ordered := RunTree(tree, ops);
    hashed := RunTable(table, ops);
  }

  /** From any valid tree, not only an empty one. */
  method RunTree<K(!new), V>(tree: AvlTree<K, V>, ops: seq<Op<K, V>>) returns (answers: seq<Answer>)
    requires tree.Valid()
    modifies tree, tree.nodes
    ensures tree.Valid()
    ensures answers == Run(AvlKeys.SameKey(tree.less), tree.nodes.Length, old(tree.contents), ops)
  {
    hide AvlTree.Valid, Step, Run;
    ghost var same := AvlKeys.SameKey(tree.less);
    answers := [];
    assert ops[0..] == ops;
    for i := 0 to |ops|
      invariant tree.Valid()
      invariant Run(same, tree.nodes.Length, old(tree.contents), ops)
             == answers + Run(same, tree.nodes.Length, tree.contents, ops[i..])
    {
      RunStep(same, tree.nodes.Length, tree.contents, ops, i, answers);
      var answer := AskTree(tree, ops[i]);
      answers := answers + [answer];
    }
    RunEnds(same, tree.nodes.Length, tree.contents, ops[|ops|..]);
  }

  method RunTable<K(!new), V>(table: HashTable<K, V>, ops: seq<Op<K, V>>) returns (answers: seq<Answer>)
    requires table.Valid()
    modifies table, table.slots
    ensures table.Valid()
    ensures answers == Run(table.same, table.slots.Length, old(table.contents), ops)
  {
    hide HashTable.Valid, Step, Run;
    answers := [];
    assert ops[0..] == ops;
    for i := 0 to |ops|
      invariant table.Valid()
      invariant Run(table.same, table.slots.Length, old(table.contents), ops)
             == answers + Run(table.same, table.slots.Length, table.contents, ops[i..])
    {
      RunStep(table.same, table.slots.Length, table.contents, ops, i, answers);
      var answer := AskTable(table, ops[i]);
      answers := answers + [answer];
    }
    RunEnds(table.same, table.slots.Length, table.contents, ops[|ops|..]);
  }

  method AskTree<K(!new), V>(tree: AvlTree<K, V>, op: Op<K, V>) returns (answer: Answer)
    requires tree.Valid()
    modifies tree, tree.nodes
    ensures tree.Valid()
    ensures (tree.contents, answer) == Step(AvlKeys.SameKey(tree.less), tree.nodes.Length, old(tree.contents), op)
  {
    hide AvlTree.Valid;
    match op {
      case InsertOp(key, value) => var status := tree.Insert(key, value); answer := Did(status);
      case EraseOp(key) => var status := tree.Erase(key); answer := Did(status);
      case ContainsOp(key) => var present := tree.Contains(key); answer := Found(present);
    }
  }

  method AskTable<K(!new), V>(table: HashTable<K, V>, op: Op<K, V>) returns (answer: Answer)
    requires table.Valid()
    modifies table, table.slots
    ensures table.Valid()
    ensures (table.contents, answer) == Step(table.same, table.slots.Length, old(table.contents), op)
  {
    hide HashTable.Valid;
    match op {
      case InsertOp(key, value) => var status := table.Insert(key, value); answer := Did(status);
      case EraseOp(key) => var status := table.Erase(key); answer := Did(status);
      case ContainsOp(key) => var present := table.Contains(key); answer := Found(present);
    }
  }

  lemma {:induction false} ConsistentIsEquivalence<K(!new)>(less: (K, K) -> bool, same: (K, K) -> bool)
    requires StrictWeakOrder(less) && Consistent(less, same)
    ensures EquivalenceRelation(same)
  {
    forall x, y, z | same(x, y) && same(y, z) ensures same(x, z) {
      assert Equivalent(less, x, y) && Equivalent(less, y, z);
    }
  }
}
