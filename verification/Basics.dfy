/** Status codes, optional values and strict weak orders shared by every component. */
module Basics {

  datatype Status = Ok | Full | Empty | OutOfRange | NotFound | InvalidCallback | InvalidSubscription | AlreadyExists

  datatype Option<+T> = None | Some(value: T)

  /** The ordering every comparator of the library must satisfy. */
  ghost predicate StrictWeakOrder<T(!new)>(less: (T, T) -> bool) {
    && (forall x :: !less(x, x))
    && (forall x, y, z :: less(x, y) && less(y, z) ==> less(x, z))
    && (forall x, y, z :: Equivalent(less, x, y) && Equivalent(less, y, z) ==> Equivalent(less, x, z))
  }

  /** Neither key comes before the other. */
  predicate Equivalent<T>(less: (T, T) -> bool, x: T, y: T) {
    !less(x, y) && !less(y, x)
  }

  /** "Not before" is transitive under a strict weak order. */
  lemma NotLessTransitive<T(!new)>(less: (T, T) -> bool, x: T, y: T, z: T)
    requires StrictWeakOrder(less)
    requires !less(x, y) && !less(y, z)
    ensures !less(x, z)
  {
    if less(x, z) && !less(y, x) && !less(z, y) {
      assert Equivalent(less, x, y) && Equivalent(less, y, z);
    }
  }
}
