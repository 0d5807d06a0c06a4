/** Object identities: the source takes them from `id(self)`, the model
    from a counter. */
module Identity {

  /** Hands out the integers that stand for the object identities the
      source takes from `id(self)`. */
  class IdSource {
    var next: int

    constructor(first: int)
      ensures next == first
    {
      next := first;
    }

    method Fresh() returns (i: int)
      modifies this
      ensures i == old(next) && next == i + 1
    {
      i := next;
      next := next + 1;
    }
  }
}
