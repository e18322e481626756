/**
 * IdentityHashSet.java: a set backed by an IdentityHashMap, so two elements are the same
 * only when they are the same object. Elements of a class type compare by reference in
 * Dafny, and the view model stores module identities, so `==` on `T` is that identity.
 */
module IdentitySets {

  class IdentityHashSet<T(==)> {
    /** The keys of the backing map. */
    var elements: set<T>

    /** `new IdentityHashSet()`: empty. */
    constructor ()
      ensures elements == {}
    {
      elements := {};
    }

    /** size: the number of keys in the backing map. */
    function Size(): (n: nat)
      reads this
      ensures n == 0 <==> elements == {}
    {
      |elements|
    }

    /** contains: whether `x` is one of the elements. */
    method Contains(x: T) returns (b: bool)
      ensures b <==> x in elements
    {
      b := x in elements;
    }

    /**
     * add: `map.put(x, new Object()) == null`, true exactly when `x` was absent; afterwards it
     * is present, the size grows by one for a new element, and no other element is touched.
     */
    method Add(x: T) returns (added: bool)
      modifies this
      ensures added <==> x !in old(elements)
      ensures elements == old(elements) + {x}
      ensures Size() == old(Size()) + (if added then 1 else 0)
    {
      added := x !in elements;
      if !added {
        assert elements + {x} == elements;
      }
      elements := elements + {x};
    }

    /**
     * remove: `map.remove(x) != null`, true exactly when `x` was present; afterwards it is
     * absent, the size shrinks by one for a removed element, and no other element is touched.
     */
    method Remove(x: T) returns (removed: bool)
      modifies this
      ensures removed <==> x in old(elements)
      ensures elements == old(elements) - {x}
      ensures Size() == old(Size()) - (if removed then 1 else 0)
    {
      removed := x in elements;
      elements := elements - {x};
    }
  }
}
