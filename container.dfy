/** A standard set-like container as the save/load protocol sees it: its
    category, fixed by its type; its elements in iteration order; and, for the
    hashed categories, the element count its buckets have been reserved for.
    Only the members the protocol calls are modelled: `size`, `clear`,
    `reserve` and `emplace_hint`. */
module Container {
  import opened Classifier
  import SetSpec

  class SetContainer {
    const category: Category
    var elems: seq<int>
    var reserved: nat

    ghost predicate Valid()
      reads this
    {
      SetSpec.Valid(category, elems) && (SetSpec.IsOrdered(category) ==> reserved == 0)
    }

    /** The contents, regardless of iteration order. */
    function Contents(): multiset<int>
      reads this
    {
      multiset(elems)
    }

    function Size(): nat
      reads this
    {
      |elems|
    }

    /** An empty container of the given category. */
    constructor (cat: Category)
      ensures Valid()
      ensures category == cat && elems == [] && reserved == 0
    {
      category, elems, reserved := cat, [], 0;
    }

    /** `clear()`: drops every element; a hashed container keeps its buckets. */
    method Clear()
      requires Valid()
      modifies this`elems
      ensures Valid()
      ensures elems == []
    {
      elems := [];
    }

    /** `reserve(n)` of a hashed container: afterwards it can hold at least
        `n` elements without a rehash. The elements are not touched. */
    method Reserve(n: nat)
      requires Valid() && IsHashed(category)
      modifies this`reserved
      ensures Valid()
      ensures reserved == if n > old(reserved) then n else old(reserved)
    {
      if n > reserved {
        reserved := n;
      }
    }

    /** `emplace_hint(hint, x)`, the hint being a position in the iteration
        sequence (`|elems|` stands for `end()`). Returns the position of the
        inserted element, or of the equal element that kept a unique container
        from inserting. The new sequence does not depend on the hint. */
    method EmplaceHint(hint: nat, x: int) returns (at: nat)
      requires Valid() && hint <= |elems|
      modifies this`elems
      ensures Valid()
      ensures elems == SetSpec.Emplace(category, old(elems), x).elems
      ensures Contents() == SetSpec.Add(category, old(Contents()), x)
      ensures at < |elems| && elems[at] == x
    {
      var placed := SetSpec.Emplace(category, elems, x);
      SetSpec.EmplaceValid(category, elems, x);
      SetSpec.EmplaceContents(category, elems, x);
      elems, at := placed.elems, placed.at;
    }
  }
}
