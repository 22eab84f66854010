/** The category classifier of the set support header: four structural
    predicates that recognise the standard set-like class templates, and the
    two disjunctions built from them.

    A C++ type is modelled by its shape: either a non-template type, or an
    instance of a class template together with its FULL template argument list
    as the compiler sees it, default arguments filled in. `std::set<int>` is
    `Instance(StdSet, [int, std::less<int>, std::allocator<int>])` and
    `std::unordered_set<int>` has four arguments (key, hasher, key-equality,
    allocator). Classification is a function of this type alone; no container
    instance and no contents take part. */
module Classifier {
  import opened Wrappers

  datatype Template =
    | StdSet | StdMultiset | StdUnorderedSet | StdUnorderedMultiset
    | StdAllocator
    | OtherTemplate(name: string)

  datatype CppType =
    | Plain(name: string)
    | Instance(template: Template, args: seq<CppType>)

  /** The structural category of a set-like container: unique or multi, ordered
      (tree, sorted iteration) or hashed (buckets, unspecified iteration). */
  datatype Category = OrderedUnique | OrderedMulti | HashedUnique | HashedMulti

  predicate IsMulti(c: Category) { c == OrderedMulti || c == HashedMulti }
  predicate IsHashed(c: Category) { c == HashedUnique || c == HashedMulti }

  /** `std::allocator<key>`, the default allocator of every standard set. */
  function DefaultAllocator(key: CppType): CppType {
    Instance(StdAllocator, [key])
  }

  /** An instance of `template` with its three-argument list `<Key, Compare, Alloc>`:
      the shape the specialisations of the predicates match. */
  predicate MatchesThreeParams(t: CppType, template: Template) {
    t.Instance? && t.template == template && |t.args| == 3
  }

  /** The hashed templates have four parameters `<Key, Hash, KeyEqual, Alloc>`. */
  predicate IsHashedInstance(t: CppType, template: Template) {
    t.Instance? && t.template == template && |t.args| == 4
  }

  // ---------------------------------------------------------------------------
  // The four predicates, as the intended classifier: any instance of the
  // template, whatever its comparator, hasher or allocator.

  predicate IsStdSet(t: CppType) { MatchesThreeParams(t, StdSet) }
  predicate IsStdMultiset(t: CppType) { MatchesThreeParams(t, StdMultiset) }
  predicate IsStdUnorderedSet(t: CppType) { IsHashedInstance(t, StdUnorderedSet) }
  predicate IsStdUnorderedMultiset(t: CppType) { IsHashedInstance(t, StdUnorderedMultiset) }

  predicate IsStdAnyUnorderedSet(t: CppType) {
    IsStdUnorderedSet(t) || IsStdUnorderedMultiset(t)
  }

  predicate IsStdAnySet(t: CppType) {
    IsStdSet(t) || IsStdMultiset(t) || IsStdAnyUnorderedSet(t)
  }

  /** The category a type is classified into, or None when no predicate holds
      and the save/load protocol is not bound to the type. */
  function Classify(t: CppType): (r: Option<Category>)
    ensures r == Some(OrderedUnique) <==> IsStdSet(t)
    ensures r == Some(OrderedMulti) <==> IsStdMultiset(t)
    ensures r == Some(HashedUnique) <==> IsStdUnorderedSet(t)
    ensures r == Some(HashedMulti) <==> IsStdUnorderedMultiset(t)
    ensures r.Some? <==> IsStdAnySet(t)
    ensures r.Some? ==> (IsHashed(r.value) <==> IsStdAnyUnorderedSet(t))
  {
    if !t.Instance? then None
    else match t.template
      case StdSet => if |t.args| == 3 then Some(OrderedUnique) else None
      case StdMultiset => if |t.args| == 3 then Some(OrderedMulti) else None
      case StdUnorderedSet => if |t.args| == 4 then Some(HashedUnique) else None
      case StdUnorderedMultiset => if |t.args| == 4 then Some(HashedMulti) else None
      case _ => None
  }

  /** The four predicates are mutually exclusive: a type belongs to at most
      one category. */
  lemma CategoriesExclusive(t: CppType)
    ensures IsStdSet(t) ==> !IsStdMultiset(t) && !IsStdAnyUnorderedSet(t)
    ensures IsStdMultiset(t) ==> !IsStdSet(t) && !IsStdAnyUnorderedSet(t)
    ensures IsStdUnorderedSet(t) ==> !IsStdUnorderedMultiset(t) && !IsStdSet(t) && !IsStdMultiset(t)
    ensures IsStdUnorderedMultiset(t) ==> !IsStdUnorderedSet(t) && !IsStdSet(t) && !IsStdMultiset(t)
  {
  }

  // ---------------------------------------------------------------------------
  // The hashed predicates as the header writes them. The macro gives every
  // predicate the partial specialisation `std::X<Key, Compare, Alloc>`; for the
  // four-parameter hashed templates that names `<Key, Hash, KeyEqual,
  // std::allocator<Key>>`, so only instances with the default allocator match.

  predicate IsStdUnorderedSetAsWritten(t: CppType) {
    IsHashedInstance(t, StdUnorderedSet) && t.args[3] == DefaultAllocator(t.args[0])
  }

  predicate IsStdUnorderedMultisetAsWritten(t: CppType) {
    IsHashedInstance(t, StdUnorderedMultiset) && t.args[3] == DefaultAllocator(t.args[0])
  }

  predicate IsStdAnySetAsWritten(t: CppType) {
    IsStdSet(t) || IsStdMultiset(t)
    || IsStdUnorderedSetAsWritten(t) || IsStdUnorderedMultisetAsWritten(t)
  }

  /** The written classifier agrees with the intended one on the types whose
      hashed instances use the default allocator. */
  lemma AsWrittenAgreesOnDefaultAllocator(t: CppType)
    requires IsStdAnyUnorderedSet(t) ==> t.args[3] == DefaultAllocator(t.args[0])
    ensures IsStdAnySetAsWritten(t) <==> IsStdAnySet(t)
  {
  }

  /** Conversely, every hashed instance with another allocator is a set for the
      intended classifier and rejected by the written one. */
  lemma AsWrittenRejectsCustomAllocator(t: CppType)
    requires IsStdAnyUnorderedSet(t) && t.args[3] != DefaultAllocator(t.args[0])
    ensures IsStdAnySet(t) && !IsStdAnySetAsWritten(t)
  {
  }

  /** `std::unordered_set<int, std::hash<int>, std::equal_to<int>, A<int>>` with
      a custom allocator `A` is a hashed unique set, yet the written
      predicates reject it, so the save/load protocol is never bound to it. */
  lemma CustomAllocatorNotMatched()
    ensures var key := Plain("int");
            var t := Instance(StdUnorderedSet,
                       [key, Instance(OtherTemplate("std::hash"), [key]),
                        Instance(OtherTemplate("std::equal_to"), [key]),
                        Instance(OtherTemplate("A"), [key])]);
            IsStdUnorderedSet(t) && !IsStdUnorderedSetAsWritten(t) && !IsStdAnySetAsWritten(t)
  {
  }

  /** The intended classifier binds every instance of the hashed templates,
      whatever its hasher, equality and allocator. */
  lemma AnyAllocatorMatched(key: CppType, hash: CppType, eq: CppType, alloc: CppType)
    ensures Classify(Instance(StdUnorderedSet, [key, hash, eq, alloc])) == Some(HashedUnique)
    ensures Classify(Instance(StdUnorderedMultiset, [key, hash, eq, alloc])) == Some(HashedMulti)
  {
  }
}
