# Set support of the serialization library, modelled in Dafny

This project models `include/SF/Support/set.hpp`, the header that lets the
serialization library save and load the four standard set-like containers:
`std::set`, `std::multiset`, `std::unordered_set` and `std::unordered_multiset`.

The header has three parts, and each one is modelled:

- **The category classifier.** Four type predicates recognise the four
  class templates. Two disjunctions are built from them: "any hashed set" and
  "any set". A C++ type is modelled by its shape: a template and its full
  argument list, with defaults filled in (module `Classifier`). The model
  classifies a type into one of four categories, ordered or hashed crossed
  with unique or multi, or into none.
- **`reserve_unordered`.** A hashed container reserves room for the announced
  element count. For an ordered one the call does nothing (module
  `Serialization`).
- **Save and Load.**
  - Save writes the element count as a u64, then the elements in iteration
    order.
  - Load reads the count and clears the container. It reserves room, then
    reads `count` elements. Each element is inserted with `emplace_hint`,
    using as hint the iterator the previous insertion returned, starting from
    `begin()`.

  Save and Load are methods on two classes:
  - `Archive.Archive`: an item stream with a read position;
  - `Container.SetContainer`: the container's category, its iteration
    sequence and its bucket reservation.

  Both methods are proved against specification functions in module
  `SetSpec`.

What a container does with one hinted insertion is modelled as a walk along
the iteration sequence (`SetSpec.Emplace`). What it holds after a run of
insertions is stated independently (`SetSpec.Expected`): a multi container
keeps every element, and a unique container keeps each distinct element once.

The main results:

- Load leaves the container valid (sorted if ordered, duplicate-free if
  unique).
- Load gives the container exactly the prescribed contents.
- A save followed by a load reproduces the contents and the size. For the
  ordered categories it also reproduces the iteration sequence.
- The order in which elements arrive does not change the resulting contents.
  Neither does the hint.
- A truncated stream makes Load stop at the first failed read.

## Model

| member | source | states |
|---|---|---|
| Classifier.Classify | include/SF/Support/set.hpp:17-44 | A type gets the category of exactly the one predicate that holds for it. It gets a category at all iff "any set" holds. The category is hashed iff "any hashed set" holds. |
| Classifier.CategoriesExclusive | include/SF/Support/set.hpp:28-31 | No type satisfies two of the four predicates. |
| Classifier.AsWrittenAgreesOnDefaultAllocator | include/SF/Support/set.hpp:17-20 | Take the predicates as the macro writes them. They agree with the intended classifier on every type whose hashed instances use the default allocator. |
| Classifier.AsWrittenRejectsCustomAllocator | include/SF/Support/set.hpp:17-20 | Conversely, every hashed instance whose allocator is not the default is a set for the intended classifier, and the predicates as written reject it. |
| Classifier.CustomAllocatorNotMatched | include/SF/Support/set.hpp:17-20 | An `unordered_set` with a custom allocator is rejected by the predicates as written. |
| Classifier.AnyAllocatorMatched | include/SF/Support/set.hpp:29-31 | The corrected classifier accepts every hashed instance, whatever its hasher, key equality or allocator. |
| SetSpec.Emplace | include/SF/Support/set.hpp:93 | The returned position designates an element equal to the inserted one. |
| SetSpec.EmplacePosition | include/SF/Support/set.hpp:93 | The returned position is the first element equal to `x`. In an ordered container every element before it is less than `x`, so it is the lower bound. |
| SetSpec.EmplaceContents | include/SF/Support/set.hpp:93 | One insertion adds `x` once. The exception is a unique container that already holds `x`, which stays unchanged. |
| SetSpec.EmplaceValid | include/SF/Support/set.hpp:93 | An insertion keeps an ordered container sorted and a unique one free of duplicates. |
| SetSpec.LoadAllContents | include/SF/Support/set.hpp:84-94 | Elements inserted one by one into a cleared container give a valid iteration sequence. It holds exactly the prescribed multiset. |
| SetSpec.LoadAllSize | include/SF/Support/set.hpp:84-94 | After the insertions, a multi container holds one element per insertion. A unique one holds one element per distinct value. |
| SetSpec.LoadOrderIndependent | include/SF/Support/set.hpp:87-94 | Any two arrival orders of the same elements give the same contents. For ordered categories they give the same iteration sequence. |
| SetSpec.LoadAllRoundTrip | include/SF/Support/set.hpp:67-97 | Re-inserting a valid container's iteration sequence gives its contents and size back. For ordered categories it gives the sequence back. |
| Archive.ElemItems | include/SF/Support/set.hpp:72 | One element item per element, in iteration order. |
| Archive.ElemRun | include/SF/Support/set.hpp:88-91 | Up to `n` element reads from a position yield at most `n` values. A shorter run stops at the end of the stream or at a non-element item. |
| Archive.ElemRunReadsElements | include/SF/Support/set.hpp:88-91 | Each value of a run is the element stored at the corresponding stream position. |
| Archive.ElemRunStops | include/SF/Support/set.hpp:88-91 | Once a read fails, asking for more reads does not change the run. |
| Archive.ElemRunOfElemItems | include/SF/Support/set.hpp:72 | Element items written for a sequence are read back as that sequence, whatever follows them. |
| Archive.Archive.constructor | include/SF/Support/set.hpp:67-97 | The archive starts over the given items, positioned at their start. |
| Archive.Archive.WriteCount | include/SF/Support/set.hpp:69-70 | Writing a count appends one count item. |
| Archive.Archive.WriteElem | include/SF/Support/set.hpp:72 | Writing an element appends one element item. |
| Archive.Archive.ReadCount | include/SF/Support/set.hpp:81-82 | A read yields the count at the position and advances by one. At the end of the stream or on another item it fails and the position stays. |
| Archive.Archive.ReadElem | include/SF/Support/set.hpp:90-91 | A read yields the element at the position and advances by one. At the end of the stream or on another item it fails and the position stays. |
| Container.SetContainer.constructor | include/SF/Support/set.hpp:77-97 | A new container of a category is empty, valid and has nothing reserved. |
| Container.SetContainer.Clear | include/SF/Support/set.hpp:84 | `clear()` empties the iteration sequence and keeps the container valid. |
| Container.SetContainer.Reserve | include/SF/Support/set.hpp:59 | `reserve(n)` of a hashed container raises its reservation to at least `n`. The elements are untouched. |
| Container.SetContainer.EmplaceHint | include/SF/Support/set.hpp:93 | The new sequence is the hinted insertion of the old one. It stays valid, and its contents gain `x` unless a unique container already held it. The returned position designates `x`. |
| Serialization.ReadFromFinds | include/SF/Support/set.hpp:81-91 | Each element a load finds after the count is the element item at the corresponding stream position, in order. If it finds fewer than the count, the next element read fails: the stream ends there or holds something other than an element. |
| Serialization.ReserveUnordered | include/SF/Support/set.hpp:51-60 | A hashed container reserves room for `size` elements. An ordered container is left unchanged. |
| Serialization.SlowCompress | include/SF/Support/set.hpp:72 | The element step appends the container's elements in iteration order. |
| Serialization.Save | include/SF/Support/set.hpp:67-75 | Save appends exactly `Encoding` of the container's iteration sequence: the count as a u64, then one element item per element in iteration order. |
| Serialization.Load | include/SF/Support/set.hpp:77-97 | With no readable count, Load fails and nothing changes. Otherwise the old contents are gone and the reservation follows the count. The container becomes the fold of insertions of the elements read, holding their prescribed multiset. Load consumes exactly those items and succeeds iff all `count` elements were read. |
| Serialization.LoadElements | include/SF/Support/set.hpp:87-94 | The element loop inserts exactly the run of elements the reads obtain. It stops at the first failed read and keeps the container valid. |
| Serialization.DecodeEncoding | include/SF/Support/set.hpp:67-97 | A load at the start of a saved form (`Encoding`), whatever precedes or follows it, finds the saved count and all the saved elements. |
| Serialization.SaveThenLoad | include/SF/Support/set.hpp:67-97 | Saving a valid container and loading into a container of the same category succeeds. It reproduces the contents and the size, and for ordered categories the iteration sequence. |

## Left out

- The type registry binding and the conditional-serialization macros
  (set.hpp:103, 67, 77) are not modelled. The SFINAE dispatch is reduced to
  `Classify` returning a category or nothing.
- The byte layout of the archive and the recursive encoding of an element
  belong to the archive layer and are not part of this model. An element is
  an opaque `int`, and the stream is typed: a count item or an element item.
- `compress::slow` is not part of this model. `Serialization.SlowCompress`
  assumes it writes each element in iteration order.
- `Serialization.Save` requires the size to fit a u64, the width the source
  casts it to. No standard container gets that large.
- A failed archive read is modelled as Load stopping and returning
  `Truncated` instead of propagating an exception. The container keeps what
  was inserted before the failure.
- Allocation failure in `reserve` and in element construction, and the
  exceptions that signal it, are not modelled.
- `Container.SetContainer.Reserve`: only the reservation amount is kept. The
  bucket count, the load factor and rehashing are not modelled.
- `SetSpec.Emplace`: for hashed categories the position of a new key
  depends on the hash function and the bucket count. It is taken to be the
  end of the iteration sequence. For hashed containers, only the contents
  and the uniqueness guarantee are claimed.
- The hint only affects the cost of an insertion, never the resulting
  sequence of values, so the model carries it but does not use it. Time
  complexity is not modelled.
- SetSpec.EmplacePosition: for the multi categories the returned position
  is fixed at the first element equal to `x`. The container returns the new
  element wherever the hint puts it among the equal ones. For example, with
  arrivals `[1, 2, 1]` and the threaded hint, the second `1` goes after the
  first and index 1 is returned, where the model returns index 0. Which of
  several equal elements is the new one is therefore not modelled. The
  sequence of values, and so the contents and the iteration sequence, is
  the same.
- Element types are reduced to `int` with its usual order and equality.
  Custom comparators, hashers and key-equality predicates are not modelled.
- Thread safety and the archive's I/O are out of scope.

## Findings

| source | as written | input that shows it | evidently intended | confidence | as-written member | corrected member |
|---|---|---|---|---|---|---|
| include/SF/Support/set.hpp:17-20, 29, 31 | The one macro gives every predicate the partial specialisation `std::X<Key, Compare, Alloc>`. For the four-parameter hashed templates that pattern stands for `<Key, Hash, KeyEqual, std::allocator<Key>>`, so only instances with the default allocator match. | `std::unordered_set<int, std::hash<int>, std::equal_to<int>, A<int>>` with a custom allocator `A`: the predicate is false, so the type gets no Save/Load. | Every instance of `unordered_set` and `unordered_multiset` is recognised, as every instance of `set` and `multiset` is. | high, not executed | Classifier.CustomAllocatorNotMatched | Classifier.AnyAllocatorMatched |

The rest of the model uses the corrected classifier, `Classifier.Classify`.
`Classifier.AsWrittenRejectsCustomAllocator` states the as-written half for
every hashed instance with a custom allocator, not only the one example.
