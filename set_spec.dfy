/** The abstract behaviour of a set-like container, as the save/load protocol
    relies on it: its iteration sequence, what the standard guarantees about
    that sequence for each category, what one hinted insertion does to it, and
    what a run of insertions from an empty container produces. */
module SetSpec {
  import opened Classifier

  predicate IsUnique(c: Category) { !IsMulti(c) }
  predicate IsOrdered(c: Category) { !IsHashed(c) }

  predicate Sorted(s: seq<int>) {
    forall i, j :: 0 <= i < j < |s| ==> s[i] <= s[j]
  }

  predicate Distinct(s: seq<int>) {
    forall i, j :: 0 <= i < j < |s| ==> s[i] != s[j]
  }

  /** What the standard guarantees of a container's iteration sequence: an
      ordered container iterates in sorted order, a unique one never holds two
      equal elements. A hashed container's order is otherwise unspecified. */
  predicate Valid(cat: Category, s: seq<int>) {
    (IsOrdered(cat) ==> Sorted(s)) && (IsUnique(cat) ==> Distinct(s))
  }

  /** The set of the elements of `s`. */
  function Elements(s: seq<int>): set<int> {
    set y | y in s
  }

  /** The iteration sequence after a hinted insertion, and the position of the
      element the returned iterator designates. */
  datatype Placed = Placed(elems: seq<int>, at: nat)

  /** `emplace_hint(hint, x)` on a container of category `cat` whose iteration
      sequence is `s`. The hint is not a parameter: it may shorten the search
      and never changes the resulting sequence of values; in a multi
      container it decides where among equal elements the new one goes,
      which the model fixes in front of the first equal one. The search
      walks the iteration sequence:
      - an element equal to `x` ends it: a unique container is left as it is
        and the returned iterator designates that element; a multi container
        places `x` in front of it, keeping equal elements adjacent;
      - in an ordered container a greater element ends it too, and `x` goes
        in front of it;
      - at the end of the sequence `x` is appended. A hashed container's
        position for a new key depends on the hash function and the bucket
        count, which are not modelled; the end stands for it. */
  function Emplace(cat: Category, s: seq<int>, x: int): (r: Placed)
    ensures r.at < |r.elems| && r.elems[r.at] == x
  {
    if s == [] then Placed([x], 0)
    else if x == s[0] then
      if IsUnique(cat) then Placed(s, 0) else Placed([x] + s, 0)
    else if IsOrdered(cat) && x < s[0] then Placed([x] + s, 0)
    else
      var r := Emplace(cat, s[1..], x);
      Placed([s[0]] + r.elems, r.at + 1)
  }

  /** The iteration sequence of an empty container after the elements of `xs`
      were inserted one after the other, in order. */
  function LoadAll(cat: Category, xs: seq<int>): seq<int> {
    if xs == [] then []
    else Emplace(cat, LoadAll(cat, xs[..|xs| - 1]), xs[|xs| - 1]).elems
  }

  lemma LoadAllSnoc(cat: Category, xs: seq<int>, x: int)
    ensures LoadAll(cat, xs + [x]) == Emplace(cat, LoadAll(cat, xs), x).elems
  {
  }

  /** What a container of category `cat` holds once it has been given the
      elements `xs`, stated independently of insertion: a multi container
      keeps every element, a unique one each distinct element once. */
  function Expected(cat: Category, xs: seq<int>): multiset<int> {
    if IsMulti(cat) then multiset(xs) else multiset(Elements(xs))
  }

  /** The contents after one insertion, as the container's insertion
      contract states it: `x` is added, unless the category is unique and an
      equal element is already there. */
  function Add(cat: Category, m: multiset<int>, x: int): multiset<int> {
    if IsUnique(cat) && x in m then m else m + multiset{x}
  }

  // ---------------------------------------------------------------------------
  // One insertion

  /** The element the returned iterator designates is the first one equal to
      `x`, and in an ordered container every element in front of it is less
      than `x`: in a sorted sequence, its lower bound. */
  lemma {:induction false} EmplacePosition(cat: Category, s: seq<int>, x: int)
    ensures forall i :: 0 <= i < Emplace(cat, s, x).at ==>
              Emplace(cat, s, x).elems[i] != x && (IsOrdered(cat) ==> Emplace(cat, s, x).elems[i] < x)
  {
    if s != [] && x != s[0] && !(IsOrdered(cat) && x < s[0]) {
      EmplacePosition(cat, s[1..], x);
      var r, r' := Emplace(cat, s, x), Emplace(cat, s[1..], x);
      assert r == Placed([s[0]] + r'.elems, r'.at + 1);
      forall i | 0 <= i < r.at
        ensures r.elems[i] != x && (IsOrdered(cat) ==> r.elems[i] < x)
      {
        if i == 0 {
          assert r.elems[0] == s[0];
        } else {
          assert r.elems[i] == r'.elems[i - 1] && i - 1 < r'.at;
        }
      }
    }
  }

  /** On a valid sequence, a hinted insertion adds `x` once, except into a
      unique container that already holds it, which is left unchanged:
      duplicates are folded silently. */
  lemma {:induction false} EmplaceContents(cat: Category, s: seq<int>, x: int)
    requires Valid(cat, s)
    ensures multiset(Emplace(cat, s, x).elems) == Add(cat, multiset(s), x)
    decreases |s|, 1
  {
    if s == [] {
    } else if x == s[0] {
      assert x in multiset(s);
      if IsMulti(cat) {
        assert multiset([x] + s) == multiset(s) + multiset{x};
      }
    } else if IsOrdered(cat) && x < s[0] {
      SortedBelowHead(s, x);
      assert multiset([x] + s) == multiset(s) + multiset{x};
    } else {
      EmplaceContentsStep(cat, s, x);
    }
  }

  /** The step of `EmplaceContents` where the walk passes the first element. */
  lemma EmplaceContentsStep(cat: Category, s: seq<int>, x: int)
    requires Valid(cat, s) && s != [] && x != s[0] && !(IsOrdered(cat) && x < s[0])
    ensures multiset(Emplace(cat, s, x).elems) == Add(cat, multiset(s), x)
    decreases |s|, 0
  {
    var t := s[1..];
    ValidTail(cat, s);
    EmplaceContents(cat, t, x);
    var r := Emplace(cat, t, x).elems;
    assert Emplace(cat, s, x).elems == [s[0]] + r;
    assert s == [s[0]] + t;
    calc {
      multiset([s[0]] + r);
      multiset{s[0]} + multiset(r);
      multiset{s[0]} + Add(cat, multiset(t), x);
      { assert x in multiset{s[0]} + multiset(t) <==> x in multiset(t); }
      Add(cat, multiset{s[0]} + multiset(t), x);
      Add(cat, multiset(s), x);
    }
  }

  /** A value below the first element of a sorted sequence is not in it. */
  lemma SortedBelowHead(s: seq<int>, x: int)
    requires Sorted(s) && s != [] && x < s[0]
    ensures x !in multiset(s)
  {
  }

  /** Dropping the first element keeps a sequence valid. */
  lemma ValidTail(cat: Category, s: seq<int>)
    requires Valid(cat, s) && s != []
    ensures Valid(cat, s[1..])
  {
  }

  /** Putting `a` in front of a valid sequence keeps it valid, provided `a` is
      not greater than any element (ordered) and not among them (unique). */
  lemma ConsValid(cat: Category, a: int, t: seq<int>)
    requires Valid(cat, t)
    requires IsOrdered(cat) ==> forall i :: 0 <= i < |t| ==> a <= t[i]
    requires IsUnique(cat) ==> a !in t
    ensures Valid(cat, [a] + t)
  {
  }

  /** A hinted insertion keeps the ordering and uniqueness guarantees. */
  lemma {:induction false} EmplaceValid(cat: Category, s: seq<int>, x: int)
    requires Valid(cat, s)
    ensures Valid(cat, Emplace(cat, s, x).elems)
    decreases |s|, 1
  {
    if s == [] {
    } else if x == s[0] {
      if IsMulti(cat) {
        ConsValid(cat, x, s);
      }
    } else if IsOrdered(cat) && x < s[0] {
      SortedBelowHead(s, x);
      ConsValid(cat, x, s);
    } else {
      EmplaceValidStep(cat, s, x);
    }
  }

  /** The step of `EmplaceValid` where the walk passes the first element. */
  lemma EmplaceValidStep(cat: Category, s: seq<int>, x: int)
    requires Valid(cat, s) && s != [] && x != s[0] && !(IsOrdered(cat) && x < s[0])
    ensures Valid(cat, Emplace(cat, s, x).elems)
    decreases |s|, 0
  {
    var t := s[1..];
    ValidTail(cat, s);
    EmplaceValid(cat, t, x);
    EmplaceContents(cat, t, x);
    var r := Emplace(cat, t, x).elems;
    assert Emplace(cat, s, x).elems == [s[0]] + r;
    assert multiset(r) <= multiset(t) + multiset{x};
    if IsOrdered(cat) {
      HeadBelowRest(s, r, x);
    }
    if IsUnique(cat) {
      HeadNotInRest(s, r, x);
    }
    ConsValid(cat, s[0], r);
  }

  /** The first element of a sorted sequence is at most every element of a
      sequence drawn from the rest of it and a greater `x`. */
  lemma HeadBelowRest(s: seq<int>, r: seq<int>, x: int)
    requires Sorted(s) && s != [] && s[0] < x
    requires multiset(r) <= multiset(s[1..]) + multiset{x}
    ensures forall i :: 0 <= i < |r| ==> s[0] <= r[i]
  {
    var t := s[1..];
    forall i | 0 <= i < |r|
      ensures s[0] <= r[i]
    {
      assert r[i] in multiset(r);
      if r[i] != x {
        assert r[i] in t;
      }
    }
  }

  /** The first element of a duplicate-free sequence is not in a sequence
      drawn from the rest of it and an `x` different from it. */
  lemma HeadNotInRest(s: seq<int>, r: seq<int>, x: int)
    requires Distinct(s) && s != [] && s[0] != x
    requires multiset(r) <= multiset(s[1..]) + multiset{x}
    ensures s[0] !in r
  {
    var t := s[1..];
    assert s[0] !in t by {
      forall j | 0 <= j < |t|
        ensures t[j] != s[0]
      {
        assert t[j] == s[j + 1];
      }
    }
    assert s[0] !in multiset(r);
  }

  // ---------------------------------------------------------------------------
  // A run of insertions

  lemma ElementsSnoc(xs: seq<int>, x: int)
    ensures Elements(xs + [x]) == Elements(xs) + {x}
  {
  }

  lemma MultisetOfSetAdd(a: set<int>, x: int)
    requires x !in a
    ensures multiset(a + {x}) == multiset(a) + multiset{x}
  {
  }

  /** Giving a container one more element adds it, unless the category is
      unique and the element is already there. */
  lemma ExpectedSnoc(cat: Category, xs: seq<int>, x: int)
    ensures Expected(cat, xs + [x]) == Add(cat, Expected(cat, xs), x)
  {
  }

  /** Inserting `xs` one by one into an empty container yields a valid
      iteration sequence holding exactly `Expected(cat, xs)`. */
  lemma {:induction false} LoadAllContents(cat: Category, xs: seq<int>)
    ensures Valid(cat, LoadAll(cat, xs))
    ensures multiset(LoadAll(cat, xs)) == Expected(cat, xs)
  {
    if xs == [] {
      assert Elements(xs) == {};
    } else {
      var init, x := xs[..|xs| - 1], xs[|xs| - 1];
      assert xs == init + [x];
      LoadAllContents(cat, init);
      var s := LoadAll(cat, init);
      assert LoadAll(cat, xs) == Emplace(cat, s, x).elems;
      EmplaceContents(cat, s, x);
      EmplaceValid(cat, s, x);
      ExpectedSnoc(cat, init, x);
    }
  }

  /** A multi container ends with `|xs|` elements, a unique one with the
      number of distinct elements of `xs`. */
  lemma LoadAllSize(cat: Category, xs: seq<int>)
    ensures IsMulti(cat) ==> |LoadAll(cat, xs)| == |xs|
    ensures IsUnique(cat) ==> |LoadAll(cat, xs)| == |Elements(xs)|
  {
    LoadAllContents(cat, xs);
    assert |LoadAll(cat, xs)| == |multiset(LoadAll(cat, xs))|;
  }

  /** The first element of a sorted sequence is its least. */
  lemma SortedHeadLeast(a: seq<int>, y: int)
    requires Sorted(a) && a != []
    requires y in multiset(a)
    ensures a[0] <= y
  {
  }

  /** Two sorted sequences with the same elements are equal. */
  lemma {:induction false} SortedDeterminedByMultiset(a: seq<int>, b: seq<int>)
    requires Sorted(a) && Sorted(b)
    requires multiset(a) == multiset(b)
    ensures a == b
  {
    assert |a| == |multiset(a)| == |multiset(b)| == |b|;
    if a != [] {
      SortedHeadLeast(a, b[0]);
      SortedHeadLeast(b, a[0]);
      assert a[0] == b[0];
      var a', b' := a[1..], b[1..];
      assert a == [a[0]] + a';
      assert b == [b[0]] + b';
      assert multiset(a') == multiset(b') by {
        assert multiset(a) == multiset{a[0]} + multiset(a');
        assert multiset(b) == multiset{b[0]} + multiset(b');
        assert multiset(a') == multiset(a) - multiset{a[0]};
        assert multiset(b') == multiset(b) - multiset{b[0]};
      }
      SortedDeterminedByMultiset(a', b');
    }
  }

  /** The contents a run of insertions produces depend only on which elements
      were inserted, not on their order; for an ordered category even the
      iteration sequence is the same. So the hint, which only affects speed,
      and the order the elements arrive in cannot change the outcome. */
  lemma {:induction false} LoadOrderIndependent(cat: Category, xs: seq<int>, ys: seq<int>)
    requires multiset(xs) == multiset(ys)
    ensures multiset(LoadAll(cat, xs)) == multiset(LoadAll(cat, ys))
    ensures IsOrdered(cat) ==> LoadAll(cat, xs) == LoadAll(cat, ys)
  {
    assert forall y :: y in xs <==> y in multiset(xs);
    assert forall y :: y in ys <==> y in multiset(ys);
    assert Elements(xs) == Elements(ys);
    LoadAllContents(cat, xs);
    LoadAllContents(cat, ys);
    if IsOrdered(cat) {
      SortedDeterminedByMultiset(LoadAll(cat, xs), LoadAll(cat, ys));
    }
  }

  /** A sequence without duplicates has exactly its elements as a multiset. */
  lemma {:induction false} DistinctElements(s: seq<int>)
    requires Distinct(s)
    ensures multiset(Elements(s)) == multiset(s)
  {
    if s != [] {
      var init, x := s[..|s| - 1], s[|s| - 1];
      assert s == init + [x];
      assert Distinct(init);
      DistinctElements(init);
      ElementsSnoc(init, x);
      assert x !in init;
      MultisetOfSetAdd(Elements(init), x);
    }
  }

  /** Re-inserting the iteration sequence of a valid container into an empty
      one of the same category reproduces its contents and size, and for an
      ordered category its iteration sequence. */
  lemma LoadAllRoundTrip(cat: Category, s: seq<int>)
    requires Valid(cat, s)
    ensures multiset(LoadAll(cat, s)) == multiset(s)
    ensures |LoadAll(cat, s)| == |s|
    ensures IsOrdered(cat) ==> LoadAll(cat, s) == s
  {
    LoadAllContents(cat, s);
    if IsUnique(cat) {
      DistinctElements(s);
    }
    assert |LoadAll(cat, s)| == |multiset(LoadAll(cat, s))| == |multiset(s)| == |s|;
    if IsOrdered(cat) {
      SortedDeterminedByMultiset(LoadAll(cat, s), s);
    }
  }
}
