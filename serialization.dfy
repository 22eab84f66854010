/** The save/load protocol bound to every type the classifier accepts, and the
    reservation strategy it applies before loading. */
module Serialization {
  import opened Classifier
  import opened Wrappers
  import opened Archive
  import opened Container
  import SetSpec

  /** The largest element count a u64 count can record. */
  const MaxCount: nat := 0xFFFF_FFFF_FFFF_FFFF

  /** The serialized form of a container whose iteration sequence is `s`: the
      count first, then the elements in iteration order. */
  function Encoding(s: seq<int>): (r: seq<Item>)
    requires |s| <= MaxCount
  {
    [Count(|s| as u64)] + ElemItems(s)
  }

  /** What a load positioned at `p` finds: no count, or the count and the
      elements that the reads after it obtain, at most `count` of them. */
  datatype Found = NoCount | Run(count: nat, xs: seq<int>)

  function ReadFrom(items: seq<Item>, p: nat): (r: Found)
  {
    if p < |items| && items[p].Count? then
      Run(items[p].n as nat, ElemRun(items, p + 1, items[p].n as nat))
    else NoCount
  }

  /** What a load finds at `p`: each element it obtains is the element item
      at the corresponding position after the count, in stream order; and when
      it obtains fewer than `count`, the next element read fails, at the end
      of the stream or at an item that is not an element. */
  lemma {:induction false} ReadFromFinds(items: seq<Item>, p: nat, n: nat, xs: seq<int>)
    requires ReadFrom(items, p) == Run(n, xs)
    ensures forall j :: 0 <= j < |xs| ==> p + 1 + j < |items| && items[p + 1 + j] == Elem(xs[j])
    ensures |xs| < n ==> p + 1 + |xs| >= |items| || !items[p + 1 + |xs|].Elem?
  {
    assert p < |items| && items[p].Count? && n == items[p].n as nat;
    var from := p + 1;
    assert xs == ElemRun(items, from, n);
    forall j | 0 <= j < |xs|
      ensures from + j < |items| && items[from + j] == Elem(xs[j])
    {
      ElemRunReadsElements(items, from, n, j);
    }
    assert |xs| < n ==> p + 1 + |xs| >= |items| || !items[p + 1 + |xs|].Elem?;
  }

  /** A failed load says the stream ended (or held something else) before the
      count or before the counted elements were all read. */
  datatype Status = Loaded | Truncated

  /** `reserve_unordered`: a hashed container reserves room for `size`
      elements; for an ordered one it is a no-op. The elements are kept. */
  method ReserveUnordered(c: SetContainer, size: u64)
    requires c.Valid()
    modifies c`reserved
    ensures c.Valid()
    ensures IsHashed(c.category) ==>
              c.reserved == if size as nat > old(c.reserved) then size as nat else old(c.reserved)
    ensures !IsHashed(c.category) ==> c.reserved == old(c.reserved)
  {
    if IsHashed(c.category) {
      c.Reserve(size as nat);
    }
  }

  /** The bulk element encoding step, whose policy is chosen by the archive
      layer. Assumed to write each element in the container's iteration
      order. */
  method SlowCompress(ar: Archive, c: SetContainer)
    modifies ar`items
    ensures ar.items == old(ar.items) + ElemItems(c.elems)
  {
    for i := 0 to |c.elems|
      invariant ar.items == old(ar.items) + ElemItems(c.elems[..i])
    {
      assert c.elems[..i + 1][..i] == c.elems[..i];
      ar.WriteElem(c.elems[i]);
    }
    assert c.elems[..|c.elems|] == c.elems;
  }

  /** Save: the element count as a u64, then the elements. The container is
      not modified (it is outside the frame), and nothing is read. */
  method Save(ar: Archive, c: SetContainer)
    requires |c.elems| <= MaxCount
    modifies ar`items
    ensures ar.items == old(ar.items) + Encoding(c.elems)
  {
    var size: u64 := |c.elems| as u64;
    ar.WriteCount(size);
    SlowCompress(ar, c);
  }

  /** Load: reads the count, clears the container, reserves, then reads
      exactly `count` elements and inserts each with a hint.
      - If the count cannot be read, nothing else happens.
      - Otherwise the old contents are gone, whatever they were; the container
        holds what its category makes of the elements read; reading stops at
        the first failing element read and never goes beyond `count`
        elements. */
  method Load(ar: Archive, c: SetContainer) returns (status: Status)
    requires c.Valid()
    modifies ar`pos, c`elems, c`reserved
    ensures c.Valid()
    ensures var p := old(ar.pos);
            ReadFrom(ar.items, p).NoCount? ==>
              && status == Truncated && ar.pos == p
              && c.elems == old(c.elems) && c.reserved == old(c.reserved)
    ensures var p := old(ar.pos);
            ReadFrom(ar.items, p).Run? ==>
              var n, xs := ReadFrom(ar.items, p).count, ReadFrom(ar.items, p).xs;
              && status == (if |xs| == n then Loaded else Truncated)
              && ar.pos == p + 1 + |xs|
              && c.elems == SetSpec.LoadAll(c.category, xs)
              && c.Contents() == SetSpec.Expected(c.category, xs)
              && c.reserved == if IsHashed(c.category) && n > old(c.reserved) then n else old(c.reserved)
  {
    ghost var p := ar.pos;
    var count := ar.ReadCount();
    if count.None? {
      return Truncated;
    }
    var size := count.value;
    assert ReadFrom(ar.items, p) == Run(size as nat, ElemRun(ar.items, p + 1, size as nat));
    c.Clear();
    ReserveUnordered(c, size);
    var complete := LoadElements(ar, c, size);
    SetSpec.LoadAllContents(c.category, ElemRun(ar.items, p + 1, size as nat));
    status := if complete then Loaded else Truncated;
  }

  /** The element loop of Load, run on the emptied container: `size` rounds
      of reading one element and inserting it with the hint the previous
      round returned, starting from `begin()`. Stops at the first failing
      read. */
  method LoadElements(ar: Archive, c: SetContainer, size: u64) returns (complete: bool)
    requires c.Valid() && c.elems == []
    modifies ar`pos, c`elems
    ensures c.Valid()
    ensures var xs := ElemRun(ar.items, old(ar.pos), size as nat);
            && complete == (|xs| == size as nat)
            && ar.pos == old(ar.pos) + |xs|
            && c.elems == SetSpec.LoadAll(c.category, xs)
  {
    ghost var start, items := ar.pos, ar.items;
    var hint: nat := 0;
    var i: u64 := 0;
    ghost var read: seq<int> := [];
    while i < size
      invariant i <= size
      invariant ar.items == items && ar.pos == start + i as nat
      invariant read == ElemRun(items, start, i as nat) && |read| == i as nat
      invariant c.elems == SetSpec.LoadAll(c.category, read)
      invariant c.Valid() && hint <= |c.elems|
    {
      var item := ar.ReadElem();
      if item.None? {
        ElemRunStops(items, start, i as nat, size as nat);
        return false;
      }
      ghost var k := i as nat;
      assert item.value == items[start + k].x;
      ElemRunStep(items, start, k);
      SetSpec.LoadAllSnoc(c.category, read, item.value);
      hint := c.EmplaceHint(hint, item.value);
      read := read + [item.value];
      i := i + 1;
      assert i as nat == k + 1;
    }
    complete := true;
  }

  /** A load positioned where a save began finds the count and every
      element that save wrote, whatever precedes or follows them. */
  lemma DecodeEncoding(pre: seq<Item>, s: seq<int>, post: seq<Item>)
    requires |s| <= MaxCount
    ensures ReadFrom(pre + Encoding(s) + post, |pre|) == Run(|s|, s)
  {
    var items := pre + Encoding(s) + post;
    assert items[|pre|] == Count(|s| as u64);
    assert items[|pre| + 1..|pre| + 1 + |s|] == ElemItems(s);
    ElemRunOfElemItems(items, |pre| + 1, s);
  }

  /** Saving a container and loading the result into a container of the same
      category reproduces the contents and the size, and for an ordered
      category the iteration sequence. The target may be the source itself. */
  method SaveThenLoad(src: SetContainer, dst: SetContainer) returns (status: Status)
    requires src.Valid() && dst.Valid()
    requires dst.category == src.category
    requires |src.elems| <= MaxCount
    modifies dst
    ensures dst.Valid() && status == Loaded
    ensures dst.Contents() == old(src.Contents()) && dst.Size() == old(src.Size())
    ensures SetSpec.IsOrdered(dst.category) ==> dst.elems == old(src.elems)
  {
    ghost var s := src.elems;
    ghost var cat := src.category;
    var ar := new Archive([]);
    Save(ar, src);
    DecodeEncoding([], s, []);
    assert ar.items == [] + Encoding(s) + [];
    SetSpec.LoadAllRoundTrip(cat, s);
    status := Load(ar, dst);
  }
}
