/** The archive the protocol writes to and reads from, reduced to what the
    protocol uses: a stream of items, each either a 64-bit element count or one
    element, and a read position. The byte layout and the recursive encoding of
    an element belong to the archive layer and are not part of this model; an
    element is an opaque `int`. The archive is typed: reading a count where an
    element was written, or an element where a count was written, fails like
    reading past the end. */
module Archive {
  import opened Wrappers

  newtype u64 = x: int | 0 <= x < 0x1_0000_0000_0000_0000

  datatype Item = Count(n: u64) | Elem(x: int)

  /** The items recording the elements `s`, one item per element, in order. */
  function ElemItems(s: seq<int>): (r: seq<Item>)
    ensures |r| == |s|
    ensures forall i :: 0 <= i < |s| ==> r[i] == Elem(s[i])
  {
    if s == [] then [] else ElemItems(s[..|s| - 1]) + [Elem(s[|s| - 1])]
  }

  /** The values that up to `n` element reads starting at position `from`
      obtain before the first read that fails: the longest run of element
      items there, cut off at `n`. */
  function ElemRun(items: seq<Item>, from: nat, n: nat): (r: seq<int>)
    ensures |r| <= n
    ensures |r| < n ==> from + |r| >= |items| || !items[from + |r|].Elem?
  {
    if n == 0 then []
    else
      var p := ElemRun(items, from, n - 1);
      if |p| < n - 1 then p
      else if from + n - 1 < |items| && items[from + n - 1].Elem? then p + [items[from + n - 1].x]
      else p
  }

  /** Every value of a run is the element stored at the corresponding
      position, read in stream order. */
  lemma {:induction false} ElemRunReadsElements(items: seq<Item>, from: nat, n: nat, j: nat)
    requires j < |ElemRun(items, from, n)|
    ensures from + j < |items| && items[from + j] == Elem(ElemRun(items, from, n)[j])
  {
    var p := ElemRun(items, from, n - 1);
    if j < |p| {
      ElemRunReadsElements(items, from, n - 1, j);
    }
  }

  /** One more read extends the run by the element it finds. */
  lemma ElemRunStep(items: seq<Item>, from: nat, k: nat)
    requires |ElemRun(items, from, k)| == k
    requires from + k < |items| && items[from + k].Elem?
    ensures ElemRun(items, from, k + 1) == ElemRun(items, from, k) + [items[from + k].x]
  {
  }

  /** Once a read fails, later reads are never attempted: asking for more
      elements gives the same run. */
  lemma {:induction false} ElemRunStops(items: seq<Item>, from: nat, k: nat, n: nat)
    requires k <= n
    requires |ElemRun(items, from, k)| == k
    requires from + k >= |items| || !items[from + k].Elem?
    ensures ElemRun(items, from, n) == ElemRun(items, from, k)
  {
    if n > k {
      ElemRunStops(items, from, k, n - 1);
    }
  }

  /** Element items written for `s` are read back as `s`, whatever follows them. */
  lemma {:induction false} ElemRunOfElemItems(items: seq<Item>, from: nat, s: seq<int>)
    requires from + |s| <= |items|
    requires items[from..from + |s|] == ElemItems(s)
    ensures ElemRun(items, from, |s|) == s
  {
    if s != [] {
      var init := s[..|s| - 1];
      assert items[from..from + |init|] == ElemItems(s)[..|init|];
      assert ElemItems(s)[..|init|] == ElemItems(init);
      ElemRunOfElemItems(items, from, init);
      assert items[from + |init|] == ElemItems(s)[|init|];
    }
  }

  class Archive {
    var items: seq<Item>
    var pos: nat

    /** An archive over `data`, positioned at its start. */
    constructor (data: seq<Item>)
      ensures items == data && pos == 0
    {
      items, pos := data, 0;
    }

    method WriteCount(n: u64)
      modifies this`items
      ensures items == old(items) + [Count(n)]
    {
      items := items + [Count(n)];
    }

    method WriteElem(x: int)
      modifies this`items
      ensures items == old(items) + [Elem(x)]
    {
      items := items + [Elem(x)];
    }

    /** Reads a count; fails, leaving the position, at the end of the stream
        or when the next item is not a count. */
    method ReadCount() returns (r: Option<u64>)
      modifies this`pos
      ensures old(pos) < |items| && items[old(pos)].Count? ==>
                r == Some(items[old(pos)].n) && pos == old(pos) + 1
      ensures !(old(pos) < |items| && items[old(pos)].Count?) ==> r == None && pos == old(pos)
    {
      if pos < |items| && items[pos].Count? {
        r := Some(items[pos].n);
        pos := pos + 1;
      } else {
        r := None;
      }
    }

    /** Reads an element; fails, leaving the position, at the end of the
        stream or when the next item is not an element. */
    method ReadElem() returns (r: Option<int>)
      modifies this`pos
      ensures old(pos) < |items| && items[old(pos)].Elem? ==>
                r == Some(items[old(pos)].x) && pos == old(pos) + 1
      ensures !(old(pos) < |items| && items[old(pos)].Elem?) ==> r == None && pos == old(pos)
    {
      if pos < |items| && items[pos].Elem? {
        r := Some(items[pos].x);
        pos := pos + 1;
      } else {
        r := None;
      }
    }
  }
}
