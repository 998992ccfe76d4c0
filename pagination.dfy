// The gallery's page split in app/page.tsx: the ordered list is cut into
// consecutive pages of `pageSize`, with one empty page for an empty list.
module Pagination {
  import opened Common

  /** `pageSize` of the gallery. */
  const PageSize: nat := 10

  /** Consecutive slices of `size` elements; the last may be shorter. */
  function Chunks<T>(s: seq<T>, size: nat): seq<seq<T>>
    requires size > 0
    decreases |s|
  {
    if s == [] then []
    else
      var m := Min(size, |s|);
      [s[..m]] + Chunks(s[m..], size)
  }

  /** `pages`: the chunks, or a single empty page when there are none (`out.length ? out : [[]]`). */
  function Pages<T>(s: seq<T>, size: nat): (pp: seq<seq<T>>)
    requires size > 0
    ensures |pp| >= 1
  {
    if s == [] then [[]] else Chunks(s, size)
  }

  /** The pages laid end to end. */
  function Flatten<T>(pp: seq<seq<T>>): seq<T> {
    if pp == [] then [] else pp[0] + Flatten(pp[1..])
  }

  /** Concatenating the chunks gives back the list. */
  lemma {:induction false} FlattenChunks<T>(s: seq<T>, size: nat)
    requires size > 0
    ensures Flatten(Chunks(s, size)) == s
    decreases |s|
  {
    if s != [] {
      var m := Min(size, |s|);
      FlattenChunks(s[m..], size);
      assert Chunks(s, size)[1..] == Chunks(s[m..], size);
      assert s == s[..m] + s[m..];
    }
  }

  /** Every chunk is non-empty and holds at most `size` elements, and every chunk but the last exactly `size`. */
  lemma {:induction false} ChunkSizes<T>(s: seq<T>, size: nat)
    requires size > 0
    ensures forall p :: 0 <= p < |Chunks(s, size)| ==> 0 < |Chunks(s, size)[p]| <= size
    ensures forall p :: 0 <= p < |Chunks(s, size)| - 1 ==> |Chunks(s, size)[p]| == size
    decreases |s|
  {
    if s != [] {
      var m := Min(size, |s|);
      var c := Chunks(s, size);
      var c' := Chunks(s[m..], size);
      ChunkSizes(s[m..], size);
      assert c == [s[..m]] + c';
      assert forall p :: 1 <= p < |c| ==> c[p] == c'[p - 1];
      assert m < size ==> c' == [];
    }
  }

  /**
   * There are as many chunks as the least `c` with `|s| <= c * size`, and
   * the last one holds what remains after the full ones.
   */
  lemma {:induction false} ChunkCount<T>(s: seq<T>, size: nat)
    requires size > 0
    ensures s != [] ==> (|Chunks(s, size)| - 1) * size < |s| <= |Chunks(s, size)| * size
    ensures s != [] ==> |Chunks(s, size)[|Chunks(s, size)| - 1]| == |s| - (|Chunks(s, size)| - 1) * size
    decreases |s|
  {
    if s != [] {
      var m := Min(size, |s|);
      var c := Chunks(s, size);
      var c' := Chunks(s[m..], size);
      assert c == [s[..m]] + c';
      if s[m..] == [] {
        assert c' == [];
      } else {
        ChunkCount(s[m..], size);
        var k := |c'|;
        assert m == size;
        assert (k + 1) * size == k * size + size;
        assert (k - 1) * size + size == k * size;
        assert c[|c| - 1] == c'[k - 1];
      }
    }
  }

  /** The element at position `i` of chunk `p` is element `p * size + i` of the list. */
  lemma {:induction false} ChunkAt<T>(s: seq<T>, size: nat, p: nat, i: nat)
    requires size > 0
    requires p < |Chunks(s, size)| && i < |Chunks(s, size)[p]|
    ensures p * size + i < |s|
    ensures Chunks(s, size)[p][i] == s[p * size + i]
    decreases p
  {
    var m := Min(size, |s|);
    assert Chunks(s, size) == [s[..m]] + Chunks(s[m..], size);
    if p > 0 {
      assert Chunks(s, size)[p] == Chunks(s[m..], size)[p - 1];
      ChunkAt(s[m..], size, p - 1, i);
      ChunkSizes(s, size);
      assert m == size;
      assert (p - 1) * size + size == p * size;
    }
  }

  /**
   * The page shape the gallery relies on: the pages concatenate to the list,
   * each page holds at most `size` items, all pages but the last exactly
   * `size`, the last holds what remains, and there is a single empty page
   * for an empty list.
   */
  lemma PagesSpec<T>(s: seq<T>, size: nat)
    requires size > 0
    ensures Flatten(Pages(s, size)) == s
    ensures forall p :: 0 <= p < |Pages(s, size)| ==> |Pages(s, size)[p]| <= size
    ensures forall p :: 0 <= p < |Pages(s, size)| - 1 ==> |Pages(s, size)[p]| == size
    ensures s == [] ==> Pages(s, size) == [[]]
    ensures s != [] ==> (|Pages(s, size)| - 1) * size < |s| <= |Pages(s, size)| * size
    ensures |Pages(s, size)[|Pages(s, size)| - 1]| == |s| - (|Pages(s, size)| - 1) * size
  {
    ChunkSizes(s, size);
    ChunkCount(s, size);
    if s == [] {
      assert Flatten<T>([[]]) == [];
    } else {
      FlattenChunks(s, size);
    }
  }

  /**
   * Item `i` of page `p` is item `p * size + i` of the list: the 1-based
   * label `i + 1 + page * pageSize` names the item's position in the list.
   */
  lemma PageAt<T>(s: seq<T>, size: nat, p: nat, i: nat)
    requires size > 0
    requires p < |Pages(s, size)| && i < |Pages(s, size)[p]|
    ensures p * size + i < |s|
    ensures Pages(s, size)[p][i] == s[p * size + i]
  {
    ChunkAt(s, size, p, i);
  }

  /** The number of pages is `ceil(N / size)` for a non-empty list, and 1 for an empty one. */
  lemma PageCount<T>(s: seq<T>, size: nat)
    requires size > 0
    ensures |Pages(s, size)| == if s == [] then 1 else (|s| + size - 1) / size
  {
    PagesSpec(s, size);
    if s != [] {
      var c := |Pages(s, size)|;
      CeilDiv(|s|, size, c);
    }
  }

  lemma MulCancel(a: int, b: int, size: nat)
    requires size > 0 && a * size < b * size
    ensures a < b
  {
    assert (b - a) * size == b * size - a * size;
  }
  lemma CeilDiv(n: nat, size: nat, c: nat)
    requires size > 0 && (c - 1) * size < n <= c * size
    ensures (n + size - 1) / size == c
  {
    var q := (n + size - 1) / size;
    var r := (n + size - 1) % size;
    assert n + size - 1 == q * size + r;
    assert c * size == (c - 1) * size + size;
    assert (q + 1) * size == q * size + size;
    MulCancel(c, q + 1, size);
    assert (c + 1) * size == c * size + size;
    MulCancel(q, c + 1, size);
  }

  /** One turn of the loop: the chunks from `i` are the slice `[i, i + size)` and the chunks after it. */
  lemma ChunksStep<T>(s: seq<T>, i: nat, size: nat)
    requires size > 0 && i < |s|
    ensures Chunks(s[i..], size) == [s[i..Min(i + size, |s|)]] + Chunks(s[Min(i + size, |s|)..], size)
  {
    var j := Min(i + size, |s|);
    assert s[i..][..j - i] == s[i..j];
    assert s[i..][j - i..] == s[j..];
  }

  method Paginate<T>(ordered: seq<T>, size: nat) returns (pages: seq<seq<T>>)
    requires size > 0
    ensures pages == Pages(ordered, size)
  {
    var out: seq<seq<T>> := [];
    var i := 0;
    while i < |ordered|
      invariant 0 <= i
      invariant out + Chunks(ordered[Min(i, |ordered|)..], size) == Chunks(ordered, size)
      invariant i > 0 ==> out != []
      decreases |ordered| - i
    {
      var j := Min(i + size, |ordered|);
      ChunksStep(ordered, i, size);
      out := out + [ordered[i..j]];
      i := i + size;
      assert Min(i, |ordered|) == j;
    }
    assert ordered[Min(i, |ordered|)..] == [];
    assert out == Chunks(ordered, size);
    if |out| == 0 {
      pages := [[]];
    } else {
      pages := out;
    }
  }

  /** Thirty images (the shipped gallery) make three full pages of ten. */
  lemma ThirtyImages<T>(s: seq<T>)
    requires |s| == 30
    ensures |Pages(s, PageSize)| == 3
    ensures forall p :: 0 <= p < 3 ==> |Pages(s, PageSize)[p]| == 10
  {
    PagesSpec(s, PageSize);
    PageCount(s, PageSize);
  }

  /** Twenty-seven images make pages of 10, 10 and 7; with pages of 15, pages of 15 and 12. */
  lemma TwentySevenImages<T>(s: seq<T>)
    requires |s| == 27
    ensures |Pages(s, 10)| == 3 && |Pages(s, 10)[0]| == 10 && |Pages(s, 10)[1]| == 10 && |Pages(s, 10)[2]| == 7
    ensures |Pages(s, 15)| == 2 && |Pages(s, 15)[0]| == 15 && |Pages(s, 15)[1]| == 12
  {
    PagesSpec(s, 10);
    PageCount(s, 10);
    PagesSpec(s, 15);
    PageCount(s, 15);
  }
}
