/** Sorting a chunk by descending lightness, the job `sort.Slice` does in
    `sortImageX`/`sortImageY`. The passes are specified for ANY sort that
    permutes a chunk into non-increasing lightness (`SortsByLightness`);
    `SortDesc`, an insertion sort, is one such sort. */
module Sorting {
  import opened Colors

  /** Samples ordered by non-increasing lightness (the order `sort.Slice` is asked for). */
  predicate NonIncreasing(s: seq<Color>) {
    forall i, j :: 0 <= i < j < |s| ==> Lightness(s[i]) >= Lightness(s[j])
  }

  /** Inserts `x` in front of the first sample that is not lighter than it. */
  function Insert(x: Color, s: seq<Color>): (r: seq<Color>)
    ensures |r| == |s| + 1
  {
    if s == [] || Lightness(x) >= Lightness(s[0]) then [x] + s
    else [s[0]] + Insert(x, s[1..])
  }

  /** Inserting adds exactly the one sample. */
  lemma {:induction false} InsertPermutes(x: Color, s: seq<Color>)
    ensures multiset(Insert(x, s)) == multiset(s) + multiset{x}
  {
    if s != [] && Lightness(x) < Lightness(s[0]) {
      InsertPermutes(x, s[1..]);
      assert s == [s[0]] + s[1..];
    }
  }

  /** Inserting into a non-increasing sequence keeps it non-increasing, and the
      new head is either `x` or the old head. */
  lemma {:induction false} InsertOrdered(x: Color, s: seq<Color>)
    requires NonIncreasing(s)
    ensures NonIncreasing(Insert(x, s))
    ensures Insert(x, s)[0] == x || (|s| > 0 && Insert(x, s)[0] == s[0])
  {
    if s == [] || Lightness(x) >= Lightness(s[0]) {
      ConsNonIncreasing(x, s);
    } else {
      InsertOrdered(x, s[1..]);
      ConsNonIncreasing(s[0], Insert(x, s[1..]));
    }
  }

  /** A sample at least as light as the head of a non-increasing sequence can be put in front of it. */
  lemma ConsNonIncreasing(x: Color, t: seq<Color>)
    requires NonIncreasing(t)
    requires |t| > 0 ==> Lightness(x) >= Lightness(t[0])
    ensures NonIncreasing([x] + t)
  {
    var r := [x] + t;
    forall i, j | 0 <= i < j < |r| ensures Lightness(r[i]) >= Lightness(r[j]) {
      if i == 0 {
        assert r[j] == t[j - 1];
        assert Lightness(t[0]) >= Lightness(t[j - 1]) || j == 1;
      } else {
        assert r[i] == t[i - 1] && r[j] == t[j - 1];
      }
    }
  }

  /** Sorting a chunk by descending lightness (insertion sort). */
  function SortDesc(s: seq<Color>): (r: seq<Color>)
    ensures |r| == |s|
  {
    if s == [] then [] else Insert(s[0], SortDesc(s[1..]))
  }

  /** The sorted chunk holds exactly the samples of the chunk. */
  lemma {:induction false} SortDescPermutes(s: seq<Color>)
    ensures multiset(SortDesc(s)) == multiset(s)
  {
    if s != [] {
      SortDescPermutes(s[1..]);
      InsertPermutes(s[0], SortDesc(s[1..]));
      assert s == [s[0]] + s[1..];
    }
  }

  /** The sorted chunk's lightness never increases along the scan direction. */
  lemma {:induction false} SortDescOrdered(s: seq<Color>)
    ensures NonIncreasing(SortDesc(s))
  {
    if s != [] {
      SortDescOrdered(s[1..]);
      InsertOrdered(s[0], SortDesc(s[1..]));
    }
  }

  /** What a call of `sort.Slice` with the "lighter first" comparison promises:
      the sorted chunk has the chunk's samples, and its lightness never increases.
      The order of samples of equal lightness is left open. */
  ghost predicate SortsByLightness(sort: seq<Color> -> seq<Color>) {
    KeepsLength(sort) && Permutes(sort) && OrdersByLightness(sort)
  }

  /** The sort returns as many samples as it was given. */
  ghost predicate KeepsLength(sort: seq<Color> -> seq<Color>) {
    forall c :: |sort(c)| == |c|
  }

  /** The sort returns the samples it was given, each as often. */
  ghost predicate Permutes(sort: seq<Color> -> seq<Color>) {
    forall c :: multiset(sort(c)) == multiset(c)
  }

  /** The sort returns samples of non-increasing lightness. */
  ghost predicate OrdersByLightness(sort: seq<Color> -> seq<Color>) {
    forall c :: NonIncreasing(sort(c))
  }

  /** The insertion sort is a sort by lightness. */
  lemma SortDescSorts()
    ensures SortsByLightness(SortDesc)
  {
    forall c ensures multiset(SortDesc(c)) == multiset(c) && NonIncreasing(SortDesc(c)) {
      SortDescPermutes(c);
      SortDescOrdered(c);
    }
  }
}
