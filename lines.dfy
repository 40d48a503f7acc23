/** One scan line of a pass (a row for the X pass, a column for the Y pass),
    as pure functions. `Scan` follows the loop of `sortImageX`/`sortImageY`
    sample by sample; `CloseFrom`, `Closes` and `Flushed` describe the same
    pass chunk by chunk, and the lemmas below connect the two and state what
    the pass does to the line. The chunk sort is a parameter: every lemma
    holds for any sort that keeps the length
    (`KeepsLength`) or sorts by lightness (`SortsByLightness`). */
module Lines {
  import opened Colors
  import opened Sorting

  datatype Option<T> = None | Some(value: T)

  /** A line as freshly allocated by `image.NewRGBA`: every sample transparent. */
  function Blank(n: nat): (r: seq<Color>)
    ensures |r| == n && forall k :: 0 <= k < n ==> r[k] == Transparent
  {
    seq(n, _ => Transparent)
  }

  /** `out` after writing `t[p]` at index `base + p` for every `p`, where a write
      outside `[0, |out|)` is dropped, as `Set` outside the image rectangle is. */
  function Overlay(out: seq<Color>, base: int, t: seq<Color>): (r: seq<Color>)
    ensures |r| == |out|
    ensures forall k :: 0 <= k < |out| && base <= k < base + |t| ==> r[k] == t[k - base]
    ensures forall k :: 0 <= k < |out| && !(base <= k < base + |t|) ==> r[k] == out[k]
  {
    seq(|out|, k requires 0 <= k < |out| => if base <= k < base + |t| then t[k - base] else out[k])
  }

  /** The close test applied when the sample at index `i` joins a chunk that
      started at index `s`: forced when the chunk is longer than the samples
      left from `i` on, or the in-band trigger fires and the chunk is big enough. */
  predicate Fires(line: seq<Color>, minChunk: int, s: nat, i: nat)
    requires s <= i < |line|
    ensures Fires(line, minChunk, s, i) <==>
      i - s + 1 > |line| - i ||
      (line[i].a / 0x101 >= 32 && 64.0 <= Lightness(line[i]) <= 96.0 && (minChunk == -1 || i - s + 1 >= minChunk))
    ensures line[i].a / 0x101 < 32 ==> (Fires(line, minChunk, s, i) <==> i - s + 1 > |line| - i)
    ensures line[i].a / 0x101 >= 32 && 64.0 <= Lightness(line[i]) <= 96.0 && minChunk == -1 ==> Fires(line, minChunk, s, i)
    ensures i - s + 1 <= |line| - i && !(64.0 <= Lightness(line[i]) <= 96.0) ==> !Fires(line, minChunk, s, i)
  {
    i - s + 1 > |line| - i || (ColorThreshold(line[i], line[i]) && ChunkIsBigEnough(line[s..i + 1], minChunk))
  }

  /** The pass over `line[i..]` with the chunk collected so far and the output
      line so far, step by step as the loop does it (including the unused
      previous-sample bookkeeping and the write-back at `i - len(chunk)`). Indices
      before the open chunk's write position are never written again. */
  function Scan(line: seq<Color>, minChunk: int, sort: seq<Color> -> seq<Color>,
                i: nat, chunk: seq<Color>, out: seq<Color>): (r: seq<Color>)
    requires i <= |line|
    ensures |r| == |out|
    ensures forall k :: 0 <= k < |out| && k < i - |chunk| - 1 ==> r[k] == out[k]
    decreases |line| - i
  {
    if i == |line| then out
    else
      var cur := line[i];
      var last := if |chunk| > 1 then chunk[|chunk| - 1] else cur;
      var chunk' := chunk + [cur];
      if |chunk'| > |line| - i || (ColorThreshold(cur, last) && ChunkIsBigEnough(chunk', minChunk)) then
        Scan(line, minChunk, sort, i + 1, [], Overlay(out, i - |chunk'|, sort(chunk')))
      else
        Scan(line, minChunk, sort, i + 1, chunk', out)
  }

  /** The output line of one pass over `line`: the scan starts with an empty
      chunk and a transparent output line. */
  function LinePass(line: seq<Color>, minChunk: int, sort: seq<Color> -> seq<Color>): (out: seq<Color>)
    ensures |out| == |line|
  {
    Scan(line, minChunk, sort, 0, [], Blank(|line|))
  }

  /** The index at which a chunk started at `s` closes, searching from `i` on:
      the first index that fires, or None when none does before the line ends. */
  function CloseFrom(line: seq<Color>, minChunk: int, s: nat, i: nat): (c: Option<nat>)
    requires s <= i <= |line|
    ensures c.Some? ==> i <= c.value < |line| && Fires(line, minChunk, s, c.value)
    ensures c.Some? ==> forall j :: i <= j < c.value ==> !Fires(line, minChunk, s, j)
    ensures c.None? ==> forall j :: i <= j < |line| ==> !Fires(line, minChunk, s, j)
    decreases |line| - i
  {
    if i == |line| then None
    else if Fires(line, minChunk, s, i) then Some(i)
    else CloseFrom(line, minChunk, s, i + 1)
  }

  /** Where chunk `k` of the close indices `cs` starts, for a scan that began
      at `s`: at `s` for the first chunk, right after the previous close index
      for every later one. */
  function ChunkStart(cs: seq<nat>, s: nat, k: nat): nat
    requires k <= |cs|
  {
    if k == 0 then s else cs[k - 1] + 1
  }

  /** Index just past the last flushed chunk of a scan that began at `s`. */
  function FlushedEnd(cs: seq<nat>, s: nat): nat {
    ChunkStart(cs, s, |cs|)
  }

  /** `cs` is a list of close indices for chunks read from `s` on: every chunk
      closes no earlier than it starts and inside `[0, n)`. */
  predicate Chain(cs: seq<nat>, s: nat, n: nat) {
    forall k {:trigger ChunkStart(cs, s, k)} :: 0 <= k < |cs| ==> ChunkStart(cs, s, k) <= cs[k] < n
  }

  /** Chunk `k + 1` of `[c] + rest` read from `s` is chunk `k` of `rest` read from `c + 1`. */
  lemma ConsChunk(c: nat, rest: seq<nat>, s: nat, k: nat)
    requires k <= |rest|
    ensures ChunkStart([c] + rest, s, k + 1) == ChunkStart(rest, c + 1, k)
    ensures k < |rest| ==> ([c] + rest)[k + 1] == rest[k]
  {
  }

  /** A close index in `[s, n)` followed by a chain read from just after it is a chain. */
  lemma ChainCons(c: nat, rest: seq<nat>, s: nat, n: nat)
    requires s <= c < n && Chain(rest, c + 1, n)
    ensures Chain([c] + rest, s, n)
  {
    forall k | 0 < k < |rest| + 1 ensures ChunkStart([c] + rest, s, k) <= ([c] + rest)[k] < n {
      ConsChunk(c, rest, s, k - 1);
    }
  }

  /** The close indices of the chunks of `line[s..]`, in scan order. */
  function Closes(line: seq<Color>, minChunk: int, s: nat): (cs: seq<nat>)
    requires s <= |line|
    ensures Chain(cs, s, |line|)
    decreases |line| - s
  {
    match CloseFrom(line, minChunk, s, s)
    case None => []
    case Some(c) =>
      var rest := Closes(line, minChunk, c + 1);
      ChainCons(c, rest, s, |line|);
      [c] + rest
  }

  /** Chunks `k`, `k + 1`, ... of `line` delimited by the close indices `cs`,
      each sorted, placed one after the other. */
  function Place(line: seq<Color>, sort: seq<Color> -> seq<Color>, s: nat, cs: seq<nat>, k: nat): seq<Color>
    requires Chain(cs, s, |line|) && k <= |cs|
    decreases |cs| - k
  {
    if k == |cs| then [] else sort(line[ChunkStart(cs, s, k)..cs[k] + 1]) + Place(line, sort, s, cs, k + 1)
  }

  /** The sorted chunks of `line[s..]` placed one after the other. */
  function Flushed(line: seq<Color>, minChunk: int, sort: seq<Color> -> seq<Color>, s: nat): seq<Color>
    requires s <= |line|
  {
    Place(line, sort, s, Closes(line, minChunk, s), 0)
  }

  // ---------------------------------------------------------------------------
  // From the sample-by-sample loop to the chunk-by-chunk description

  /** Two writes whose spans abut are one write of the concatenation. */
  lemma OverlayConcat(out: seq<Color>, base: int, x: seq<Color>, y: seq<Color>)
    ensures Overlay(Overlay(out, base, x), base + |x|, y) == Overlay(out, base, x + y)
  {
  }

  /** If no index of `line[s..]` fires, the chunk started at `s` is never flushed. */
  lemma NoCloseMeansNoFlush(line: seq<Color>, minChunk: int, sort: seq<Color> -> seq<Color>, s: nat)
    requires s <= |line|
    requires forall j :: s <= j < |line| ==> !Fires(line, minChunk, s, j)
    ensures CloseFrom(line, minChunk, s, s).None?
    ensures Flushed(line, minChunk, sort, s) == [] && Closes(line, minChunk, s) == []
  {
  }

  /** When `i` is the first index at which the chunk started at `s` fires, that
      chunk closes at `i` and the next one starts at `i + 1`. */
  lemma FirstCloseFlushes(line: seq<Color>, minChunk: int, sort: seq<Color> -> seq<Color>, s: nat, i: nat)
    requires s <= i < |line| && Fires(line, minChunk, s, i)
    requires forall j :: s <= j < i ==> !Fires(line, minChunk, s, j)
    ensures CloseFrom(line, minChunk, s, s) == Some(i)
    ensures Flushed(line, minChunk, sort, s) == sort(line[s..i + 1]) + Flushed(line, minChunk, sort, i + 1)
    ensures Closes(line, minChunk, s) == [i] + Closes(line, minChunk, i + 1)
  {
    var c := CloseFrom(line, minChunk, s, s);
    assert c.Some? && c.value == i;
    var rest := Closes(line, minChunk, i + 1);
    assert Closes(line, minChunk, s) == [i] + rest;
    PlaceShift(line, sort, s, i, rest, 0);
  }

  /** Placing from chunk `k + 1` of `[c] + rest` is placing from chunk `k` of `rest`. */
  lemma {:induction false} PlaceShift(line: seq<Color>, sort: seq<Color> -> seq<Color>,
                                      s: nat, c: nat, rest: seq<nat>, k: nat)
    requires s <= c < |line| && Chain(rest, c + 1, |line|) && k <= |rest|
    ensures Chain([c] + rest, s, |line|)
    ensures Place(line, sort, s, [c] + rest, k + 1) == Place(line, sort, c + 1, rest, k)
    decreases |rest| - k
  {
    ChainCons(c, rest, s, |line|);
    if k < |rest| {
      var x := sort(line[ChunkStart(rest, c + 1, k)..rest[k] + 1]);
      ConsChunk(c, rest, s, k);
      PlaceShift(line, sort, s, c, rest, k + 1);
      assert Place(line, sort, s, [c] + rest, k + 1) == x + Place(line, sort, s, [c] + rest, k + 2);
    }
  }

  /** One step of the loop, as `Scan` takes it, in the loop's own terms: the
      sample at `i` joins the chunk and, when the close test holds, the sorted
      chunk is written at `i - len(chunk)` and the chunk starts over. */
  lemma ScanLoopStep(line: seq<Color>, minChunk: int, sort: seq<Color> -> seq<Color>,
                     i: nat, chunk: seq<Color>, out: seq<Color>, last: Color)
    requires i < |line|
    requires last == if |chunk| > 1 then chunk[|chunk| - 1] else line[i]
    ensures var chunk' := chunk + [line[i]];
      var closes := |chunk'| > |line| - i || (ColorThreshold(line[i], last) && ChunkIsBigEnough(chunk', minChunk));
      (closes ==> Scan(line, minChunk, sort, i, chunk, out) ==
                  Scan(line, minChunk, sort, i + 1, [], Overlay(out, i - |chunk'|, sort(chunk')))) &&
      (!closes ==> Scan(line, minChunk, sort, i, chunk, out) == Scan(line, minChunk, sort, i + 1, chunk', out))
  {
  }

  /** One step of the loop with the open chunk `line[s..i]`: the step flushes
      exactly when `Fires` holds, and the previous-sample bookkeeping drops out
      because the trigger never reads it. */
  lemma ScanStep(line: seq<Color>, minChunk: int, sort: seq<Color> -> seq<Color>, s: nat, i: nat, out: seq<Color>)
    requires s <= i < |line|
    ensures Fires(line, minChunk, s, i) ==>
      Scan(line, minChunk, sort, i, line[s..i], out) ==
      Scan(line, minChunk, sort, i + 1, [], Overlay(out, s - 1, sort(line[s..i + 1])))
    ensures !Fires(line, minChunk, s, i) ==>
      Scan(line, minChunk, sort, i, line[s..i], out) == Scan(line, minChunk, sort, i + 1, line[s..i + 1], out)
  {
    var chunk, cur := line[s..i], line[i];
    var last := if |chunk| > 1 then chunk[|chunk| - 1] else cur;
    assert chunk + [cur] == line[s..i + 1];
    ThresholdIgnoresLast(cur, last, line[i]);
  }

  /** The loop's state at index `i`, with the open chunk `line[s..i]`, leads to
      the output obtained by writing the sorted chunks of `line[s..]` one after
      the other from index `s - 1` on. */
  lemma {:induction false} ScanIsChunked(line: seq<Color>, minChunk: int, sort: seq<Color> -> seq<Color>,
                                         s: nat, i: nat, out: seq<Color>)
    requires s <= i <= |line| && |out| == |line|
    requires forall j :: s <= j < i ==> !Fires(line, minChunk, s, j)
    requires KeepsLength(sort)
    ensures Scan(line, minChunk, sort, i, line[s..i], out) == Overlay(out, s - 1, Flushed(line, minChunk, sort, s))
    decreases |line| - i, 1
  {
    if i == |line| {
      NoCloseMeansNoFlush(line, minChunk, sort, s);
      assert Overlay(out, s - 1, []) == out;
    } else if Fires(line, minChunk, s, i) {
      ScanStep(line, minChunk, sort, s, i, out);
      FirstCloseFlushes(line, minChunk, sort, s, i);
      FlushThenRest(line, minChunk, sort, s, i, out);
    } else {
      ScanStep(line, minChunk, sort, s, i, out);
      ScanIsChunked(line, minChunk, sort, s, i + 1, out);
    }
  }

  /** Once the chunk `line[s..i + 1]` is written at `s - 1`, the scan from
      `i + 1` on, with an empty chunk, writes the remaining chunks right after it. */
  lemma {:induction false} FlushThenRest(line: seq<Color>, minChunk: int, sort: seq<Color> -> seq<Color>,
                                         s: nat, i: nat, out: seq<Color>)
    requires s <= i < |line| && |out| == |line| && KeepsLength(sort)
    ensures var x := sort(line[s..i + 1]);
      Scan(line, minChunk, sort, i + 1, [], Overlay(out, s - 1, x)) ==
      Overlay(out, s - 1, x + Flushed(line, minChunk, sort, i + 1))
    decreases |line| - i, 0
  {
    var x := sort(line[s..i + 1]);
    assert line[i + 1..i + 1] == [];
    ScanIsChunked(line, minChunk, sort, i + 1, i + 1, Overlay(out, s - 1, x));
    OverlayConcat(out, s - 1, x, Flushed(line, minChunk, sort, i + 1));
  }

  /** The output of a line pass: the sorted chunks, one after the other, written
      starting one index BEFORE the line's start, over a transparent line. */
  lemma LinePassIsShifted(line: seq<Color>, minChunk: int, sort: seq<Color> -> seq<Color>)
    requires KeepsLength(sort)
    ensures LinePass(line, minChunk, sort) == Overlay(Blank(|line|), -1, Flushed(line, minChunk, sort, 0))
  {
    assert line[0..0] == [];
    ScanIsChunked(line, minChunk, sort, 0, 0, Blank(|line|));
  }

  // ---------------------------------------------------------------------------
  // What the chunk-by-chunk description says about a line

  /** A chunk of two or more samples that reaches the last index is always flushed there. */
  lemma ForcedAtLastIndex(line: seq<Color>, minChunk: int, s: nat)
    requires s + 2 <= |line|
    ensures Fires(line, minChunk, s, |line| - 1)
  {
  }

  /** Chunk starts along a chain grow from `s` and stay within `n`. */
  lemma {:induction false} ChainStarts(cs: seq<nat>, s: nat, n: nat, k: nat)
    requires Chain(cs, s, n) && s <= n && k <= |cs|
    ensures s <= ChunkStart(cs, s, k) <= n
    decreases k
  {
    if k > 0 {
      ChainStarts(cs, s, n, k - 1);
    }
  }

  /** The chunks placed from chunk `k` on cover `[ChunkStart(k), FlushedEnd)`,
      for a sort that keeps lengths. */
  lemma {:induction false} PlaceLength(line: seq<Color>, sort: seq<Color> -> seq<Color>, s: nat, cs: seq<nat>, k: nat)
    requires Chain(cs, s, |line|) && k <= |cs| && KeepsLength(sort)
    ensures |Place(line, sort, s, cs, k)| == FlushedEnd(cs, s) - ChunkStart(cs, s, k)
    decreases |cs| - k
  {
    if k < |cs| {
      PlaceLength(line, sort, s, cs, k + 1);
      assert |sort(line[ChunkStart(cs, s, k)..cs[k] + 1])| == cs[k] + 1 - ChunkStart(cs, s, k);
    }
  }

  /** Chunk `k` of a chain appears, sorted, at its own offset among the chunks
      placed from chunk `j` on. */
  lemma {:induction false} PlaceChunk(line: seq<Color>, sort: seq<Color> -> seq<Color>, s: nat, cs: seq<nat>, j: nat, k: nat)
    requires Chain(cs, s, |line|) && j <= k < |cs| && KeepsLength(sort)
    ensures var b, st := ChunkStart(cs, s, j), ChunkStart(cs, s, k);
      b <= st <= cs[k] < |line| && cs[k] + 1 - b <= |Place(line, sort, s, cs, j)| &&
      Place(line, sort, s, cs, j)[st - b..cs[k] + 1 - b] == sort(line[st..cs[k] + 1])
    decreases k - j
  {
    var b, st, e := ChunkStart(cs, s, j), ChunkStart(cs, s, k), cs[k] + 1;
    var x := sort(line[b..cs[j] + 1]);
    var rest := Place(line, sort, s, cs, j + 1);
    assert Place(line, sort, s, cs, j) == x + rest;
    if j == k {
      assert (x + rest)[0..|x|] == x;
    } else {
      PlaceChunk(line, sort, s, cs, j + 1, k);
      SliceOfRight(x, rest, st - b, e - b);
    }
  }

  /** A slice of `x + y` that lies wholly in `y`. */
  lemma SliceOfRight<T>(x: seq<T>, y: seq<T>, a: nat, b: nat)
    requires |x| <= a <= b <= |x| + |y|
    ensures (x + y)[a..b] == y[a - |x|..b - |x|]
  {
  }

  /** The chunk read from `st` closes at `c`: `c` is the first index from `st`
      on at which the close test fires. */
  predicate ClosesAt(line: seq<Color>, minChunk: int, st: nat, c: nat) {
    st <= c < |line| && Fires(line, minChunk, st, c) &&
    forall j :: st <= j < c ==> !Fires(line, minChunk, st, j)
  }

  /** The chunks of `line[s..]` follow one another: each starts right after the
      previous close index (the first at `s`) and closes at the first index
      where the close test fires. */
  lemma {:induction false} ClosesPartition(line: seq<Color>, minChunk: int, s: nat, k: nat)
    requires s <= |line| && k < |Closes(line, minChunk, s)|
    ensures var cs := Closes(line, minChunk, s);
      ClosesAt(line, minChunk, ChunkStart(cs, s, k), cs[k])
    decreases k
  {
    var cs := Closes(line, minChunk, s);
    var c := CloseFrom(line, minChunk, s, s).value;
    var rest := Closes(line, minChunk, c + 1);
    assert cs == [c] + rest;
    if k > 0 {
      ClosesPartition(line, minChunk, c + 1, k - 1);
      ConsChunk(c, rest, s, k - 1);
    } else {
      assert ClosesAt(line, minChunk, s, c);
    }
  }

  /** The chunks of `line[s..]` reach index `|line| - 1` at least: at most the
      final sample of a line is never flushed. */
  lemma {:induction false} ClosesCoverage(line: seq<Color>, minChunk: int, s: nat)
    requires s <= |line|
    ensures |line| - 1 <= FlushedEnd(Closes(line, minChunk, s), s) <= |line|
    decreases |line| - s
  {
    var cs := Closes(line, minChunk, s);
    match CloseFrom(line, minChunk, s, s)
    case None =>
      if s + 2 <= |line| {
        ForcedAtLastIndex(line, minChunk, s);
        assert false;
      }
    case Some(c) =>
      var rest := Closes(line, minChunk, c + 1);
      assert cs == [c] + rest;
      ClosesCoverage(line, minChunk, c + 1);
      ConsChunk(c, rest, s, |rest|);
  }

  /** A close that is not forced respects the minimum chunk size: the chunk
      then has at least `minChunk` samples, unless the minimum is the sentinel -1. */
  lemma MinChunkRespected(line: seq<Color>, minChunk: int, k: nat)
    requires k < |Closes(line, minChunk, 0)|
    ensures var cs := Closes(line, minChunk, 0);
      var n := cs[k] - ChunkStart(cs, 0, k) + 1;
      n > |line| - cs[k] || minChunk == -1 || n >= minChunk
  {
    ClosesPartition(line, minChunk, 0, k);
  }

  /** The whole output line: the sorted chunks shifted one index towards the
      line's start (the first sample of the first sorted chunk falls off the
      front), then transparent samples up to and including the last index. */
  lemma LinePassShape(line: seq<Color>, minChunk: int, sort: seq<Color> -> seq<Color>)
    requires KeepsLength(sort)
    ensures var f, out := Flushed(line, minChunk, sort, 0), LinePass(line, minChunk, sort);
      |f| <= |line| &&
      (forall k :: 0 <= k < |f| - 1 ==> out[k] == f[k + 1]) &&
      (forall k :: |f| - 1 <= k < |line| && 0 <= k ==> out[k] == Transparent)
  {
    LinePassIsShifted(line, minChunk, sort);
    ClosesCoverage(line, minChunk, 0);
    PlaceLength(line, sort, 0, Closes(line, minChunk, 0), 0);
  }

  /** The last index of every line is never written and keeps the transparent zero value. */
  lemma LastIndexNeverWritten(line: seq<Color>, minChunk: int, sort: seq<Color> -> seq<Color>)
    requires |line| > 0 && KeepsLength(sort)
    ensures LinePass(line, minChunk, sort)[|line| - 1] == Transparent
  {
    LinePassShape(line, minChunk, sort);
  }

  /** Chunk `k` of a line, read from `st` to its close index `c`, is written
      sorted one index early, to `st - 1 .. c - 1`. The first chunk (`st == 0`)
      targets index -1, so the head of its sorted form is dropped. */
  lemma ChunkWrittenOneEarly(line: seq<Color>, minChunk: int, sort: seq<Color> -> seq<Color>, k: nat)
    requires k < |Closes(line, minChunk, 0)| && KeepsLength(sort)
    ensures var cs := Closes(line, minChunk, 0);
      var st, c, out := ChunkStart(cs, 0, k), cs[k], LinePass(line, minChunk, sort);
      st <= c < |line| &&
      (st > 0 ==> out[st - 1..c] == sort(line[st..c + 1])) &&
      (st == 0 ==> out[..c] == sort(line[..c + 1])[1..])
  {
    var cs := Closes(line, minChunk, 0);
    var st, c, out := ChunkStart(cs, 0, k), cs[k], LinePass(line, minChunk, sort);
    var f := Flushed(line, minChunk, sort, 0);
    PlaceChunk(line, sort, 0, cs, 0, k);
    LinePassShape(line, minChunk, sort);
    ShiftedChunk(out, f, st, c, sort(line[st..c + 1]));
    if st == 0 {
      assert line[st..c + 1] == line[..c + 1];
    }
  }

  /** Where `out` is `f` moved one index towards the front, the part
      `f[st..c + 1]` reappears in `out` one index earlier, losing its head
      when it starts at index 0. */
  lemma ShiftedChunk(out: seq<Color>, f: seq<Color>, st: nat, c: nat, sorted: seq<Color>)
    requires st <= c < |f| && |f| - 1 <= |out| && f[st..c + 1] == sorted
    requires forall k :: 0 <= k < |f| - 1 ==> out[k] == f[k + 1]
    ensures st > 0 ==> out[st - 1..c] == sorted
    ensures st == 0 ==> out[..c] == sorted[1..]
  {
  }

  /** Every chunk after the first lands in the output as a permutation of its
      samples with non-increasing lightness. */
  lemma ChunkSortedInOutput(line: seq<Color>, minChunk: int, sort: seq<Color> -> seq<Color>, k: nat)
    requires k < |Closes(line, minChunk, 0)| && SortsByLightness(sort)
    ensures var cs := Closes(line, minChunk, 0);
      var st, c, out := ChunkStart(cs, 0, k), cs[k], LinePass(line, minChunk, sort);
      st <= c < |line| &&
      (0 < st ==> multiset(out[st - 1..c]) == multiset(line[st..c + 1]) && NonIncreasing(out[st - 1..c]))
  {
    ChunkWrittenOneEarly(line, minChunk, sort, k);
  }

  /** Sorting a chunk of transparent samples yields transparent samples only,
      so placing the chunks of a transparent line places transparent samples. */
  lemma {:induction false} PlaceTransparent(line: seq<Color>, sort: seq<Color> -> seq<Color>, s: nat, cs: seq<nat>, k: nat)
    requires Chain(cs, s, |line|) && k <= |cs| && Permutes(sort)
    requires forall i :: 0 <= i < |line| ==> line[i] == Transparent
    ensures forall i :: 0 <= i < |Place(line, sort, s, cs, k)| ==> Place(line, sort, s, cs, k)[i] == Transparent
    decreases |cs| - k
  {
    if k < |cs| {
      var chunk := line[ChunkStart(cs, s, k)..cs[k] + 1];
      var x := sort(chunk);
      PlaceTransparent(line, sort, s, cs, k + 1);
      forall i | 0 <= i < |x| ensures x[i] == Transparent {
        assert x[i] in multiset(x);
        assert x[i] in multiset(chunk);
      }
    }
  }

  /** A transparent line comes out of a pass unchanged. */
  lemma BlankStaysBlank(n: nat, minChunk: int, sort: seq<Color> -> seq<Color>)
    requires SortsByLightness(sort)
    ensures LinePass(Blank(n), minChunk, sort) == Blank(n)
  {
    LinePassIsShifted(Blank(n), minChunk, sort);
    PlaceTransparent(Blank(n), sort, 0, Closes(Blank(n), minChunk, 0), 0);
  }

  /** The samples of chunks `k`, `k + 1`, ... of a chain, unsorted, one chunk after the other. */
  function Covered(line: seq<Color>, s: nat, cs: seq<nat>, k: nat): seq<Color>
    requires Chain(cs, s, |line|) && k <= |cs|
    decreases |cs| - k
  {
    if k == |cs| then [] else line[ChunkStart(cs, s, k)..cs[k] + 1] + Covered(line, s, cs, k + 1)
  }

  /** The chunks of a chain from chunk `k` on cover `line[ChunkStart(k)..FlushedEnd]`
      without gaps or overlaps. */
  lemma {:induction false} CoveredIsSlice(line: seq<Color>, s: nat, cs: seq<nat>, k: nat)
    requires s <= |line| && Chain(cs, s, |line|) && k <= |cs|
    ensures ChunkStart(cs, s, k) <= FlushedEnd(cs, s) <= |line|
    ensures Covered(line, s, cs, k) == line[ChunkStart(cs, s, k)..FlushedEnd(cs, s)]
    decreases |cs| - k
  {
    ChainStarts(cs, s, |line|, |cs|);
    var b, e := ChunkStart(cs, s, k), FlushedEnd(cs, s);
    if k == |cs| {
      assert line[e..e] == [];
    } else {
      var m := cs[k] + 1;
      CoveredIsSlice(line, s, cs, k + 1);
      assert Covered(line, s, cs, k) == line[b..m] + Covered(line, s, cs, k + 1);
      SliceConcat(line, b, m, e);
    }
  }

  /** Adjacent slices join up. */
  lemma SliceConcat(line: seq<Color>, a: nat, m: nat, b: nat)
    requires a <= m <= b <= |line|
    ensures line[a..m] + line[m..b] == line[a..b]
  {
  }

  /** The placed chunks are a permutation of the samples they cover. */
  lemma {:induction false} PlacePermutes(line: seq<Color>, sort: seq<Color> -> seq<Color>, s: nat, cs: seq<nat>, k: nat)
    requires Chain(cs, s, |line|) && k <= |cs| && Permutes(sort)
    ensures multiset(Place(line, sort, s, cs, k)) == multiset(Covered(line, s, cs, k))
    decreases |cs| - k
  {
    if k < |cs| {
      var chunk := line[ChunkStart(cs, s, k)..cs[k] + 1];
      var x, rest, cov := sort(chunk), Place(line, sort, s, cs, k + 1), Covered(line, s, cs, k + 1);
      PlacePermutes(line, sort, s, cs, k + 1);
      ConcatPermutes(x, rest, chunk, cov);
    }
  }

  /** Concatenations of permutations are permutations. */
  lemma ConcatPermutes(x: seq<Color>, y: seq<Color>, u: seq<Color>, v: seq<Color>)
    requires multiset(x) == multiset(u) && multiset(y) == multiset(v)
    ensures multiset(x + y) == multiset(u + v)
  {
  }

  /** Accounting for a whole line: the output holds every flushed sample except
      the head of the first sorted chunk (a lightest sample of that chunk,
      written to index -1), and transparent samples in place of it and of the
      samples that were never flushed. */
  lemma LineAccounting(line: seq<Color>, minChunk: int, sort: seq<Color> -> seq<Color>)
    requires SortsByLightness(sort)
    ensures var f, out := Flushed(line, minChunk, sort, 0), LinePass(line, minChunk, sort);
      |line| - 1 <= |f| <= |line| &&
      (|f| == 0 ==> out == Blank(|line|)) &&
      (|f| > 0 ==>
        multiset(out) + multiset{f[0]} == multiset(line[..|f|]) + multiset(Blank(|line| - |f| + 1)) &&
        forall j :: 0 <= j <= Closes(line, minChunk, 0)[0] ==> Lightness(f[0]) >= Lightness(line[j]))
  {
    var cs := Closes(line, minChunk, 0);
    var f, out := Flushed(line, minChunk, sort, 0), LinePass(line, minChunk, sort);
    ClosesCoverage(line, minChunk, 0);
    PlaceLength(line, sort, 0, cs, 0);
    LinePassShape(line, minChunk, sort);
    if |f| == 0 {
      assert out == Blank(|line|);
    } else {
      PlacePermutes(line, sort, 0, cs, 0);
      CoveredIsSlice(line, 0, cs, 0);
      assert line[0..FlushedEnd(cs, 0)] == line[..|f|];
      ShiftAccounting(line, f, out);
      FirstChunkHead(line, minChunk, sort);
    }
  }

  /** Where `out` is `f` moved one index towards the front over a transparent
      line, and `f` is a permutation of the first `|f|` samples of `line`,
      `out` holds those samples except `f[0]`, and transparent ones. */
  lemma ShiftAccounting(line: seq<Color>, f: seq<Color>, out: seq<Color>)
    requires 0 < |f| && |line| - 1 <= |f| <= |line| == |out|
    requires multiset(f) == multiset(line[..|f|])
    requires forall k :: 0 <= k < |f| - 1 ==> out[k] == f[k + 1]
    requires forall k :: |f| - 1 <= k < |line| ==> out[k] == Transparent
    ensures multiset(out) + multiset{f[0]} == multiset(line[..|f|]) + multiset(Blank(|line| - |f| + 1))
  {
    assert out == f[1..] + Blank(|line| - |f| + 1);
    assert f == [f[0]] + f[1..];
  }

  /** The head of the first sorted chunk is at least as light as every sample
      of that chunk. */
  lemma FirstChunkHead(line: seq<Color>, minChunk: int, sort: seq<Color> -> seq<Color>)
    requires SortsByLightness(sort) && |Closes(line, minChunk, 0)| > 0
    ensures var f, c := Flushed(line, minChunk, sort, 0), Closes(line, minChunk, 0)[0];
      c < |line| && |f| > c &&
      forall j :: 0 <= j <= c ==> Lightness(f[0]) >= Lightness(line[j])
  {
    var cs := Closes(line, minChunk, 0);
    PlaceChunk(line, sort, 0, cs, 0, 0);
    HeadIsLightest(Flushed(line, minChunk, sort, 0), line, cs[0], sort(line[0..cs[0] + 1]));
  }

  /** When `f` starts with a non-increasing permutation of `line[..c + 1]`, its
      head is at least as light as every sample of `line[..c + 1]`. */
  lemma HeadIsLightest(f: seq<Color>, line: seq<Color>, c: nat, sorted: seq<Color>)
    requires c < |line| && c < |f| && f[0..c + 1] == sorted
    requires multiset(sorted) == multiset(line[0..c + 1]) && NonIncreasing(sorted)
    ensures forall j :: 0 <= j <= c ==> Lightness(f[0]) >= Lightness(line[j])
  {
    assert f[0] == sorted[0];
    forall j | 0 <= j <= c ensures Lightness(sorted[0]) >= Lightness(line[j]) {
      assert line[j] == line[0..c + 1][j];
      assert line[j] in multiset(sorted);
      var m :| 0 <= m < |sorted| && sorted[m] == line[j];
    }
  }
}
