# go-pixel-sort, modelled in Dafny

go-pixel-sort is a "pixel sorting" glitch effect. It walks every row (the X
pass, `sortImageX`) and/or every column (the Y pass, `sortImageY`) of an
image and cuts each scan line into chunks. A chunk closes when the current
pixel is at least 32/255 opaque, its lightness falls in the band [64, 96]
and the chunk is big enough, or when the chunk has grown longer than the
rest of the line. Each closed chunk
is sorted by descending lightness and written into a fresh, transparent
output image. The direction flag decides which passes run.

The model has four modules:

- `Colors` (`colors.dfy`): colour samples (four 16-bit channels, as `RGBA()`
  returns them), `lightness`, the in-band trigger `colorThreshold` and the
  minimum-chunk gate `chunkIsBigEnough`.
- `Sorting` (`sorting.dfy`): what the chunk sort must do (`SortsByLightness`:
  same length, same samples, non-increasing lightness), and an insertion sort
  `SortDesc` that does it.
- `Lines` (`lines.dfy`): one scan line as pure functions.
  - `Scan` follows the inner loop sample by sample, including the
    previous-sample bookkeeping and the write-back at `i - len(chunk)`.
  - `CloseFrom`, `Closes` and `Flushed` describe the same line chunk by chunk.
  - The lemmas connect the two descriptions and state what a pass does to a
    line.
- `Passes` (`passes.dfy`): the imperative passes over an `array2<Color>`
  (`SortImageX`, `SortImageY`, with `SortRow`/`SortColumn` for the inner loop
  and `WriteBackX`/`WriteBackY` for the write-back loop), the same passes on
  grids as values (`PassX`, `PassY`), and the direction dispatch of `main`
  (`SortDirection`).

The chunk sort is a parameter of the passes. Go's `sort.Slice` is not
stable, so its order among samples of equal lightness is not determined.
The passes are therefore stated for any function, and the properties that
depend on sorting require `SortsByLightness`. `SortDescSorts` shows that such
a sort exists.

The model follows the code as written, including three behaviours a reader
might not expect:

- **The write-back is one index early.** A chunk read from index `st` to
  index `c` is written to `st - 1 .. c - 1` (main.go:88, 123). The first
  chunk's lightest sample goes to index -1, where `Set` ignores it. The last
  index of every line is never written, so it keeps the transparent zero
  value of `image.NewRGBA`.
- **The forced close fires when `len(chunk) > L - i`** (main.go:79, 114).
  A chunk of two or more samples that reaches the last index is always
  flushed. A chunk that starts at the last index is flushed only if the
  in-band trigger fires for it.
- **"both" runs the X (row) pass first, then the Y (column) pass on its
  output** (main.go:51-56).

## Model

| member | source | states |
|---|---|---|
| Colors.Lightness | main.go:132-143 | a sample with alpha 0 has lightness 0; every lightness lies in [0, 255] |
| Colors.LightnessTermwise | main.go:136-142 | for alpha ≠ 0 the lightness equals 0.2126·(R8·A8/255) + 0.7152·(G8·A8/255) + 0.0722·(B8·A8/255), each channel first divided by 0x101 |
| Colors.ColorThreshold | main.go:145-153 | false when the 8-bit alpha is below 32; otherwise true exactly when 64 ≤ lightness ≤ 96 |
| Colors.ThresholdIgnoresLast | main.go:145-153 | the answer does not depend on the previous-pixel argument |
| Colors.TransparentNeverFires | main.go:132-153 | a fully transparent sample has lightness 0 and never triggers a close |
| Colors.ChunkIsBigEnough | main.go:166-174 | the sentinel -1 accepts every chunk; any other minimum accepts exactly chunks of at least that length |
| Sorting.SortDescSorts | main.go:117-119 | the insertion sort keeps the length, keeps the samples (multiset) and orders them by non-increasing lightness |
| Lines.Overlay | main.go:122-124 | writing `t` at `base` changes exactly the in-range indices `base .. base + len(t) - 1`, each to the matching sample of `t`, and drops out-of-range writes |
| Lines.LinePass | main.go:99-128 | a line pass returns a line of the same length |
| Lines.Fires | main.go:114 | a chunk started at `s` closes at `i` exactly when it is forced (`i - s + 1 > len - i`) or the sample is at least 32/255 opaque, its lightness is in [64, 96] and the chunk has at least `minChunk` samples (any size for the sentinel -1); in particular a sample less than 32/255 opaque, or outside the band, closes a chunk only when forced |
| Lines.Scan | main.go:105-126 | the output line keeps its length, and indices before the open chunk's write position `i - len(chunk) - 1` are never written again |
| Lines.CloseFrom | main.go:114 | the index returned is the first index from the search start at which the close test fires; None means no index fires before the line ends |
| Lines.Closes | main.go:103-127 | the close indices of a line form a chain: each chunk starts right after the previous close index and closes inside the line |
| Lines.ScanStep | main.go:107-114 | with the open chunk `line[s..i]`, a step flushes exactly when `Fires` holds; the previous-sample bookkeeping has no effect |
| Lines.FirstCloseFlushes | main.go:114-125 | when `i` is the first index that fires, the chunk closes at `i`, the flushed output begins with the sorted `line[s..i+1]`, and scanning restarts at `i + 1` |
| Lines.ScanIsChunked | main.go:103-126 | the loop state at index `i` with open chunk `line[s..i]` produces the sorted chunks of `line[s..]` written one after the other from index `s - 1` |
| Lines.LinePassIsShifted | main.go:99-128 | a line pass equals the concatenated sorted chunks written from index -1 over a transparent line |
| Lines.ForcedAtLastIndex | main.go:114 | a chunk of two or more samples that reaches the last index always fires there |
| Lines.ClosesPartition | main.go:105-125 | chunk `k` starts right after chunk `k - 1` closes (chunk 0 at index 0) and closes at the first index from its start at which the close test fires, so chunks are contiguous and disjoint |
| Lines.ClosesCoverage | main.go:114 | the flushed chunks reach at least index `len - 1`, so at most the final sample of a line is never flushed |
| Lines.MinChunkRespected | main.go:114 | a close that is not forced happens only for a chunk of at least `minChunk` samples, unless the minimum is the sentinel -1 |
| Lines.LinePassShape | main.go:122-124 | the output is the flushed sequence shifted one index to the front, followed by transparent samples up to and including the last index |
| Lines.LastIndexNeverWritten | main.go:99-128 | the last index of every non-empty line stays transparent |
| Lines.ChunkWrittenOneEarly | main.go:122-124 | chunk `st .. c` is written sorted to `st - 1 .. c - 1`; for the first chunk the head of the sorted chunk is lost |
| Lines.ChunkSortedInOutput | main.go:116-124 | every chunk lies inside the line, and every chunk after the first appears in the output as a permutation of its samples with non-increasing lightness |
| Lines.BlankStaysBlank | main.go:99-128 | a fully transparent line comes out of a pass unchanged |
| Lines.CoveredIsSlice | main.go:105-125 | the chunks of a chain cover the line from its start to the end of the last flushed chunk, without gaps or overlaps |
| Lines.PlacePermutes | main.go:116-124 | the flushed samples are a permutation of the samples the chunks cover |
| Lines.LineAccounting | main.go:97-130 | the output holds every flushed sample except the head of the first sorted chunk (a lightest sample of that chunk), plus transparent samples in its place and in place of the unflushed tail |
| Lines.FirstChunkHead | main.go:116-124 | the sample lost at index -1 is at least as light as every sample of the first chunk |
| Passes.PassX | main.go:97-130 | the X pass on a grid keeps its width and height |
| Passes.PassY | main.go:62-95 | the Y pass on a grid keeps its width and height |
| Passes.PassXLastColumn | main.go:122-124 | the X pass leaves the last column transparent |
| Passes.PassYLastRow | main.go:87-89 | the Y pass leaves the last row transparent |
| Passes.BothPassesBorders | main.go:50-56 | after "both", the last column and the last row are transparent |
| Passes.WriteBackX | main.go:122-124 | row `row` of the buffer becomes the old row with the chunk written from `base`, skipping out-of-range x; other rows are unchanged |
| Passes.WriteBackY | main.go:87-89 | column `col` of the buffer becomes the old column with the chunk written from `base`, skipping out-of-range y; other columns are unchanged |
| Passes.SortRow | main.go:103-127 | running the chunk loop over row `row` leaves that row of the output equal to the line pass of the input row, and every other row unchanged |
| Passes.SortColumn | main.go:68-92 | running the chunk loop over column `col` leaves that column of the output equal to the line pass of the input column, and every other column unchanged |
| Passes.SortImageX | main.go:97-130 | returns a fresh buffer of the input's size in which every pixel is the line pass of its own row, so no chunk state carries over between rows; the whole buffer is the X pass of the input, which is only read |
| Passes.SortImageY | main.go:62-95 | returns a fresh buffer of the input's size in which every pixel is the line pass of its own column, so no chunk state carries over between columns; the whole buffer is the Y pass of the input, which is only read |
| Passes.SortDirection | main.go:50-56 | "x" gives the X pass, "y" the Y pass, "both" the Y pass of the X pass; any other direction returns the input image itself |

## Left out

- Flags, opening and decoding the PNG, the output filename, encoding and `log.Fatalf` (main.go:24-49, 57-59) are I/O. The direction, the minimum chunk size and the image become parameters.
- `changeThreshold` (main.go:155-164) is never called.
- The `sort.threshold` flag (the `sortThreshold` variable) feeds only `changeThreshold`, so it is not modelled either.
- The `sort.chunk.min` global becomes the `minChunk` parameter.
- Colors.Lightness: computed in exact real arithmetic, not float64, so rounding near the band edges 64 and 96 and in ties is not modelled.
- Colors.Lightness: the body factors A8/255 out of the three terms; `LightnessTermwise` proves this equal to the term-by-term form.
- The internals of `sort.Slice` are not modelled. The passes take the chunk sort as a parameter, and properties that depend on sorting hold for any sort meeting `SortsByLightness`. The order among samples of equal lightness is therefore left open, as `sort.Slice` leaves it.
- `Set` converts colours to the RGBA model. Samples are modelled as already-converted 16-bit RGBA values, so the conversion is not modelled. A `Set` outside the image is modelled as the no-op it is.
- Images are assumed to have their origin at (0, 0), as decoded PNGs do. `At(col, row)` reads absolute coordinates, and the model does not cover a non-zero `Bounds().Min`.
- Lines.ChunkSortedInOutput: states permutation and order only for chunks after the first. The first chunk loses its head at index -1; `ChunkWrittenOneEarly`, `LineAccounting` and `FirstChunkHead` describe that case.
