/** The two image passes (`sortImageX`, `sortImageY`) over a pixel buffer,
    and the direction dispatch of `main`. An image is an `array2<Color>`
    indexed `[x, y]`: `Length0` is the width (`Dx`), `Length1` the height (`Dy`).
    As values, images are column-major grids: `p[x][y]` is the pixel at (x, y).
    The chunk sort (`sort.Slice` in the source) is the parameter `sort`; the
    passes are exact for any such function, and the lemmas that need it ask
    for `KeepsLength` or `SortsByLightness`. */
module Passes {
  import opened Colors
  import opened Sorting
  import opened Lines

  // ---------------------------------------------------------------------------
  // Images as values

  /** Height of a grid (0 for a grid without columns). */
  function Height(p: seq<seq<Color>>): nat {
    if |p| == 0 then 0 else |p[0]|
  }

  /** Every column of the grid has the same height. */
  predicate Rectangular(p: seq<seq<Color>>) {
    forall x :: 0 <= x < |p| ==> |p[x]| == Height(p)
  }

  /** Row `y` of a grid, read left to right. */
  function RowOf(p: seq<seq<Color>>, y: nat): (row: seq<Color>)
    requires Rectangular(p) && y < Height(p)
    ensures |row| == |p|
  {
    seq(|p|, x requires 0 <= x < |p| => p[x][y])
  }

  /** The X pass on a grid: every row goes through one line pass on its own. */
  function PassX(p: seq<seq<Color>>, minChunk: int, sort: seq<Color> -> seq<Color>): (r: seq<seq<Color>>)
    requires Rectangular(p)
    ensures |r| == |p| && Rectangular(r) && Height(r) == Height(p)
  {
    seq(|p|, x requires 0 <= x < |p| =>
      seq(Height(p), y requires 0 <= y < Height(p) => LinePass(RowOf(p, y), minChunk, sort)[x]))
  }

  /** The Y pass on a grid: every column goes through one line pass on its own. */
  function PassY(p: seq<seq<Color>>, minChunk: int, sort: seq<Color> -> seq<Color>): (r: seq<seq<Color>>)
    requires Rectangular(p)
    ensures |r| == |p| && Rectangular(r) && Height(r) == Height(p)
  {
    seq(|p|, x requires 0 <= x < |p| => LinePass(p[x], minChunk, sort))
  }

  /** The X pass never writes the last column: it stays transparent. */
  lemma PassXLastColumn(p: seq<seq<Color>>, minChunk: int, sort: seq<Color> -> seq<Color>)
    requires Rectangular(p) && |p| > 0 && KeepsLength(sort)
    ensures PassX(p, minChunk, sort)[|p| - 1] == Blank(Height(p))
  {
    var last := PassX(p, minChunk, sort)[|p| - 1];
    forall y | 0 <= y < Height(p) ensures last[y] == Transparent {
      LastIndexNeverWritten(RowOf(p, y), minChunk, sort);
    }
  }

  /** The Y pass never writes the last row: it stays transparent. */
  lemma PassYLastRow(p: seq<seq<Color>>, minChunk: int, sort: seq<Color> -> seq<Color>)
    requires Rectangular(p) && Height(p) > 0 && KeepsLength(sort)
    ensures forall x :: 0 <= x < |p| ==> PassY(p, minChunk, sort)[x][Height(p) - 1] == Transparent
  {
    forall x | 0 <= x < |p| ensures PassY(p, minChunk, sort)[x][Height(p) - 1] == Transparent {
      LastIndexNeverWritten(p[x], minChunk, sort);
    }
  }

  /** After both passes, the last column and the last row are transparent:
      the Y pass keeps the transparent column the X pass left behind. */
  lemma BothPassesBorders(p: seq<seq<Color>>, minChunk: int, sort: seq<Color> -> seq<Color>)
    requires Rectangular(p) && |p| > 0 && Height(p) > 0 && SortsByLightness(sort)
    ensures var q := PassY(PassX(p, minChunk, sort), minChunk, sort);
      q[|p| - 1] == Blank(Height(p)) &&
      forall x :: 0 <= x < |p| ==> q[x][Height(p) - 1] == Transparent
  {
    var px := PassX(p, minChunk, sort);
    PassXLastColumn(p, minChunk, sort);
    PassYLastRow(px, minChunk, sort);
    BlankStaysBlank(Height(p), minChunk, sort);
  }

  // ---------------------------------------------------------------------------
  // Images as pixel buffers

  /** Column `x` of a buffer, read top to bottom. */
  function Column(a: array2<Color>, x: nat): (col: seq<Color>)
    reads a
    requires x < a.Length0
    ensures |col| == a.Length1 && forall y :: 0 <= y < a.Length1 ==> col[y] == a[x, y]
  {
    seq(a.Length1, y requires 0 <= y < a.Length1 reads a => a[x, y])
  }

  /** Row `y` of a buffer, read left to right. */
  function Row(a: array2<Color>, y: nat): (row: seq<Color>)
    reads a
    requires y < a.Length1
    ensures |row| == a.Length0 && forall x :: 0 <= x < a.Length0 ==> row[x] == a[x, y]
  {
    seq(a.Length0, x requires 0 <= x < a.Length0 reads a => a[x, y])
  }

  /** The buffer's pixels as a grid. */
  function Pixels(a: array2<Color>): (p: seq<seq<Color>>)
    reads a
    ensures |p| == a.Length0 && Rectangular(p) && (a.Length0 > 0 ==> Height(p) == a.Length1)
  {
    seq(a.Length0, x requires 0 <= x < a.Length0 reads a => Column(a, x))
  }

  /** Row `y` of the grid of a buffer is row `y` of the buffer. */
  lemma RowOfPixels(a: array2<Color>, y: nat)
    requires y < a.Length1 && a.Length0 > 0
    ensures RowOf(Pixels(a), y) == Row(a, y)
  {
  }

  /** Writes `chunk[pos]` to `(base + pos, row)` for every `pos`, skipping the
      writes that fall outside the buffer as `Set` does. */
  method WriteBackX(out: array2<Color>, row: nat, base: int, chunk: seq<Color>)
    requires row < out.Length1
    modifies out
    ensures Row(out, row) == Overlay(old(Row(out, row)), base, chunk)
    ensures forall x, y :: 0 <= x < out.Length0 && 0 <= y < out.Length1 && y != row ==> out[x, y] == old(out[x, y])
  {
    for pos := 0 to |chunk|
      invariant forall x :: 0 <= x < out.Length0 ==>
        out[x, row] == if base <= x < base + pos then chunk[x - base] else old(out[x, row])
      invariant forall x, y :: 0 <= x < out.Length0 && 0 <= y < out.Length1 && y != row ==> out[x, y] == old(out[x, y])
    {
      var x := base + pos;
      if 0 <= x < out.Length0 {
        out[x, row] := chunk[pos];
      }
    }
  }

  /** Writes `chunk[pos]` to `(col, base + pos)` for every `pos`, skipping the
      writes that fall outside the buffer as `Set` does. */
  method WriteBackY(out: array2<Color>, col: nat, base: int, chunk: seq<Color>)
    requires col < out.Length0
    modifies out
    ensures Column(out, col) == Overlay(old(Column(out, col)), base, chunk)
    ensures forall x, y :: 0 <= x < out.Length0 && 0 <= y < out.Length1 && x != col ==> out[x, y] == old(out[x, y])
  {
    for pos := 0 to |chunk|
      invariant forall y :: 0 <= y < out.Length1 ==>
        out[col, y] == if base <= y < base + pos then chunk[y - base] else old(out[col, y])
      invariant forall x, y :: 0 <= x < out.Length0 && 0 <= y < out.Length1 && x != col ==> out[x, y] == old(out[x, y])
    {
      var y := base + pos;
      if 0 <= y < out.Length1 {
        out[col, y] := chunk[pos];
      }
    }
  }

  /** One row of `sortImageX`: the chunk loop over row `row` of `img`, writing
      into the transparent row `row` of `out`; every other row is left alone. */
  method SortRow(img: array2<Color>, out: array2<Color>, row: nat, minChunk: int, sort: seq<Color> -> seq<Color>)
    requires img != out && out.Length0 == img.Length0 && out.Length1 == img.Length1
    requires row < img.Length1 && Row(out, row) == Blank(img.Length0)
    modifies out
    ensures Row(out, row) == LinePass(Row(img, row), minChunk, sort)
    ensures forall x, y :: 0 <= x < out.Length0 && 0 <= y < out.Length1 && y != row ==> out[x, y] == old(out[x, y])
  {
    var w := img.Length0;
    ghost var line := Row(img, row);
    var chunk: seq<Color> := [];
    ghost var written := Row(out, row);
    for col := 0 to w
      invariant written == Row(out, row)
      invariant Scan(line, minChunk, sort, col, chunk, written) == LinePass(line, minChunk, sort)
      invariant forall x, y :: 0 <= x < w && 0 <= y < out.Length1 && y != row ==> out[x, y] == old(out[x, y])
    {
      var curPixel := img[col, row];
      assert curPixel == line[col];
      var lastPixel := curPixel;
      if |chunk| > 1 {
        lastPixel := chunk[|chunk| - 1];
      }
      ScanLoopStep(line, minChunk, sort, col, chunk, written, lastPixel);
      chunk := chunk + [curPixel];
      if |chunk| > w - col || (ColorThreshold(curPixel, lastPixel) && ChunkIsBigEnough(chunk, minChunk)) {
        WriteBackX(out, row, col - |chunk|, sort(chunk));
        written := Overlay(written, col - |chunk|, sort(chunk));
        chunk := [];
      }
    }
  }

  /** One column of `sortImageY`: the chunk loop over column `col` of `img`,
      writing into the transparent column `col` of `out`; every other column
      is left alone. */
  method SortColumn(img: array2<Color>, out: array2<Color>, col: nat, minChunk: int, sort: seq<Color> -> seq<Color>)
    requires img != out && out.Length0 == img.Length0 && out.Length1 == img.Length1
    requires col < img.Length0 && Column(out, col) == Blank(img.Length1)
    modifies out
    ensures Column(out, col) == LinePass(Column(img, col), minChunk, sort)
    ensures forall x, y :: 0 <= x < out.Length0 && 0 <= y < out.Length1 && x != col ==> out[x, y] == old(out[x, y])
  {
    var h := img.Length1;
    ghost var line := Column(img, col);
    var chunk: seq<Color> := [];
    ghost var written := Column(out, col);
    for row := 0 to h
      invariant written == Column(out, col)
      invariant Scan(line, minChunk, sort, row, chunk, written) == LinePass(line, minChunk, sort)
      invariant forall x, y :: 0 <= x < out.Length0 && 0 <= y < h && x != col ==> out[x, y] == old(out[x, y])
    {
      var curPixel := img[col, row];
      assert curPixel == line[row];
      var lastPixel := curPixel;
      if |chunk| > 1 {
        lastPixel := chunk[|chunk| - 1];
      }
      ScanLoopStep(line, minChunk, sort, row, chunk, written, lastPixel);
      chunk := chunk + [curPixel];
      if |chunk| > h - row || (ColorThreshold(curPixel, lastPixel) && ChunkIsBigEnough(chunk, minChunk)) {
        WriteBackY(out, col, row - |chunk|, sort(chunk));
        written := Overlay(written, row - |chunk|, sort(chunk));
        chunk := [];
      }
    }
  }

  /** `sortImageX`: a fresh transparent buffer of the same size, filled row by
      row by the chunk loop; the input is only read. */
  method SortImageX(img: array2<Color>, minChunk: int, sort: seq<Color> -> seq<Color>) returns (out: array2<Color>)
    ensures fresh(out) && out.Length0 == img.Length0 && out.Length1 == img.Length1
    ensures forall x, y :: 0 <= x < out.Length0 && 0 <= y < out.Length1 ==>
      out[x, y] == LinePass(Row(img, y), minChunk, sort)[x]
    ensures Pixels(out) == PassX(Pixels(img), minChunk, sort)
  {
    var w, h := img.Length0, img.Length1;
    out := new Color[w, h]((x, y) => Transparent);
    for row := 0 to h
      invariant forall x, y :: 0 <= x < w && 0 <= y < row ==> out[x, y] == LinePass(Row(img, y), minChunk, sort)[x]
      invariant forall x, y :: 0 <= x < w && row <= y < h ==> out[x, y] == Transparent
    {
      assert Row(out, row) == Blank(w);
      SortRow(img, out, row, minChunk, sort);
    }
    RowsMakePassX(img, out, minChunk, sort);
  }

  /** `sortImageY`: the same loop over columns, top to bottom. */
  method SortImageY(img: array2<Color>, minChunk: int, sort: seq<Color> -> seq<Color>) returns (out: array2<Color>)
    ensures fresh(out) && out.Length0 == img.Length0 && out.Length1 == img.Length1
    ensures forall x, y :: 0 <= x < out.Length0 && 0 <= y < out.Length1 ==>
      out[x, y] == LinePass(Column(img, x), minChunk, sort)[y]
    ensures Pixels(out) == PassY(Pixels(img), minChunk, sort)
  {
    var w, h := img.Length0, img.Length1;
    out := new Color[w, h]((x, y) => Transparent);
    for col := 0 to w
      invariant forall x, y :: 0 <= x < col && 0 <= y < h ==> out[x, y] == LinePass(Column(img, x), minChunk, sort)[y]
      invariant forall x, y :: col <= x < w && 0 <= y < h ==> out[x, y] == Transparent
    {
      assert Column(out, col) == Blank(h);
      SortColumn(img, out, col, minChunk, sort);
    }
    ColumnsMakePassY(img, out, minChunk, sort);
  }

  /** A buffer whose every row is the line pass of the same row of `img`
      holds the X pass of `img`. */
  lemma RowsMakePassX(img: array2<Color>, out: array2<Color>, minChunk: int, sort: seq<Color> -> seq<Color>)
    requires out.Length0 == img.Length0 && out.Length1 == img.Length1
    requires forall x, y :: 0 <= x < out.Length0 && 0 <= y < out.Length1 ==>
      out[x, y] == LinePass(Row(img, y), minChunk, sort)[x]
    ensures Pixels(out) == PassX(Pixels(img), minChunk, sort)
  {
    var p, q := Pixels(img), Pixels(out);
    var r := PassX(p, minChunk, sort);
    forall x | 0 <= x < |q| ensures q[x] == r[x] {
      forall y | 0 <= y < img.Length1 ensures q[x][y] == r[x][y] {
        RowOfPixels(img, y);
      }
    }
  }

  /** A buffer whose every column is the line pass of the same column of `img`
      holds the Y pass of `img`. */
  lemma ColumnsMakePassY(img: array2<Color>, out: array2<Color>, minChunk: int, sort: seq<Color> -> seq<Color>)
    requires out.Length0 == img.Length0 && out.Length1 == img.Length1
    requires forall x, y :: 0 <= x < out.Length0 && 0 <= y < out.Length1 ==>
      out[x, y] == LinePass(Column(img, x), minChunk, sort)[y]
    ensures Pixels(out) == PassY(Pixels(img), minChunk, sort)
  {
    var p, q := Pixels(img), Pixels(out);
    var r := PassY(p, minChunk, sort);
    forall x | 0 <= x < |q| ensures q[x] == r[x] {
      assert p[x] == Column(img, x);
    }
  }

  /** The dispatch of `main`: "x" runs the X pass, "y" the Y pass, "both" the
      X pass and then the Y pass on its output; any other direction hands the
      input image back unchanged. */
  method SortDirection(img: array2<Color>, direction: string, minChunk: int, sort: seq<Color> -> seq<Color>) returns (sorted: array2<Color>)
    ensures direction == "x" ==> Pixels(sorted) == PassX(Pixels(img), minChunk, sort)
    ensures direction == "y" ==> Pixels(sorted) == PassY(Pixels(img), minChunk, sort)
    ensures direction == "both" ==> Pixels(sorted) == PassY(PassX(Pixels(img), minChunk, sort), minChunk, sort)
    ensures direction != "x" && direction != "y" && direction != "both" ==> sorted == img
  {
    sorted := img;
    if direction == "x" || direction == "both" {
      sorted := SortImageX(sorted, minChunk, sort);
    }
    if direction == "y" || direction == "both" {
      sorted := SortImageY(sorted, minChunk, sort);
    }
  }
}
