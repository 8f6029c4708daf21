/**
 The evaluator of src/lib.rs: the `Range` and `Mandelbrot` records, the
 mapping of a pixel to a point of the complex plane, the per-point escape
 index, and `update`, which builds the row-major colour buffer of one frame.

 `f64` values are read as exact reals; the complex orbit itself is left
 abstract as an `EscapeOracle`.
 */
module Fractal {
  import opened Pixels
  import Escape

  /** `Range(pub f64, pub f64)`: the two ends of one axis of the plane window. */
  datatype Range = Range(start: real, end: real)

  /** `Range::new`: keeps both ends as given; any pair is accepted, reversed or empty. */
  function NewRange(a: real, b: real): (r: Range)
    ensures r.start == a && r.end == b
  {
    Range(a, b)
  }

  /** The evaluator's configuration, fixed when it is built. */
  datatype Mandelbrot = Mandelbrot(
    width: u32,
    height: u32,
    iterations: u32,
    threshold: real,
    colors: seq<u32>)

  /** `Mandelbrot::new`: keeps every argument as given, with no validation. */
  function NewMandelbrot(width: u32, height: u32, iterations: u32, threshold: real, colors: seq<u32>): (m: Mandelbrot)
    ensures m.width == width && m.height == height
    ensures m.iterations == iterations && m.threshold == threshold
    ensures m.colors == colors
  {
    Mandelbrot(width, height, iterations, threshold, colors)
  }

  /** `escapes(a, b, power, threshold, i)`: after step i of z := z^power + (a + bi),
      started at z = 0, |z| exceeds `threshold`. The complex floating-point
      arithmetic behind it is not modelled. */
  type EscapeOracle = (real, real, real, real, nat) -> bool

  /** The arguments of one `update` call. */
  datatype Frame = Frame(rangeX: Range, rangeY: Range, power: real)

  /** `compute_point_value`: the escape index of the point a + bi. */
  function ComputePointValue(m: Mandelbrot, escapes: EscapeOracle, a: real, b: real, power: real): (r: u32)
    requires m.iterations >= 1
    ensures r < m.iterations
    ensures forall j: nat :: j < r ==> !escapes(a, b, power, m.threshold, j)
    ensures escapes(a, b, power, m.threshold, r) || r == m.iterations - 1
    ensures (forall j: nat :: j < m.iterations ==> !escapes(a, b, power, m.threshold, j)) ==> r == m.iterations - 1
  {
    var orbit := (i: nat) => escapes(a, b, power, m.threshold, i);
    var r := Escape.PointValue(orbit, m.iterations);
    assert forall j: nat :: j < r ==> !escapes(a, b, power, m.threshold, j) by {
      forall j: nat | j < r
        ensures !escapes(a, b, power, m.threshold, j)
      {
        assert !orbit(j);
      }
    }
    assert escapes(a, b, power, m.threshold, r) || r == m.iterations - 1 by {
      assert orbit(r) || r == m.iterations - 1;
    }
    r
  }

  /** The plane coordinate of pixel `k` along an axis spanned by `range` and
      scaled to `pixels` pixels: `start + k / (pixels / size)`. A zero-size
      range gives an infinite scale in `f64`, so every pixel maps to `start`. */
  function PlaneCoord(range: Range, pixels: u32, k: nat): real
    requires pixels > 0
  {
    var size := range.end - range.start;
    if size == 0.0 then range.start
    else range.start + (k as real) * size / (pixels as real)
  }

  /** Pixel `k` of an axis scaled to `pixels` pixels lies inside the range
      exactly when `k < pixels`. Since `update` scales the vertical axis by the
      width, rows at or below `width` fall outside the vertical range. */
  lemma PlaneCoordInRange(range: Range, pixels: u32, k: nat)
    requires pixels > 0
    requires range.start < range.end
    ensures range.start <= PlaneCoord(range, pixels, k) < range.end <==> k < pixels
  {
    var size := range.end - range.start;
    var offset := (k as real) * size / (pixels as real);
    assert offset * (pixels as real) == (k as real) * size;
    if k < pixels {
      assert (k as real) * size < (pixels as real) * size;
    } else {
      assert (k as real) * size >= (pixels as real) * size;
    }
  }

  /** The escape index `update` computes for pixel (x, y). Both scales are taken
      from the width: `scale_y` divides `self.width`, not `self.height`. */
  function PixelIndex(m: Mandelbrot, escapes: EscapeOracle, f: Frame, x: nat, y: nat): (k: u32)
    requires m.iterations >= 1
    requires x < m.width
    ensures k < m.iterations
  {
    var cx := PlaneCoord(f.rangeX, m.width, x);
    var cy := PlaneCoord(f.rangeY, m.width, y);
    ComputePointValue(m, escapes, cx, cy, f.power)
  }

  /** `PixelIndex` as a function of the pixel, defined on every column of the frame. */
  function IndexOf(m: Mandelbrot, escapes: EscapeOracle, f: Frame): (idx: (nat, nat) --> u32)
    requires m.iterations >= 1
    ensures Defined(m.width, idx)
    ensures forall x: nat, y: nat :: x < m.width ==> idx(x, y) == PixelIndex(m, escapes, f, x, y)
  {
    (x: nat, y: nat) requires x < m.width => PixelIndex(m, escapes, f, x, y)
  }

  /** `idx` can be asked about every pixel of a frame `w` columns wide. */
  ghost predicate Defined(w: nat, idx: (nat, nat) --> u32) {
    forall x: nat, y: nat :: x < w ==> idx.requires(x, y)
  }

  /** Every pixel's index names an entry of the colour table. */
  ghost predicate AllInTable(w: nat, h: nat, table: seq<u32>, idx: (nat, nat) --> u32)
    requires Defined(w, idx)
  {
    forall y: nat, x: nat :: y < h && x < w ==> idx(x, y) < |table|
  }

  /** Pixel (x, y) is the first one, in row-major order, whose index falls
      outside the colour table. */
  ghost predicate FirstMiss(w: nat, h: nat, table: seq<u32>, idx: (nat, nat) --> u32, x: nat, y: nat)
    requires Defined(w, idx)
  {
    && x < w && y < h
    && idx(x, y) >= |table|
    && (forall yy: nat, xx: nat :: yy < y && xx < w ==> idx(xx, yy) < |table|)
    && (forall xx: nat :: xx < x ==> idx(xx, y) < |table|)
  }

  /** `data` holds the first `rows` rows of the frame in row-major order:
      pixel (x, y) at position y * w + x, with its colour looked up in `table`. */
  ghost predicate RowsFilled(w: nat, table: seq<u32>, idx: (nat, nat) --> u32, data: seq<u32>, rows: nat)
    requires Defined(w, idx)
  {
    && |data| == rows * w
    && forall yy: nat, xx: nat :: yy < rows && xx < w ==>
      && idx(xx, yy) < |table|
      && yy * w + xx < |data|
      && data[yy * w + xx] == table[idx(xx, yy)]
  }

  /** Every word of `data` that pixel (x, y) maps to, position y * w + x,
      holds that pixel's colour. */
  ghost predicate Shows(w: nat, h: nat, table: seq<u32>, idx: (nat, nat) --> u32, data: seq<u32>)
    requires Defined(w, idx)
  {
    forall y: nat, x: nat :: y < h && x < w && y * w + x < |data| ==>
      idx(x, y) < |table| && data[y * w + x] == table[idx(x, y)]
  }

  /** A table at least as long as the iteration budget covers every index. */
  lemma TableCoversBudget(m: Mandelbrot, escapes: EscapeOracle, f: Frame)
    requires m.iterations >= 1
    requires |m.colors| >= m.iterations
    ensures AllInTable(m.width, m.height, m.colors, IndexOf(m, escapes, f))
  {
    var idx := IndexOf(m, escapes, f);
    forall y: nat, x: nat | y < m.height && x < m.width
      ensures idx(x, y) < |m.colors|
    {
      assert idx(x, y) == PixelIndex(m, escapes, f, x, y);
    }
  }

  /** What `update` produces: the frame's colour buffer, or the panic
      "Can't get color by index" with the offending index. */
  datatype UpdateResult = Buffer(data: seq<u32>) | Panic(colorIndex: u32)

  /** Pixel (x, y) of a row-major buffer lies before the start of row `rows`. */
  lemma RowMajorBelow(w: nat, y: nat, x: nat, rows: nat)
    requires y < rows && x < w
    ensures y * w + x < rows * w
  {
    assert y * w + x < (y + 1) * w;
    assert (y + 1) * w <= rows * w;
  }

  /** The inner loop of `update` over row `y`: one colour per column, left to
      right, stopping at the first lookup outside the colour table. */
  method BuildRow(w: nat, table: seq<u32>, idx: (nat, nat) --> u32, y: nat) returns (r: UpdateResult, ghost column: nat)
    requires Defined(w, idx)
    ensures r.Buffer? <==> forall x: nat :: x < w ==> idx(x, y) < |table|
    ensures r.Buffer? ==> |r.data| == w
    ensures r.Buffer? ==> forall x: nat :: x < w ==> idx(x, y) < |table| && r.data[x] == table[idx(x, y)]
    ensures r.Buffer? ==> forall i :: 0 <= i < |r.data| ==> r.data[i] in table
    ensures r.Panic? ==>
      && column < w
      && r.colorIndex == idx(column, y) >= |table|
      && forall xx: nat :: xx < column ==> idx(xx, y) < |table|
  {
    column := 0;
    var row: seq<u32> := [];
    var x := 0;
    while x < w
      invariant x <= w
      invariant |row| == x
      invariant forall xx: nat :: xx < x ==> idx(xx, y) < |table| && row[xx] == table[idx(xx, y)]
      invariant forall i :: 0 <= i < |row| ==> row[i] in table
    {
      var colorIndex := idx(x, y);
      if colorIndex >= |table| {
        return Panic(colorIndex), x;
      }
      row := row + [table[colorIndex]];
      x := x + 1;
    }
    r := Buffer(row);
  }

  /** Appending row `y` to the first `y` rows gives the first `y + 1` rows. */
  lemma AppendRow(w: nat, table: seq<u32>, idx: (nat, nat) --> u32, prev: seq<u32>, row: seq<u32>, y: nat)
    requires Defined(w, idx)
    requires RowsFilled(w, table, idx, prev, y)
    requires |row| == w
    requires forall x: nat :: x < w ==> idx(x, y) < |table| && row[x] == table[idx(x, y)]
    ensures RowsFilled(w, table, idx, prev + row, y + 1)
  {
    var data := prev + row;
    forall yy: nat, xx: nat | yy < y + 1 && xx < w
      ensures idx(xx, yy) < |table|
      ensures yy * w + xx < |data|
      ensures data[yy * w + xx] == table[idx(xx, yy)]
    {
      if yy < y {
        RowMajorBelow(w, yy, xx, y);
      } else {
        assert yy * w + xx == |prev| + xx;
      }
    }
    assert |data| == (y + 1) * w;
  }

  /** A buffer holding all `h` rows shows the whole frame. */
  lemma FilledShows(w: nat, h: nat, table: seq<u32>, idx: (nat, nat) --> u32, data: seq<u32>)
    requires Defined(w, idx)
    requires RowsFilled(w, table, idx, data, h)
    ensures |data| == w * h
    ensures AllInTable(w, h, table, idx)
    ensures Shows(w, h, table, idx, data)
  {
  }

  /** The row-major build of `update` over an arbitrary index function: rows
      outer, columns inner, one colour pushed per pixel, and a panic at the
      first lookup outside the table. */
  method BuildFrame(w: nat, h: nat, table: seq<u32>, idx: (nat, nat) --> u32) returns (r: UpdateResult)
    requires Defined(w, idx)
    ensures r.Buffer? <==> AllInTable(w, h, table, idx)
    ensures r.Buffer? ==> |r.data| == w * h
    ensures r.Buffer? ==> Shows(w, h, table, idx, r.data)
    ensures r.Buffer? ==> forall i :: 0 <= i < |r.data| ==> r.data[i] in table
    ensures r.Panic? ==> exists y: nat, x: nat :: FirstMiss(w, h, table, idx, x, y) && r.colorIndex == idx(x, y)
  {
    var data: seq<u32> := [];
    var y := 0;
    while y < h
      invariant y <= h
      invariant RowsFilled(w, table, idx, data, y)
      invariant forall i :: 0 <= i < |data| ==> data[i] in table
    {
      var row, column := BuildRow(w, table, idx, y);
      if row.Panic? {
        assert FirstMiss(w, h, table, idx, column, y);
        return Panic(row.colorIndex);
      }
      AppendRow(w, table, idx, data, row.data, y);
      data := data + row.data;
      y := y + 1;
    }
    FilledShows(w, h, table, idx, data);
    r := Buffer(data);
  }

  /** `update`: the row-major build with each pixel's escape index, scales and
      orbit as above. */
  method Update(m: Mandelbrot, escapes: EscapeOracle, f: Frame) returns (r: UpdateResult)
    requires m.iterations >= 1
    ensures r.Buffer? <==> AllInTable(m.width, m.height, m.colors, IndexOf(m, escapes, f))
    ensures r.Buffer? ==> |r.data| == m.width * m.height
    ensures r.Buffer? ==> Shows(m.width, m.height, m.colors, IndexOf(m, escapes, f), r.data)
    ensures r.Buffer? ==> forall i :: 0 <= i < |r.data| ==> r.data[i] in m.colors
    ensures r.Panic? ==> exists y: nat, x: nat ::
      FirstMiss(m.width, m.height, m.colors, IndexOf(m, escapes, f), x, y)
      && r.colorIndex == IndexOf(m, escapes, f)(x, y)
    ensures |m.colors| >= m.iterations ==> r.Buffer?
  {
    if |m.colors| >= m.iterations {
      TableCoversBudget(m, escapes, f);
    }
    r := BuildFrame(m.width, m.height, m.colors, IndexOf(m, escapes, f));
  }
}
