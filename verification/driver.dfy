/**
 The page driver of www/src/main.ts: the canvas size derived from the plane
 window, the colour table painted from a gradient, the fail-fast start-up,
 and the animation loop that renders one frame per tick with a growing power.

 Host facilities are parameters: whether the DOM lookups succeed, and the
 colour the browser's gradient rasteriser paints into each column of the
 colour-table canvas. JavaScript numbers are read as exact reals.
 */
module Driver {
  import opened Pixels
  import opened Fractal

  const Iterations: u32 := 64
  const Threshold: real := 2.0

  const RangeX: (real, real) := (-2.0, 1.0)
  const RangeXWidth: real := RangeX.1 - RangeX.0

  const RangeY: (real, real) := (-1.5, 1.5)
  const RangeYWidth: real := RangeY.1 - RangeY.0

  /** Pixels per unit of the plane. */
  const Scale: real := 256.0

  const CanvasWidth: real := RangeXWidth * Scale
  const CanvasHeight: real := RangeYWidth * Scale

  /** ECMAScript ToUint32, the conversion a number undergoes when it is passed
      as a `u32` to the evaluator: truncate towards zero, then wrap modulo 2^32. */
  function ToUint32(v: real): (r: u32)
    ensures v == v.Floor as real && 0.0 <= v < 4294967296.0 ==> r == v.Floor
    ensures v == v.Floor as real && -4294967296.0 < v < 0.0 ==> r == v.Floor + 0x1_0000_0000
    ensures (r - Truncate(v)) % 0x1_0000_0000 == 0
  {
    Truncate(v) % 0x1_0000_0000
  }

  /** Rounding towards zero. */
  function Truncate(v: real): (t: int)
    ensures 0.0 <= v ==> 0 <= t && t as real <= v < t as real + 1.0
    ensures v < 0.0 ==> t <= 0 && t as real - 1.0 < v <= t as real
  {
    if v >= 0.0 then v.Floor else -((-v).Floor)
  }

  /** The plane window [-2, 1] x [-1.5, 1.5] at 256 pixels per unit is a
      768 x 768 canvas, and the evaluator receives exactly those sizes. */
  lemma CanvasIs768Square()
    ensures CanvasWidth == 768.0 && CanvasHeight == 768.0
    ensures ToUint32(CanvasWidth) == 768 && ToUint32(CanvasHeight) == 768
  {
  }

  /** `computeColors(width)`: paint the gradient on a `width` x 1 canvas and read
      its pixels back through a `Uint32Array`. `paint(i)` is the colour the
      browser rasterises into column `i`. */
  function ComputeColors(width: nat, paint: nat -> Rgba): (colors: seq<u32>)
    ensures |colors| == width
    ensures forall i :: 0 <= i < width ==> Unpack(colors[i]) == paint(i)
  {
    WordView(seq(width, i requires 0 <= i < width => paint(i)))
  }

  /** The copy loop of `render`: word `index` of the frame buffer goes to word
      `index` of the image data. A typed-array store past the end is ignored. */
  method CopyFrame(argb: seq<u32>, buffer: seq<u32>) returns (out: seq<u32>)
    ensures |out| == |argb|
    ensures forall i :: 0 <= i < |out| && i < |buffer| ==> out[i] == buffer[i]
    ensures forall i :: |buffer| <= i < |out| ==> out[i] == argb[i]
  {
    out := argb;
    var index := 0;
    while index < |buffer|
      invariant index <= |buffer|
      invariant |out| == |argb|
      invariant forall i :: 0 <= i < |out| && i < index ==> out[i] == buffer[i]
      invariant forall i :: index <= i < |out| ==> out[i] == argb[i]
    {
      if index < |out| {
        out := out[index := buffer[index]];
      }
      index := index + 1;
    }
  }

  /** The power the first frame is rendered with (the default of `render`). */
  const FirstPower: real := 1.0

  /** Each frame schedules the next one with `power + 0.1`, read as an exact real. */
  function NextPower(power: real): (next: real)
    ensures next > power
    ensures next - power == 1.0 / 10.0
  {
    power + 0.1
  }

  /** The power frame `k` is rendered with. */
  function PowerAt(k: nat): (power: real)
    ensures power >= FirstPower
  {
    if k == 0 then FirstPower else NextPower(PowerAt(k - 1))
  }

  /** Frame `k` uses power 1 + k/10. */
  lemma {:induction false} PowerClosedForm(k: nat)
    ensures PowerAt(k) == 1.0 + (k as real) / 10.0
  {
    if k > 0 {
      PowerClosedForm(k - 1);
    }
  }

  /** The power grows strictly from frame to frame, without bound or reset. */
  lemma PowerIncreasing(j: nat, k: nat)
    requires j < k
    ensures PowerAt(j) < PowerAt(k)
  {
    PowerClosedForm(j);
    PowerClosedForm(k);
  }

  /** The arguments `render` passes to `update` for a given power. */
  function DriverFrame(power: real): (f: Frame)
    ensures f.rangeX.start == -2.0 && f.rangeX.end == 1.0
    ensures f.rangeY.start == -1.5 && f.rangeY.end == 1.5
    ensures f.power == power
  {
    Frame(NewRange(RangeX.0, RangeX.1), NewRange(RangeY.0, RangeY.1), power)
  }

  /** On this page the canvas is square, so scaling the vertical axis by the
      width still places every row of the canvas inside [-1.5, 1.5). */
  lemma SquareCanvasHidesVerticalScale(power: real, y: nat)
    ensures -1.5 <= PlaneCoord(DriverFrame(power).rangeY, 768, y) < 1.5 <==> y < 768
  {
    PlaneCoordInRange(DriverFrame(power).rangeY, 768, y);
  }

  /** The state the animation carries from tick to tick: the evaluator and the
      words of the canvas image data. */
  datatype App = App(mandelbrot: Mandelbrot, argb: seq<u32>)

  /** Why start-up stops before any frame is rendered. */
  datatype StartupError =
    | CanvasNotFound          // "Can't get canvas element"
    | ContextUnavailable      // "Can't get canvas 2D context"
    | ColorContextUnavailable // the unchecked 2D context of `computeColors` is null

  datatype Startup = Running(app: App) | Halted(error: StartupError)

  /** `main`: look up the canvas, size it, get its 2D context, build the colour
      table and the evaluator, and allocate the image data, failing fast at
      the first missing piece. */
  function Start(canvasFound: bool, contextFound: bool, colorContextFound: bool, paint: nat -> Rgba): (s: Startup)
    ensures s.Running? <==> canvasFound && contextFound && colorContextFound
    ensures !canvasFound ==> s == Halted(CanvasNotFound)
    ensures canvasFound && !contextFound ==> s == Halted(ContextUnavailable)
    ensures canvasFound && contextFound && !colorContextFound ==> s == Halted(ColorContextUnavailable)
    ensures s.Running? ==>
      && s.app.mandelbrot.width == 768 && s.app.mandelbrot.height == 768
      && s.app.mandelbrot.iterations == Iterations && s.app.mandelbrot.threshold == Threshold
      && |s.app.mandelbrot.colors| == s.app.mandelbrot.iterations
      && |s.app.argb| == s.app.mandelbrot.width * s.app.mandelbrot.height
    ensures s.Running? ==> forall i :: 0 <= i < Iterations ==> Unpack(s.app.mandelbrot.colors[i]) == paint(i)
    ensures s.Running? ==> forall i :: 0 <= i < |s.app.argb| ==> Unpack(s.app.argb[i]) == Rgba(0, 0, 0, 0)
  {
    if !canvasFound then Halted(CanvasNotFound)
    else if !contextFound then Halted(ContextUnavailable)
    else if !colorContextFound then Halted(ColorContextUnavailable)
    else
      var width := ToUint32(CanvasWidth);
      var height := ToUint32(CanvasHeight);
      var colors := ComputeColors(Iterations, paint);
      var mandelbrot := NewMandelbrot(width, height, Iterations, Threshold, colors);
      var imageData := seq(width * height, _ => Rgba(0, 0, 0, 0));
      Running(App(mandelbrot, WordView(imageData)))
  }

  /** Every lookup of the frame rendered with `power` hits the colour table. */
  ghost predicate FrameHits(m: Mandelbrot, escapes: EscapeOracle, power: real)
    requires m.iterations >= 1
  {
    AllInTable(m.width, m.height, m.colors, IndexOf(m, escapes, DriverFrame(power)))
  }

  /** The colour table and the evaluator are both sized by `Iterations`, so no
      frame of a started page can panic, whatever the orbits and the power. */
  lemma StartedNeverPanics(canvasFound: bool, contextFound: bool, colorContextFound: bool, paint: nat -> Rgba,
                           escapes: EscapeOracle, power: real)
    requires Start(canvasFound, contextFound, colorContextFound, paint).Running?
    ensures var m := Start(canvasFound, contextFound, colorContextFound, paint).app.mandelbrot;
      m.iterations >= 1 && FrameHits(m, escapes, power)
  {
    var m := Start(canvasFound, contextFound, colorContextFound, paint).app.mandelbrot;
    TableCoversBudget(m, escapes, DriverFrame(power));
  }

  /** What one tick leaves behind: the new image and the next power, or the
      evaluator's panic, which ends the animation. */
  datatype Tick = Shown(app: App, nextPower: real) | Crashed(colorIndex: u32)

  /** A copy that agrees with a full frame buffer wherever both have a word
      shows that frame wherever the image data has room for it. */
  lemma CopyShows(m: Mandelbrot, idx: (nat, nat) --> u32, buffer: seq<u32>, out: seq<u32>)
    requires Defined(m.width, idx)
    requires |buffer| == m.width * m.height
    requires Shows(m.width, m.height, m.colors, idx, buffer)
    requires forall i :: 0 <= i < |out| && i < |buffer| ==> out[i] == buffer[i]
    ensures Shows(m.width, m.height, m.colors, idx, out)
  {
    forall y: nat, x: nat | y < m.height && x < m.width && y * m.width + x < |out|
      ensures idx(x, y) < |m.colors| && out[y * m.width + x] == m.colors[idx(x, y)]
    {
      RowMajorBelow(m.width, y, x, m.height);
      assert y * m.width + x < |buffer|;
    }
  }

  /** `render`: evaluate the frame, copy it into the image data, and schedule
      the next frame with the next power. */
  method Render(app: App, escapes: EscapeOracle, power: real) returns (t: Tick)
    requires app.mandelbrot.iterations >= 1
    ensures t.Shown? <==> FrameHits(app.mandelbrot, escapes, power)
    ensures t.Shown? ==> t.app.mandelbrot == app.mandelbrot && t.nextPower == NextPower(power)
    ensures t.Shown? ==> |t.app.argb| == |app.argb|
    ensures t.Shown? ==> var m := app.mandelbrot;
      Shows(m.width, m.height, m.colors, IndexOf(m, escapes, DriverFrame(power)), t.app.argb)
    ensures t.Shown? ==> forall i :: app.mandelbrot.width * app.mandelbrot.height <= i < |app.argb| ==> t.app.argb[i] == app.argb[i]
    ensures t.Crashed? ==> var m := app.mandelbrot; exists y: nat, x: nat ::
      FirstMiss(m.width, m.height, m.colors, IndexOf(m, escapes, DriverFrame(power)), x, y)
      && t.colorIndex == PixelIndex(m, escapes, DriverFrame(power), x, y)
  {
    var buffer := Update(app.mandelbrot, escapes, DriverFrame(power));
    if buffer.Panic? {
      return Crashed(buffer.colorIndex);
    }
    var argb := CopyFrame(app.argb, buffer.data);
    CopyShows(app.mandelbrot, IndexOf(app.mandelbrot, escapes, DriverFrame(power)), buffer.data, argb);
    t := Shown(App(app.mandelbrot, argb), NextPower(power));
  }

  /** The first `frames` ticks of the animation: tick k renders with
      `PowerAt(k)`, no tick is skipped or repeated, and a panic ends the loop
      with the last shown image left in place. */
  method Animate(app: App, escapes: EscapeOracle, frames: nat) returns (powers: seq<real>, last: App, halted: bool)
    requires app.mandelbrot.iterations >= 1
    ensures |powers| <= frames
    ensures forall k :: 0 <= k < |powers| ==> powers[k] == PowerAt(k)
    ensures halted <==> |powers| < frames
    ensures forall k :: 0 <= k < |powers| ==> FrameHits(app.mandelbrot, escapes, PowerAt(k))
    ensures halted ==> !FrameHits(app.mandelbrot, escapes, PowerAt(|powers|))
    ensures last.mandelbrot == app.mandelbrot && |last.argb| == |app.argb|
    ensures |powers| == 0 ==> last == app
    ensures var m := app.mandelbrot;
      |powers| > 0 ==> Shows(m.width, m.height, m.colors, IndexOf(m, escapes, DriverFrame(PowerAt(|powers| - 1))), last.argb)
  {
    var m := app.mandelbrot;
    powers := [];
    last := app;
    halted := false;
    var power := FirstPower;
    while |powers| < frames
      invariant |powers| <= frames
      invariant power == PowerAt(|powers|)
      invariant forall k :: 0 <= k < |powers| ==> powers[k] == PowerAt(k)
      invariant forall k :: 0 <= k < |powers| ==> FrameHits(m, escapes, PowerAt(k))
      invariant last.mandelbrot == m && |last.argb| == |app.argb|
      invariant |powers| == 0 ==> last == app
      invariant |powers| > 0 ==> Shows(m.width, m.height, m.colors, IndexOf(m, escapes, DriverFrame(PowerAt(|powers| - 1))), last.argb)
      decreases frames - |powers|
    {
      var t := Render(last, escapes, power);
      if t.Crashed? {
        halted := true;
        return;
      }
      powers := powers + [power];
      last := t.app;
      power := t.nextPower;
    }
  }

  /** Every pixel (x, y) of `image` that exists, at y * w + x, carries the
      gradient colour of column `idx(x, y)`. */
  ghost predicate Displays(w: nat, h: nat, paint: nat -> Rgba, idx: (nat, nat) --> u32, image: seq<Rgba>)
    requires Defined(w, idx)
  {
    forall y: nat, x: nat :: y < h && x < w && y * w + x < |image| ==> image[y * w + x] == paint(idx(x, y))
  }

  /** The pixel at row `y`, column `x` of a frame whose words `argb` show it
      is the gradient colour of column `PixelIndex` of the colour-table canvas. */
  lemma ShownPixelIsPainted(m: Mandelbrot, paint: nat -> Rgba, escapes: EscapeOracle, power: real, argb: seq<u32>, x: nat, y: nat)
    requires m.iterations >= 1
    requires |m.colors| == m.iterations
    requires forall i :: 0 <= i < m.iterations ==> Unpack(m.colors[i]) == paint(i)
    requires |argb| == m.width * m.height
    requires Shows(m.width, m.height, m.colors, IndexOf(m, escapes, DriverFrame(power)), argb)
    requires y < m.height && x < m.width
    ensures y * m.width + x < |argb|
    ensures TexelView(argb)[y * m.width + x] == paint(IndexOf(m, escapes, DriverFrame(power))(x, y))
  {
    RowMajorBelow(m.width, y, x, m.height);
    var idx := IndexOf(m, escapes, DriverFrame(power));
    var k := idx(x, y);
    assert argb[y * m.width + x] == m.colors[k];
    PackUnpack(argb[y * m.width + x]);
  }

  /** The whole page: start up, then run `frames` ticks. A page that starts
      never halts; every tick renders with the next power; and after the last
      tick the canvas pixel at (x, y) carries the gradient colour selected by
      that pixel's escape index. */
  method Page(canvasFound: bool, contextFound: bool, colorContextFound: bool, paint: nat -> Rgba,
              escapes: EscapeOracle, frames: nat)
    returns (s: Startup, powers: seq<real>, image: seq<Rgba>)
    ensures s == Start(canvasFound, contextFound, colorContextFound, paint)
    ensures s.Halted? ==> powers == [] && image == []
    ensures s.Running? ==> |powers| == frames && forall k :: 0 <= k < frames ==> powers[k] == PowerAt(k)
    ensures s.Running? ==> |image| == 768 * 768
    ensures s.Running? && frames > 0 ==> var m := s.app.mandelbrot;
      Displays(m.width, m.height, paint, IndexOf(m, escapes, DriverFrame(PowerAt(frames - 1))), image)
  {
    s := Start(canvasFound, contextFound, colorContextFound, paint);
    if s.Halted? {
      return s, [], [];
    }
    var m := s.app.mandelbrot;
    var last, halted;
    powers, last, halted := Animate(s.app, escapes, frames);
    StartedNeverPanics(canvasFound, contextFound, colorContextFound, paint, escapes, PowerAt(|powers|));
    assert !halted;
    image := TexelView(last.argb);
    if frames > 0 {
      var idx := IndexOf(m, escapes, DriverFrame(PowerAt(frames - 1)));
      forall y: nat, x: nat | y < m.height && x < m.width && y * m.width + x < |image|
        ensures image[y * m.width + x] == paint(idx(x, y))
      {
        ShownPixelIsPainted(m, paint, escapes, PowerAt(frames - 1), last.argb, x, y);
      }
    }
  }
}
