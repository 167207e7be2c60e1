/**
 * Frame geometry of the GIF maker (pymerdoc/gm.py, normalize_images):
 * the common canvas, the aspect-preserving scale of each frame, and the
 * offsets that centre the scaled frame on the canvas.
 *
 * The source computes the scale with floating-point ratios and truncates
 * with int(); this module works in exact rational arithmetic by
 * cross-multiplication, so every quantity is an integer.
 */
module Geometry {

  /** Width and height of a decoded frame, in pixels. */
  datatype Size = Size(width: nat, height: nat)

  /** A colour as the red, green and blue components of a tuple. */
  datatype Rgb = Rgb(r: int, g: int, b: int)

  /**
   * One normalized frame: a canvas of size `canvas` filled with
   * `background`, with the frame of size `source` resized to Scaled() and
   * pasted with its top-left corner at (Left(), Top()).
   */
  datatype Frame = Frame(canvas: Size, background: Rgb, source: Size)
  {
    function Scaled(): Size
      requires Positive(source)
    {
      ScaledSize(source, canvas)
    }

    /**
     * The paste column: the scaled frame lies inside the canvas
     * horizontally, and the right margin equals the left one or is one
     * pixel wider.
     */
    function Left(): (l: int)
      requires Positive(source)
      ensures 0 <= l && l + Scaled().width <= canvas.width
      ensures (canvas.width - Scaled().width - l) - l in {0, 1}
    {
      Offset(canvas.width, Scaled().width)
    }

    /**
     * The paste row: the scaled frame lies inside the canvas vertically,
     * and the bottom margin equals the top one or is one pixel taller.
     */
    function Top(): (t: int)
      requires Positive(source)
      ensures 0 <= t && t + Scaled().height <= canvas.height
      ensures (canvas.height - Scaled().height - t) - t in {0, 1}
    {
      Offset(canvas.height, Scaled().height)
    }
  }

  /** A frame that can be scaled: both sides are at least one pixel. */
  predicate Positive(s: Size) {
    s.width > 0 && s.height > 0
  }

  /** `inner` fits inside `outer` on both axes. */
  predicate FitsIn(inner: Size, outer: Size) {
    inner.width <= outer.width && inner.height <= outer.height
  }

  /** The largest element of a non-empty sequence. */
  function Max(xs: seq<nat>): (m: nat)
    requires |xs| > 0
    ensures forall i :: 0 <= i < |xs| ==> xs[i] <= m
    ensures exists i :: 0 <= i < |xs| && xs[i] == m
  {
    if |xs| == 1 then xs[0]
    else
      var rest := Max(xs[1..]);
      assert forall i :: 1 <= i < |xs| ==> xs[i] == xs[1..][i - 1];
      if xs[0] >= rest then xs[0] else rest
  }

  function Widths(images: seq<Size>): (ws: seq<nat>)
    ensures |ws| == |images| && forall i :: 0 <= i < |images| ==> ws[i] == images[i].width
  {
    seq(|images|, i requires 0 <= i < |images| => images[i].width)
  }

  function Heights(images: seq<Size>): (hs: seq<nat>)
    ensures |hs| == |images| && forall i :: 0 <= i < |images| ==> hs[i] == images[i].height
  {
    seq(|images|, i requires 0 <= i < |images| => images[i].height)
  }

  /**
   * The common canvas: the largest width and the largest height over all
   * frames, taken independently per axis. Every frame fits in it, and
   * each side is reached by some frame.
   */
  function Canvas(images: seq<Size>): (c: Size)
    requires |images| > 0
    ensures forall i :: 0 <= i < |images| ==> FitsIn(images[i], c)
    ensures exists i :: 0 <= i < |images| && images[i].width == c.width
    ensures exists i :: 0 <= i < |images| && images[i].height == c.height
  {
    var ws, hs := Widths(images), Heights(images);
    var c := Size(Max(ws), Max(hs));
    assert exists i :: 0 <= i < |ws| && ws[i] == c.width;
    assert exists i :: 0 <= i < |hs| && hs[i] == c.height;
    c
  }

  /**
   * The product a * b, by repeated addition. Written recursively so that
   * the solver unfolds it only on demand; MulIsProduct connects it to `*`.
   */
  function Mul(a: nat, b: nat): nat
    decreases b
  {
    if b == 0 then 0 else a + Mul(a, b - 1)
  }

  /**
   * The truncated quotient n / d, by repeated subtraction (for
   * non-negative operands Python's int() of the float quotient and `//`
   * agree with it in exact arithmetic). QuotientBounds characterises it.
   */
  function Quotient(n: nat, d: nat): nat
    requires d > 0
    decreases n
  {
    if n < d then 0 else 1 + Quotient(n - d, d)
  }

  lemma {:induction false} MulIsProduct(a: nat, b: nat)
    ensures Mul(a, b) == a * b
    decreases b
  {
    if b > 0 {
      MulIsProduct(a, b - 1);
    }
  }

  /** Quotient(n, d) is the largest q with q * d <= n. */
  lemma {:induction false} QuotientBounds(n: nat, d: nat)
    requires d > 0
    ensures Quotient(n, d) * d <= n < Quotient(n, d) * d + d
    decreases n
  {
    if n >= d {
      QuotientBounds(n - d, d);
      var q := Quotient(n - d, d);
      assert Quotient(n, d) * d == q * d + d;
    }
  }

  /**
   * The size the frame is resized to: the smaller of the ratios
   * canvas.width / width and canvas.height / height is applied to both
   * sides and each product is truncated. The ratios are compared by
   * cross-multiplication; Python's min keeps the width ratio on a tie,
   * and both ratios give the same size then.
   */
  function ScaledSize(frame: Size, canvas: Size): (s: Size)
    requires Positive(frame)
    ensures FitsIn(s, canvas)
    ensures s.width == canvas.width || s.height == canvas.height
  {
    MulIsProduct(canvas.width, frame.height);
    MulIsProduct(canvas.height, frame.width);
    if Mul(canvas.width, frame.height) <= Mul(canvas.height, frame.width) then
      MulIsProduct(frame.height, canvas.width);
      QuotientAtMost(Mul(frame.height, canvas.width), frame.width, canvas.height);
      Size(canvas.width, Quotient(Mul(frame.height, canvas.width), frame.width))
    else
      MulIsProduct(frame.width, canvas.height);
      QuotientAtMost(Mul(frame.width, canvas.height), frame.height, canvas.width);
      Size(Quotient(Mul(frame.width, canvas.height), frame.height), canvas.height)
  }

  /** A quotient is at most any bound whose multiple reaches the dividend. */
  lemma QuotientAtMost(n: nat, d: nat, bound: nat)
    requires d > 0 && n <= bound * d
    ensures Quotient(n, d) <= bound
  {
    QuotientBounds(n, d);
    CancelFactor(Quotient(n, d), bound, d);
  }

  /** The width ratio is the smaller one (or they tie). */
  predicate WidthBound(frame: Size, canvas: Size) {
    canvas.width * frame.height <= canvas.height * frame.width
  }

  /** Multiplying by a positive factor keeps a strict order. */
  lemma MulStrict(a: nat, b: nat, c: nat)
    requires c > 0
    ensures a > b ==> a * c > b * c
  {
    if a > b {
      var k := a - b - 1;
      calc {
        a * c;
      == (b + 1 + k) * c;
      == b * c + c + k * c;
      >  b * c;
      }
    }
  }

  /** Multiplying by a factor keeps a weak order. */
  lemma MulMono(a: nat, b: nat, c: nat)
    ensures a <= b ==> a * c <= b * c
  {
    if a <= b {
      var k := b - a;
      assert b * c == a * c + k * c;
    }
  }

  /** A positive factor cancels from both sides of an inequality. */
  lemma CancelFactor(a: nat, b: nat, c: nat)
    requires c > 0 && a * c <= b * c
    ensures a <= b
  {
    MulStrict(a, b, c);
  }

  /**
   * The aspect ratio is kept up to truncation: along the axis with the
   * smaller ratio the scaled side equals the canvas side, and the other
   * scaled side is the largest whole number of pixels that does not
   * exceed the exact proportional length.
   */
  lemma ScaledSizeExact(frame: Size, canvas: Size)
    requires Positive(frame)
    ensures var s := ScaledSize(frame, canvas);
      (if WidthBound(frame, canvas) then
         s.width == canvas.width &&
         s.height * frame.width <= frame.height * s.width < s.height * frame.width + frame.width
       else
         s.height == canvas.height &&
         s.width * frame.height <= frame.width * s.height < s.width * frame.height + frame.height)
  {
    MulIsProduct(canvas.width, frame.height);
    MulIsProduct(canvas.height, frame.width);
    var s := ScaledSize(frame, canvas);
    if WidthBound(frame, canvas) {
      MulIsProduct(frame.height, canvas.width);
      QuotientBounds(frame.height * canvas.width, frame.width);
    } else {
      MulIsProduct(frame.width, canvas.height);
      QuotientBounds(frame.width * canvas.height, frame.height);
    }
  }

  /**
   * Offset that centres a side of length `side` on a canvas side of
   * length `canvasSide`, by floor division as Python's `//` does (for the
   * positive divisor 2, Dafny's Euclidean `/` is floor division).
   * The margin after the frame is the margin before it, or one more.
   */
  function Offset(canvasSide: int, side: int): (o: int)
    ensures 0 <= (canvasSide - side - o) - o <= 1
    ensures side <= canvasSide ==> 0 <= o && o + side <= canvasSide
  {
    (canvasSide - side) / 2
  }

  /** The frames normalize_images can process without raising. */
  predicate Normalizable(images: seq<Size>) {
    |images| > 0 && forall i :: 0 <= i < |images| ==> Positive(images[i])
  }

  /**
   * The normalized frames: one per input frame, in input order, all on the
   * common canvas and background; each frame is scaled to at least its own
   * size and, by the contracts of Scaled, Left and Top, lies inside the
   * canvas.
   */
  function Normalized(images: seq<Size>, bg: Rgb): (frames: seq<Frame>)
    requires Normalizable(images)
    ensures |frames| == |images|
    ensures forall i :: 0 <= i < |images| ==>
      frames[i].source == images[i] && frames[i].canvas == Canvas(images) && frames[i].background == bg
    ensures forall i :: 0 <= i < |images| ==> FitsIn(images[i], frames[i].Scaled())
  {
    var canvas := Canvas(images);
    AllGrow(images, canvas);
    seq(|images|, i requires 0 <= i < |images| => Frame(canvas, bg, images[i]))
  }

  /** No frame that fits the canvas is shrunk by scaling. */
  lemma AllGrow(images: seq<Size>, canvas: Size)
    requires forall i :: 0 <= i < |images| ==> Positive(images[i]) && FitsIn(images[i], canvas)
    ensures forall i :: 0 <= i < |images| ==> FitsIn(images[i], ScaledSize(images[i], canvas))
  {
    forall i | 0 <= i < |images| ensures FitsIn(images[i], ScaledSize(images[i], canvas)) {
      NeverShrinks(images[i], canvas);
    }
  }

  /**
   * The truncated side of an enlarged frame is not shorter than the
   * original: with q the largest whole number such that q * w <= h * W,
   * and w <= W, we get h <= q.
   */
  lemma TruncatedSideGrows(w: nat, h: nat, canvasW: nat, q: nat)
    requires 0 < w <= canvasW
    requires q * w <= h * canvasW < q * w + w
    ensures h <= q
  {
    MulMono(w, canvasW, h);
    MulMono(q + 1, h, w);
    assert (q + 1) * w == q * w + w;
    assert h * w == w * h && h * canvasW == canvasW * h;
  }

  /**
   * Frames are enlarged, never shrunk: every frame fits in the canvas, so
   * both ratios are at least one and the scaled size is at least the
   * original size on both axes.
   */
  lemma NeverShrinks(frame: Size, canvas: Size)
    requires Positive(frame) && FitsIn(frame, canvas)
    ensures FitsIn(frame, ScaledSize(frame, canvas))
  {
    ScaledSizeExact(frame, canvas);
    var s := ScaledSize(frame, canvas);
    if WidthBound(frame, canvas) {
      TruncatedSideGrows(frame.width, frame.height, canvas.width, s.height);
    } else {
      TruncatedSideGrows(frame.height, frame.width, canvas.height, s.width);
    }
  }

  /** A single frame is its own canvas: no scaling and no offset. */
  lemma SingleFrameUnchanged(frame: Size, bg: Rgb)
    requires Positive(frame)
    ensures Normalized([frame], bg) == [Frame(frame, bg, frame)]
    ensures var f := Frame(frame, bg, frame); f.Scaled() == frame && f.Left() == 0 && f.Top() == 0
  {
    var c := Canvas([frame]);
    assert c == frame;
    NeverShrinks(frame, frame);
  }

  /** The two frames of the example below share a 100x120 canvas. */
  lemma TwoFrameCanvas(a: Size, b: Size, bg: Rgb)
    requires a == Size(100, 50) && b == Size(60, 120)
    ensures Normalized([a, b], bg) == [Frame(Size(100, 120), bg, a), Frame(Size(100, 120), bg, b)]
  {
    var images := [a, b];
    assert Canvas(images) == Size(100, 120) by {
      assert Widths(images) == [100, 60] && Heights(images) == [50, 120];
    }
  }

  /** Each frame of the example below already touches the canvas on one side, so it keeps its size. */
  lemma ExampleFrameKept(frame: Size, canvas: Size)
    requires frame == Size(100, 50) || frame == Size(60, 120)
    requires canvas == Size(100, 120)
    ensures ScaledSize(frame, canvas) == frame
  {
    ScaledSizeExact(frame, canvas);
  }

  /**
   * Two frames 100x50 and 60x120 share a 100x120 canvas; both keep their
   * size, the first is centred vertically (top 35), the second
   * horizontally (left 20).
   */
  lemma TwoFrameExample(a: Size, b: Size, bg: Rgb)
    requires a == Size(100, 50) && b == Size(60, 120)
    ensures var fs := Normalized([a, b], bg);
      fs == [Frame(Size(100, 120), bg, a), Frame(Size(100, 120), bg, b)] &&
      fs[0].Scaled() == a && fs[0].Left() == 0 && fs[0].Top() == 35 &&
      fs[1].Scaled() == b && fs[1].Left() == 20 && fs[1].Top() == 0
  {
    TwoFrameCanvas(a, b, bg);
    ExampleFrameKept(a, Size(100, 120));
    ExampleFrameKept(b, Size(100, 120));
  }
}
