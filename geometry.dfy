/** Coordinate arithmetic of the page selector: fitting a rendered page to
    the screen, mapping a selection drawn in display coordinates back to
    page pixels, and rescaling a pixel box into the 595 x 842 reference
    frame. Python floats are modelled as exact reals. */
module Geometry {

  /** The pixel size of an image: a rendered page, a display image, the screen. */
  datatype Size = Size(width: nat, height: nat)

  /** A pointer position in display (canvas) coordinates. */
  datatype Point = Point(x: real, y: real)

  /** An integer box in page pixels, in (left, top, right, bottom) order. */
  datatype Box = Box(left: int, top: int, right: int, bottom: int)

  /** A box in the reference frame; its edges are not truncated. */
  datatype RefBox = RefBox(left: real, top: real, right: real, bottom: real)

  /** Width and height of the reference frame (an A4 page in points). */
  const RefWidth: nat := 595
  const RefHeight: nat := 842

  predicate Positive(s: Size) { s.width > 0 && s.height > 0 }

  /** Python's min and max on two numbers. */
  function Min(a: real, b: real): real { if b < a then b else a }
  function Max(a: real, b: real): real { if b > a then b else a }

  function Abs(a: real): real { if a < 0.0 then -a else a }

  // ---------------------------------------------------------------------
  // Truncation toward zero

  /** Python's int() on a float: truncation toward zero, which differs from
      .Floor on negative arguments. */
  function Trunc(r: real): (n: int)
    ensures 0.0 <= r ==> 0 <= n && n as real <= r < n as real + 1.0
    ensures r < 0.0 ==> n <= 0 && n as real - 1.0 < r <= n as real
  {
    if r >= 0.0 then r.Floor else -((-r).Floor)
  }

  /** Truncation is odd, which floor is not. */
  lemma TruncOdd(r: real)
    ensures Trunc(-r) == -Trunc(r)
  {
  }

  lemma TruncMonotone(a: real, b: real)
    requires a <= b
    ensures Trunc(a) <= Trunc(b)
  {
  }

  lemma TruncOfInt(n: int)
    ensures Trunc(n as real) == n
  {
  }

  /** On a non-negative quotient, truncation is integer division. */
  lemma TruncOfQuotient(a: nat, b: nat)
    requires 0 < b
    ensures Trunc(a as real / b as real) == a / b
  {
    var q, r := a / b, a % b;
    assert a == q * b + r;
    assert a as real == q as real * b as real + r as real;
    assert a as real / b as real == q as real + r as real / b as real;
    assert 0.0 <= r as real / b as real < 1.0;
  }

  // ---------------------------------------------------------------------
  // Scaling one coordinate

  lemma ScaleMonotone(a: real, b: real, k: real)
    requires a <= b && 0.0 <= k
    ensures a * k <= b * k
  {
  }

  /** The pixel that coordinate `c` lands on at scale `k`: Python's int(c * k). */
  function Edge(c: real, k: real): int
  {
    Trunc(c * k)
  }

  lemma EdgeMonotone(a: real, b: real, k: real)
    requires a <= b && 0.0 <= k
    ensures Edge(a, k) <= Edge(b, k)
  {
    ScaleMonotone(a, b, k);
    TruncMonotone(a * k, b * k);
  }

  /** A scaled side that fits under `bound` truncates to at most `bound`,
      and to exactly `bound` when it meets it. */
  lemma EdgeUpTo(c: real, k: real, bound: nat)
    requires 0.0 <= c * k <= bound as real
    ensures 0 <= Edge(c, k) <= bound
    ensures c * k == bound as real ==> Edge(c, k) == bound
  {
    TruncOfInt(bound);
    TruncMonotone(c * k, bound as real);
  }

  /** Scaling side `a` by n / m and truncating is the integer division a * n / m. */
  lemma EdgeOfRatio(a: nat, n: nat, m: nat)
    requires 0 < m
    ensures Edge(a as real, n as real / m as real) == a * n / m
  {
    assert a as real * (n as real / m as real) == (a * n) as real / m as real;
    TruncOfQuotient(a * n, m);
  }

  /** For positive denominators, a/b < c/d exactly when a*d < c*b. */
  lemma QuotientLess(a: nat, b: nat, c: nat, d: nat)
    requires 0 < b && 0 < d
    ensures (a as real / b as real < c as real / d as real) <==> a * d < c * b
  {
    var x, y := a as real / b as real, c as real / d as real;
    assert x * (b as real * d as real) == a as real * d as real;
    assert y * (b as real * d as real) == c as real * b as real;
    assert (a * d) as real == a as real * d as real;
    assert (c * b) as real == c as real * b as real;
    assert 0.0 < b as real * d as real;
  }

  // ---------------------------------------------------------------------
  // Fitting a page to the screen

  /** The uniform scale that fits `image` on `screen`: it keeps both sides
      within the screen and fills the screen on at least one axis. */
  function FitScale(image: Size, screen: Size): (s: real)
    requires Positive(image) && Positive(screen)
    ensures 0.0 < s
    ensures image.width as real * s <= screen.width as real
    ensures image.height as real * s <= screen.height as real
    ensures image.width as real * s == screen.width as real
         || image.height as real * s == screen.height as real
  {
    var sx := screen.width as real / image.width as real;
    var sy := screen.height as real / image.height as real;
    assert image.width as real * sx == screen.width as real;
    assert image.height as real * sy == screen.height as real;
    if sy < sx then
      assert image.width as real * sy <= image.width as real * sx;
      sy
    else
      assert image.height as real * sx <= image.height as real * sy;
      sx
  }

  /** No scale larger than FitScale keeps the image on the screen. */
  lemma FitScaleIsLargest(image: Size, screen: Size, t: real)
    requires Positive(image) && Positive(screen)
    requires image.width as real * t <= screen.width as real
    requires image.height as real * t <= screen.height as real
    ensures t <= FitScale(image, screen)
  {
    var s := FitScale(image, screen);
    if image.width as real * s == screen.width as real {
      assert image.width as real * t <= image.width as real * s;
    } else {
      assert image.height as real * t <= image.height as real * s;
    }
  }

  /** FitScale is the width ratio exactly when the page is, relative to
      the screen, at least as wide as it is high. */
  lemma FitScaleChoice(image: Size, screen: Size)
    requires Positive(image) && Positive(screen)
    ensures FitScale(image, screen) ==
      if screen.width * image.height <= screen.height * image.width
      then screen.width as real / image.width as real
      else screen.height as real / image.height as real
  {
    QuotientLess(screen.height, image.height, screen.width, image.width);
  }

  /** The integer size of the display image: each side scaled by FitScale
      and truncated. It never overflows the screen and fills one axis. */
  function FitSize(image: Size, screen: Size): (d: Size)
    requires Positive(image) && Positive(screen)
    ensures d.width <= screen.width && d.height <= screen.height
    ensures d.width == screen.width || d.height == screen.height
  {
    var s := FitScale(image, screen);
    EdgeUpTo(image.width as real, s, screen.width);
    EdgeUpTo(image.height as real, s, screen.height);
    Size(Edge(image.width as real, s), Edge(image.height as real, s))
  }

  /** An integer-only reference for FitSize: the limiting side becomes the
      screen side and the other is scaled with integer division. */
  lemma FitSizeExact(image: Size, screen: Size)
    requires Positive(image) && Positive(screen)
    ensures FitSize(image, screen) ==
      if screen.width * image.height <= screen.height * image.width
      then Size(screen.width, image.height * screen.width / image.width)
      else Size(image.width * screen.height / image.height, screen.height)
  {
    if screen.width * image.height <= screen.height * image.width {
      FitWidthLimited(image, screen);
    } else {
      FitHeightLimited(image, screen);
    }
  }

  lemma FitWidthLimited(image: Size, screen: Size)
    requires Positive(image) && Positive(screen)
    requires screen.width * image.height <= screen.height * image.width
    ensures FitSize(image, screen) == Size(screen.width, image.height * screen.width / image.width)
  {
    var iw, ih, sw := image.width, image.height, screen.width;
    var sx := sw as real / iw as real;
    assert FitSize(image, screen) == Size(Edge(iw as real, sx), Edge(ih as real, sx)) by {
      FitScaleChoice(image, screen);
    }
    assert Edge(iw as real, sx) == sw by {
      EdgeOfRatio(iw, sw, iw);
      assert iw * sw / iw == sw;
    }
    assert Edge(ih as real, sx) == ih * sw / iw by {
      EdgeOfRatio(ih, sw, iw);
    }
  }

  lemma FitHeightLimited(image: Size, screen: Size)
    requires Positive(image) && Positive(screen)
    requires screen.height * image.width < screen.width * image.height
    ensures FitSize(image, screen) == Size(image.width * screen.height / image.height, screen.height)
  {
    var iw, ih, sh := image.width, image.height, screen.height;
    var sy := sh as real / ih as real;
    assert FitSize(image, screen) == Size(Edge(iw as real, sy), Edge(ih as real, sy)) by {
      FitScaleChoice(image, screen);
    }
    assert Edge(ih as real, sy) == sh by {
      EdgeOfRatio(ih, sh, ih);
      assert ih * sh / ih == sh;
    }
    assert Edge(iw as real, sy) == iw * sh / ih by {
      EdgeOfRatio(iw, sh, ih);
    }
  }

  /** The display image keeps the page's aspect ratio up to truncation: the
      cross products w * H and h * W differ by less than one page side. */
  lemma FitKeepsAspect(image: Size, screen: Size)
    requires Positive(image) && Positive(screen)
    ensures var d := FitSize(image, screen);
      -(image.height as int) < d.width * image.height - d.height * image.width < image.width as int
  {
    var iw: int, ih: int, sw: int, sh: int := image.width, image.height, screen.width, screen.height;
    FitSizeExact(image, screen);
    if sw * ih <= sh * iw {
      var h := ih * sw / iw;
      assert ih * sw == h * iw + (ih * sw) % iw;
      assert sw * ih - h * iw == (ih * sw) % iw;
    } else {
      var w := iw * sh / ih;
      assert iw * sh == w * ih + (iw * sh) % ih;
      assert w * ih - sh * iw == -((iw * sh) % ih);
    }
  }

  // ---------------------------------------------------------------------
  // From display coordinates to page pixels

  /** The scale o / d from a display side of d pixels to a page side of o. */
  function Ratio(o: nat, d: nat): (k: real)
    requires 0 < d
    ensures 0.0 <= k
  {
    o as real / d as real
  }

  /** The page-pixel box of a selection whose corners are `start` and `cur`
      in display coordinates: each corner is scaled per axis by
      original / display, ordered with min and max, and truncated. */
  function SourceBox(start: Point, cur: Point, display: Size, original: Size): (b: Box)
    requires Positive(display)
    ensures b.left <= b.right && b.top <= b.bottom
  {
    var scaleX := Ratio(original.width, display.width);
    var scaleY := Ratio(original.height, display.height);
    EdgeMonotone(Min(start.x, cur.x), Max(start.x, cur.x), scaleX);
    EdgeMonotone(Min(start.y, cur.y), Max(start.y, cur.y), scaleY);
    Box(Edge(Min(start.x, cur.x), scaleX), Edge(Min(start.y, cur.y), scaleY),
        Edge(Max(start.x, cur.x), scaleX), Edge(Max(start.y, cur.y), scaleY))
  }

  /** The box does not depend on the direction of the drag. */
  lemma SourceBoxSymmetric(start: Point, cur: Point, display: Size, original: Size)
    requires Positive(display)
    ensures SourceBox(start, cur, display, original) == SourceBox(cur, start, display, original)
  {
    assert Min(start.x, cur.x) == Min(cur.x, start.x);
    assert Max(start.x, cur.x) == Max(cur.x, start.x);
    assert Min(start.y, cur.y) == Min(cur.y, start.y);
    assert Max(start.y, cur.y) == Max(cur.y, start.y);
  }

  /** A selection inside the display image maps to a box inside the page. */
  lemma SourceBoxWithinPage(start: Point, cur: Point, display: Size, original: Size)
    requires Positive(display)
    requires 0.0 <= start.x <= display.width as real && 0.0 <= cur.x <= display.width as real
    requires 0.0 <= start.y <= display.height as real && 0.0 <= cur.y <= display.height as real
    ensures var b := SourceBox(start, cur, display, original);
      0 <= b.left && b.right <= original.width && 0 <= b.top && b.bottom <= original.height
  {
    AxisWithinPage(Min(start.x, cur.x), display.width, original.width);
    AxisWithinPage(Max(start.x, cur.x), display.width, original.width);
    AxisWithinPage(Min(start.y, cur.y), display.height, original.height);
    AxisWithinPage(Max(start.y, cur.y), display.height, original.height);
  }

  /** One display coordinate 0 <= c <= d maps to a pixel in [0, o]. */
  lemma AxisWithinPage(c: real, d: nat, o: nat)
    requires 0 < d && 0.0 <= c <= d as real
    ensures 0 <= Edge(c, Ratio(o, d)) <= o
  {
    var k := Ratio(o, d);
    ScaleMonotone(0.0, c, k);
    ScaleMonotone(c, d as real, k);
    assert d as real * k == o as real;
    EdgeUpTo(c, k, o);
  }

  /** For a selection with non-negative corners, the width of the box is
      the horizontal drag times the axis scale, to within the one pixel that
      truncating both of its edges can lose or gain. */
  lemma SourceBoxWidth(start: Point, cur: Point, display: Size, original: Size)
    requires Positive(display)
    requires 0.0 <= start.x && 0.0 <= cur.x
    ensures var b := SourceBox(start, cur, display, original);
      var e := Abs(cur.x - start.x) * Ratio(original.width, display.width);
      e - 1.0 < (b.right - b.left) as real < e + 1.0
  {
    AxisExtent(start.x, cur.x, Ratio(original.width, display.width));
  }

  /** The same for the height and the vertical drag. */
  lemma SourceBoxHeight(start: Point, cur: Point, display: Size, original: Size)
    requires Positive(display)
    requires 0.0 <= start.y && 0.0 <= cur.y
    ensures var b := SourceBox(start, cur, display, original);
      var e := Abs(cur.y - start.y) * Ratio(original.height, display.height);
      e - 1.0 < (b.bottom - b.top) as real < e + 1.0
  {
    AxisExtent(start.y, cur.y, Ratio(original.height, display.height));
  }

  /** One axis of SourceBoxWidth and SourceBoxHeight. */
  lemma AxisExtent(a: real, b: real, k: real)
    requires 0.0 <= a && 0.0 <= b && 0.0 <= k
    ensures var e := Abs(b - a) * k;
      e - 1.0 < (Edge(Max(a, b), k) - Edge(Min(a, b), k)) as real < e + 1.0
  {
    var lo, hi := Min(a, b), Max(a, b);
    assert hi - lo == Abs(b - a);
    ScaleMonotone(0.0, lo, k);
    ScaleMonotone(lo, hi, k);
    assert (hi - lo) * k == hi * k - lo * k;
  }

  // ---------------------------------------------------------------------
  // The reference frame

  /** Pixel edge `v` of a page side of `o` pixels, rescaled to a frame side
      of `frame`: v * (frame / o). */
  function Rescale(v: int, o: nat, frame: nat): real
    requires 0 < o
  {
    v as real * (frame as real / o as real)
  }

  /** The rescaling of a page-pixel box into the reference frame, with the
      factor RefWidth / width horizontally and RefHeight / height
      vertically. A box inside the page lands inside the frame. */
  function RefFrame(b: Box, original: Size): (r: RefBox)
    requires Positive(original)
    ensures 0 <= b.left <= b.right <= original.width ==>
      0.0 <= r.left <= r.right <= RefWidth as real
    ensures 0 <= b.top <= b.bottom <= original.height ==>
      0.0 <= r.top <= r.bottom <= RefHeight as real
  {
    AxisToFrame(b.left, b.right, original.width, RefWidth);
    AxisToFrame(b.top, b.bottom, original.height, RefHeight);
    RefBox(Rescale(b.left, original.width, RefWidth), Rescale(b.top, original.height, RefHeight),
           Rescale(b.right, original.width, RefWidth), Rescale(b.bottom, original.height, RefHeight))
  }

  /** On one axis, pixel edges 0 <= lo <= hi <= o land in [0, frame]. */
  lemma AxisToFrame(lo: int, hi: int, o: nat, frame: nat)
    requires 0 < o
    ensures 0 <= lo <= hi <= o ==>
      0.0 <= Rescale(lo, o, frame) <= Rescale(hi, o, frame) <= frame as real
  {
    var k := frame as real / o as real;
    assert o as real * k == frame as real;
    if 0 <= lo <= hi <= o {
      ScaleMonotone(0.0, lo as real, k);
      ScaleMonotone(lo as real, hi as real, k);
      ScaleMonotone(hi as real, o as real, k);
    }
  }

  /** The reference box is a linear rescaling: its sides are the pixel
      sides times the same per-axis factors. */
  lemma RefFrameLinear(b: Box, original: Size)
    requires Positive(original)
    ensures var r := RefFrame(b, original);
      r.right - r.left == (b.right - b.left) as real * (RefWidth as real / original.width as real)
      && r.bottom - r.top == (b.bottom - b.top) as real * (RefHeight as real / original.height as real)
  {
  }

  /** The rescaling loses nothing: the pixel box is recovered from the
      reference box and the page size. */
  lemma RefFrameRoundTrip(b: Box, original: Size)
    requires Positive(original)
    ensures var r := RefFrame(b, original);
      var ow, oh := original.width as real, original.height as real;
      r.left * ow / RefWidth as real == b.left as real
      && r.right * ow / RefWidth as real == b.right as real
      && r.top * oh / RefHeight as real == b.top as real
      && r.bottom * oh / RefHeight as real == b.bottom as real
  {
    var ow, oh := original.width as real, original.height as real;
    var fx := RefWidth as real / ow;
    var fy := RefHeight as real / oh;
    assert fx * ow / RefWidth as real == 1.0;
    assert fy * oh / RefHeight as real == 1.0;
  }

  // ---------------------------------------------------------------------
  // A worked example

  /** A 2550 x 3300 page (letter size at 300 DPI) shown on a 1275 x 1650
      screen is halved; a drag from (100, 100) to (300, 400) selects the
      page box (200, 200)-(600, 800). */
  lemma LetterPageExample()
    ensures FitScale(Size(2550, 3300), Size(1275, 1650)) == 0.5
    ensures FitSize(Size(2550, 3300), Size(1275, 1650)) == Size(1275, 1650)
    ensures SourceBox(Point(100.0, 100.0), Point(300.0, 400.0), Size(1275, 1650), Size(2550, 3300))
         == Box(200, 200, 600, 800)
    ensures RefFrame(Box(200, 200, 600, 800), Size(2550, 3300))
         == RefBox(595.0 * 200.0 / 2550.0, 842.0 * 200.0 / 3300.0, 595.0 * 600.0 / 2550.0, 842.0 * 800.0 / 3300.0)
  {
    FitSizeExact(Size(2550, 3300), Size(1275, 1650));
    TruncOfInt(200);
    TruncOfInt(600);
    TruncOfInt(800);
  }
}
