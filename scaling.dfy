/** Fitting a page bitmap into a display box while keeping its aspect ratio.
    The ratios are exact reals here; the program computes them in floating point. */
module Scaling {
  import opened Pixmaps

  /** The outcome of a fit: the size handed to the toolkit's scaling call, or the
      division by zero raised when the bitmap has a zero side and must be scaled. */
  datatype Fit = Fitted(size: Size) | ZeroDivision

  /** The language's two-argument minimum: the first argument unless the second is smaller. */
  function Min(a: real, b: real): (m: real)
    ensures m <= a && m <= b
    ensures m == a || m == b
  {
    if b < a then b else a
  }

  /** Conversion of a real to an integer by truncation toward zero. */
  function Trunc(x: real): (n: int)
    ensures 0.0 <= x ==> 0 <= n && n as real <= x < n as real + 1.0
    ensures x < 0.0 ==> n <= 0 && n as real - 1.0 < x <= n as real
  {
    if 0.0 <= x then x.Floor else -((-x).Floor)
  }

  /** The scale factor both policies use: the smaller of the two axis ratios. */
  function MinRatio(w: nat, h: nat, maxW: int, maxH: int): (r: real)
    requires 0 < w && 0 < h
    ensures r <= maxW as real / w as real && r <= maxH as real / h as real
    ensures r == maxW as real / w as real || r == maxH as real / h as real
  {
    Min(maxW as real / w as real, maxH as real / h as real)
  }

  /** Both sides multiplied by the scale factor and truncated. */
  function ScaleBy(w: nat, h: nat, s: real): (r: Size)
    ensures 0.0 <= s ==> 0 <= r.width && r.width as real <= w as real * s < r.width as real + 1.0
    ensures 0.0 <= s ==> 0 <= r.height && r.height as real <= h as real * s < r.height as real + 1.0
  {
    Size(Trunc(w as real * s), Trunc(h as real * s))
  }

  /** The main view's policy: an image that already fits is returned as it is;
      otherwise it is shrunk by the minimum ratio. */
  function FitShrinkOnly(w: nat, h: nat, maxW: int, maxH: int): (r: Fit)
    ensures r.ZeroDivision? <==> !(w <= maxW && h <= maxH) && (w == 0 || h == 0)
    ensures w <= maxW && h <= maxH ==> r == Fitted(Size(w, h))
    ensures !(w <= maxW && h <= maxH) ==> r == FitExact(w, h, maxW, maxH)
  {
    if w <= maxW && h <= maxH then Fitted(Size(w, h))
    else if w == 0 || h == 0 then ZeroDivision
    else Fitted(ScaleBy(w, h, MinRatio(w, h, maxW, maxH)))
  }

  /** The presenter view's policy: the minimum ratio is always applied, so a small
      image is enlarged to fill the box. */
  function FitExact(w: nat, h: nat, maxW: int, maxH: int): (r: Fit)
    ensures r.ZeroDivision? <==> w == 0 || h == 0
  {
    if w == 0 || h == 0 then ZeroDivision
    else Fitted(ScaleBy(w, h, MinRatio(w, h, maxW, maxH)))
  }

  /** How an axis ratio compares with zero and one. */
  lemma RatioBounds(m: int, w: nat)
    requires 0 < w
    ensures 0 <= m ==> 0.0 <= m as real / w as real
    ensures m <= 0 ==> m as real / w as real <= 0.0
    ensures w <= m ==> 1.0 <= m as real / w as real
    ensures m < w ==> m as real / w as real < 1.0
  {
  }

  /** How the minimum ratio compares with zero and one. */
  lemma MinRatioBounds(w: nat, h: nat, maxW: int, maxH: int)
    requires 0 < w && 0 < h
    ensures 0 <= maxW && 0 <= maxH ==> 0.0 <= MinRatio(w, h, maxW, maxH)
    ensures maxW <= 0 || maxH <= 0 ==> MinRatio(w, h, maxW, maxH) <= 0.0
    ensures w <= maxW && h <= maxH ==> 1.0 <= MinRatio(w, h, maxW, maxH)
    ensures maxW < w || maxH < h ==> MinRatio(w, h, maxW, maxH) < 1.0
  {
    RatioBounds(maxW, w);
    RatioBounds(maxH, h);
  }

  /** A side scaled by at most its own ratio stays within its bound. */
  lemma ScaledSideWithin(w: nat, s: real, m: int)
    requires 0 < w && s <= m as real / w as real
    ensures Trunc(w as real * s) <= m
  {
    assert w as real * s <= w as real * (m as real / w as real);
  }

  /** A side scaled by exactly its own ratio lands on its bound. */
  lemma ScaledSideExact(w: nat, m: int)
    requires 0 < w
    ensures Trunc(w as real * (m as real / w as real)) == m
  {
    assert w as real * (m as real / w as real) == m as real;
  }

  /** Truncation toward zero is monotone with respect to integer bounds. */
  lemma TruncBounds(x: real, k: int)
    ensures k as real <= x ==> k <= Trunc(x)
    ensures x <= k as real ==> Trunc(x) <= k
  {
  }

  /** How a side multiplied by a factor compares with zero and with the side itself. */
  lemma ProductBounds(w: nat, s: real)
    ensures 0.0 <= s ==> 0.0 <= w as real * s
    ensures s <= 0.0 ==> w as real * s <= 0.0
    ensures 1.0 <= s ==> w as real <= w as real * s
    ensures s < 1.0 ==> w as real * s <= w as real
  {
  }

  /** A side scaled by a non-negative factor stays non-negative. */
  lemma SideAtLeastZero(w: nat, s: real)
    requires 0.0 <= s
    ensures 0 <= Trunc(w as real * s)
  {
    ProductBounds(w, s);
    TruncBounds(w as real * s, 0);
  }

  /** A side scaled by a factor of zero or less has no positive length. */
  lemma SideAtMostZero(w: nat, s: real)
    requires s <= 0.0
    ensures Trunc(w as real * s) <= 0
  {
    ProductBounds(w, s);
    TruncBounds(w as real * s, 0);
  }

  /** A side scaled by a factor of at least one does not shrink. */
  lemma SideAtLeastOriginal(w: nat, s: real)
    requires 1.0 <= s
    ensures w <= Trunc(w as real * s)
  {
    ProductBounds(w, s);
    TruncBounds(w as real * s, w);
  }

  /** A side scaled by a factor below one does not grow. */
  lemma SideAtMostOriginal(w: nat, s: real)
    requires s < 1.0
    ensures Trunc(w as real * s) <= w
  {
    ProductBounds(w, s);
    TruncBounds(w as real * s, w);
  }

  /** A side scaled by a non-negative factor and truncated lies less than one pixel below
      the exact product. */
  lemma ScaledSideTruncation(w: nat, s: real)
    requires 0.0 <= s
    ensures Trunc(w as real * s) as real <= w as real * s < Trunc(w as real * s) as real + 1.0
  {
    assert 0.0 <= w as real * s;
  }

  /** Bounds on a real from bounds on its product with a positive side. */
  lemma DivideBounds(n: int, w: nat, s: real)
    requires 0 < w
    requires n as real <= w as real * s < n as real + 1.0
    ensures n as real / w as real <= s < (n + 1) as real / w as real
  {
  }

  /** Comparing two fractions by cross-multiplying. */
  lemma CrossMultiply(p: int, w: nat, q: int, h: nat)
    requires 0 < w && 0 < h
    requires p as real / w as real < q as real / h as real
    ensures p * h < q * w
  {
  }

  /** Two sides truncated after a common scaling have the cross products of the original
      within one side of each other. */
  lemma TruncatedAspect(nw: int, nh: int, w: nat, h: nat, s: real)
    requires 0 < w && 0 < h
    requires nw as real <= w as real * s < nw as real + 1.0
    requires nh as real <= h as real * s < nh as real + 1.0
    ensures -(h as int) < nw * h - nh * w < w
  {
    DivideBounds(nw, w, s);
    DivideBounds(nh, h, s);
    CrossMultiply(nw, w, nh + 1, h);
    CrossMultiply(nh, h, nw + 1, w);
  }

  /** Scaling by a factor no larger than either ratio stays inside a box of
      non-negative sides. */
  lemma ScaleByWithinBox(w: nat, h: nat, maxW: int, maxH: int, s: real)
    requires 0 < w && 0 < h
    requires 0.0 <= s && s <= maxW as real / w as real && s <= maxH as real / h as real
    ensures 0 <= ScaleBy(w, h, s).width <= maxW
    ensures 0 <= ScaleBy(w, h, s).height <= maxH
  {
    SideAtLeastZero(w, s);
    SideAtLeastZero(h, s);
    ScaledSideWithin(w, s, maxW);
    ScaledSideWithin(h, s, maxH);
  }

  /** Scaling by a common non-negative factor keeps the aspect ratio up to truncation. */
  lemma ScaleByKeepsAspect(w: nat, h: nat, s: real)
    requires 0 < w && 0 < h && 0.0 <= s
    ensures -(h as int) < ScaleBy(w, h, s).width * h - ScaleBy(w, h, s).height * w < w
  {
    ScaledSideTruncation(w, s);
    ScaledSideTruncation(h, s);
    TruncatedAspect(ScaleBy(w, h, s).width, ScaleBy(w, h, s).height, w, h, s);
  }

  /** How both scaled sides compare with zero and with the original sides. */
  lemma ScaleByBounds(w: nat, h: nat, s: real)
    ensures s <= 0.0 ==> ScaleBy(w, h, s).width <= 0 && ScaleBy(w, h, s).height <= 0
    ensures 1.0 <= s ==> w <= ScaleBy(w, h, s).width && h <= ScaleBy(w, h, s).height
    ensures s < 1.0 ==> ScaleBy(w, h, s).width <= w && ScaleBy(w, h, s).height <= h
  {
    if s <= 0.0 {
      SideAtMostZero(w, s);
      SideAtMostZero(h, s);
    }
    if 1.0 <= s {
      SideAtLeastOriginal(w, s);
      SideAtLeastOriginal(h, s);
    } else {
      SideAtMostOriginal(w, s);
      SideAtMostOriginal(h, s);
    }
  }

  /** With a box of non-negative sides, both policies give a size inside the box. */
  lemma FitWithinBox(w: nat, h: nat, maxW: int, maxH: int)
    requires 0 < w && 0 < h && 0 <= maxW && 0 <= maxH
    ensures FitShrinkOnly(w, h, maxW, maxH).Fitted?
    ensures 0 <= FitShrinkOnly(w, h, maxW, maxH).size.width <= maxW
    ensures 0 <= FitShrinkOnly(w, h, maxW, maxH).size.height <= maxH
    ensures FitExact(w, h, maxW, maxH).Fitted?
    ensures 0 <= FitExact(w, h, maxW, maxH).size.width <= maxW
    ensures 0 <= FitExact(w, h, maxW, maxH).size.height <= maxH
  {
    MinRatioBounds(w, h, maxW, maxH);
    ScaleByWithinBox(w, h, maxW, maxH, MinRatio(w, h, maxW, maxH));
  }

  /** In exact arithmetic the presenter fit reaches the box on at least one axis:
      the axis whose ratio is the minimum is scaled to exactly its bound. */
  lemma FitExactTouchesBox(w: nat, h: nat, maxW: int, maxH: int)
    requires 0 < w && 0 < h
    ensures FitExact(w, h, maxW, maxH).Fitted?
    ensures FitExact(w, h, maxW, maxH).size.width == maxW
         || FitExact(w, h, maxW, maxH).size.height == maxH
  {
    ScaledSideExact(w, maxW);
    ScaledSideExact(h, maxH);
  }

  /** A bitmap too large for the box is shrunk until it reaches the box on at least one
      axis, as the presenter fit would. */
  lemma FitShrinkOnlyTouchesBox(w: nat, h: nat, maxW: int, maxH: int)
    requires 0 < w && 0 < h && !(w <= maxW && h <= maxH)
    ensures FitShrinkOnly(w, h, maxW, maxH).Fitted?
    ensures FitShrinkOnly(w, h, maxW, maxH).size.width == maxW
         || FitShrinkOnly(w, h, maxW, maxH).size.height == maxH
  {
    FitExactTouchesBox(w, h, maxW, maxH);
  }

  /** The presenter fit enlarges an image that is smaller than the box on both axes. */
  lemma FitExactEnlargesSmallImage(w: nat, h: nat, maxW: int, maxH: int)
    requires 0 < w <= maxW && 0 < h <= maxH
    ensures FitExact(w, h, maxW, maxH).Fitted?
    ensures FitExact(w, h, maxW, maxH).size.width >= w
    ensures FitExact(w, h, maxW, maxH).size.height >= h
  {
    MinRatioBounds(w, h, maxW, maxH);
    ScaleByBounds(w, h, MinRatio(w, h, maxW, maxH));
  }

  /** The main-view fit never enlarges: when the image does not fit, the minimum ratio
      is below one. */
  lemma FitShrinkOnlyNeverEnlarges(w: nat, h: nat, maxW: int, maxH: int)
    ensures FitShrinkOnly(w, h, maxW, maxH).Fitted? ==>
              FitShrinkOnly(w, h, maxW, maxH).size.width <= w
              && FitShrinkOnly(w, h, maxW, maxH).size.height <= h
  {
    if !(w <= maxW && h <= maxH) && 0 < w && 0 < h {
      MinRatioBounds(w, h, maxW, maxH);
      ScaleByBounds(w, h, MinRatio(w, h, maxW, maxH));
    }
  }

  /** Both policies keep the aspect ratio of the original up to truncation: the cross
      products of the result and the original differ by less than one side. */
  lemma FitKeepsAspectRatio(w: nat, h: nat, maxW: int, maxH: int)
    requires 0 < w && 0 < h && 0 <= maxW && 0 <= maxH
    ensures var r := FitExact(w, h, maxW, maxH).size;
            -(h as int) < r.width * h - r.height * w < w
    ensures var r := FitShrinkOnly(w, h, maxW, maxH).size;
            -(h as int) < r.width * h - r.height * w < w
  {
    MinRatioBounds(w, h, maxW, maxH);
    ScaleByKeepsAspect(w, h, MinRatio(w, h, maxW, maxH));
  }

  /** A box that is not laid out yet (a label smaller than its margins) has a side of
      zero or less; both policies then produce a size with no positive side. */
  lemma FitEmptyBox(w: nat, h: nat, maxW: int, maxH: int)
    requires 0 < w && 0 < h && (maxW <= 0 || maxH <= 0)
    ensures FitShrinkOnly(w, h, maxW, maxH).Fitted?
    ensures FitShrinkOnly(w, h, maxW, maxH).size.width <= 0
    ensures FitShrinkOnly(w, h, maxW, maxH).size.height <= 0
    ensures FitExact(w, h, maxW, maxH).Fitted?
    ensures FitExact(w, h, maxW, maxH).size.width <= 0
    ensures FitExact(w, h, maxW, maxH).size.height <= 0
  {
    MinRatioBounds(w, h, maxW, maxH);
    ScaleByBounds(w, h, MinRatio(w, h, maxW, maxH));
  }

  /** A 2400 by 1800 master bitmap in an 800 by 600 box: the presenter fit fills the box,
      and a 400 by 300 bitmap is left as it is by the main-view fit. */
  lemma FitExamples()
    ensures FitExact(2400, 1800, 800, 600) == Fitted(Size(800, 600))
    ensures FitShrinkOnly(400, 300, 800, 600) == Fitted(Size(400, 300))
  {
    assert MinRatio(2400, 1800, 800, 600) == 1.0 / 3.0;
    assert Trunc(2400.0 * (1.0 / 3.0)) == 800;
    assert Trunc(1800.0 * (1.0 / 3.0)) == 600;
  }
}
