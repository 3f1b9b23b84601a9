/**
 * What the hit-test arithmetic of the input handlers yields: which row,
 * sub-slider and image pixel a pointer inside a control's area selects, and
 * what happens on the areas' closed bottom and right edges.
 */
module GeometryLaws {
  import opened JsNumber
  import opened Widgets
  import opened Input

  /** A control still at the factory's area is hit only at the panel's origin. */
  lemma UnplacedHoldsOnlyOrigin(pt: Point)
    ensures Contains(UNPLACED, pt) <==> pt == Point(0.0, 0.0)
  {
  }

  /**
   * The values JavaScript treats as false, among those modelled: `false`, 0,
   * NaN, the empty string and undefined. `null` is folded into `Obj`, which no
   * toggle holds, so no truthiness test of the panel sees it.
   */
  lemma FalsyValues(v: Value)
    ensures !Truthy(v) <==> v in {Bool(false), Num(Finite(0.0)), Num(NaN), Str(""), Undefined}
  {
  }

  /** `n` times a proper part `d` of `h`, over `h`, stays below `n`. */
  lemma PartOfWhole(n: real, d: real, h: real)
    requires n > 0.0 && 0.0 <= d < h
    ensures 0.0 <= n * d / h < n
  {
    assert n * d / h == n * (d / h);
    assert d / h * h == d;
    assert d / h < 1.0;
    assert n - n * (d / h) == n * (1.0 - d / h);
  }

  /** A multiple `n * h` divided by a positive `h` gives `n` back. */
  lemma DivOfMultiple(n: real, h: real)
    requires h > 0.0
    ensures Div(n * h, h) == Finite(n)
  {
  }

  lemma UnfoldBand(n: real, d: real, h: real)
    ensures Band(n, d, h) == Floor(Div(n * d, h))
  {
  }

  /** A whole number is its own floor. */
  lemma FloorOfWhole(k: nat)
    ensures Floor(Finite(k as real)) == Finite(k as real)
  {
  }

  /** `n` times a negative `d`, over a positive `h`, is negative. */
  lemma NegativePart(n: real, d: real, h: real)
    requires n > 0.0 && d < 0.0 && h > 0.0
    ensures n * d / h < 0.0
  {
    assert n * d < 0.0;
  }

  lemma BandInside(count: nat, offset: real, height: real)
    requires height > 0.0 && count > 0 && 0.0 <= offset < height
    ensures IsIndex(Band(count as real, offset, height), count)
  {
    PartOfWhole(count as real, offset, height);
  }

  lemma BandBottomEdge(count: nat, height: real)
    requires height > 0.0
    ensures Band(count as real, height, height) == Finite(count as real)
  {
    UnfoldBand(count as real, height, height);
    DivOfMultiple(count as real, height);
    FloorOfWhole(count);
  }

  lemma BandAbove(count: nat, offset: real, height: real)
    requires height > 0.0 && count > 0 && offset < 0.0
    ensures Below(Band(count as real, offset, height), Finite(0.0))
  {
    NegativePart(count as real, offset, height);
  }

  /**
   * Splitting `height` into `count` bands: an offset inside the span falls in
   * a band that indexes a list of `count`; the closed bottom end yields `count`
   * itself, and an offset above the span a negative band. A span of no height
   * yields NaN exactly when the numerator is 0.
   */
  lemma BandCases(count: nat, offset: real, height: real)
    ensures height > 0.0 && count > 0 && 0.0 <= offset < height ==> IsIndex(Band(count as real, offset, height), count)
    ensures height > 0.0 && offset == height ==> Band(count as real, offset, height) == Finite(count as real)
    ensures height > 0.0 && count > 0 && offset < 0.0 ==> Below(Band(count as real, offset, height), Finite(0.0))
    ensures height == 0.0 ==> (Band(count as real, offset, height).NaN? <==> count == 0 || offset == 0.0)
  {
    if height > 0.0 {
      if count > 0 && 0.0 <= offset < height {
        BandInside(count, offset, height);
      } else if offset == height {
        BandBottomEdge(count, height);
      } else if count > 0 && offset < 0.0 {
        BandAbove(count, offset, height);
      }
    }
  }

  /**
   * A radio list's row under a pointer inside its area: a row of the list
   * above the bottom edge, one past the last row on the bottom edge (which the
   * range test passes on), and NaN for a list of no height (which throws).
   */
  lemma RadioRowUnderPointer(n: nat, a: Rect, pt: Point)
    ensures Contains(a, pt) && n > 0 && pt.y < a.bottom ==> IsIndex(RadioRow(n, a, pt), n)
    ensures a.top < a.bottom && pt.y == a.bottom ==> RadioRow(n, a, pt) == Finite(n as real)
    ensures Contains(a, pt) && a.top == a.bottom ==> RadioRow(n, a, pt).NaN?
  {
    BandCases(n, pt.y - a.top, a.bottom - a.top);
  }

  /**
   * The sub-slider a multi-slider or colour drag first picks: inside the band
   * the sliders share, one of the `count` sub-sliders; on its bottom edge one
   * past the last, which the write ignores.
   */
  lemma SubSliderUnderPointer(env: Env, c: Control, ey: real)
    requires env.pixelRatio != 0.0 && c.value.Arr?
    ensures var y := ey / env.pixelRatio;
            var h := SlidersHeight(c);
            h > 0.0 && SliderCount(c) > 0 && c.area.top <= y < c.area.top + h ==>
              IsIndex(SubSliderAt(env, c, ey), SliderCount(c))
    ensures var y := ey / env.pixelRatio;
            var h := SlidersHeight(c);
            h > 0.0 && y == c.area.top + h ==> SubSliderAt(env, c, ey) == Finite(SliderCount(c) as real)
    ensures c.kind == Color ==> SliderCount(c) == (if c.options.alpha then 4 else 3)
    ensures c.kind != Color ==> SliderCount(c) == |c.value.elems|
  {
    BandCases(SliderCount(c), ey / env.pixelRatio - c.area.top, SlidersHeight(c));
  }

  /** A colour control's palette strip is the part of its area below the sliders' band, ending at the area's bottom. */
  lemma PaletteStripBelowSliders(env: Env, c: Control, ey: real)
    requires env.pixelRatio != 0.0 && c.kind == Color && c.options.palette.Some?
    ensures InPalette(env, c.area, c.options.palette.value, ey) <==> ey / env.pixelRatio > c.area.top + SlidersHeight(c)
    ensures InPalette(env, c.area, c.options.palette.value, ey) <==>
              ey / env.pixelRatio > c.area.bottom - PaletteHeight(c.area, c.options.palette.value)
  {
  }

  /** The floor of a number from 0 to a whole `k` is a whole number from 0 to `k`. */
  lemma FloorUpTo(r: real, k: nat)
    requires 0.0 <= r <= k as real
    ensures 0 <= r.Floor <= k
    ensures r == k as real ==> r.Floor == k
  {
  }

  /** `floor(k * num / den)` for a part `num` of a positive whole `den`: a whole number from 0 to `k`, and `k` for the whole. */
  lemma ScaledTexel(num: real, den: real, k: Dimension)
    requires 0.0 <= num <= den && den > 0.0
    ensures var t := Floor(Scale(k as real, Div(num, den)));
            && t.Finite? && IsInteger(t.r) && 0.0 <= t.r <= k as real
            && (num == den ==> t.r == k as real)
  {
    QuotientInUnit(num, den);
    var f := num / den;
    BetweenProduct(f, k as real);
    assert k as real * f == f * k as real;
    FloorUpTo(k as real * f, k);
    if num == den {
      assert f == 1.0;
    }
  }

  /**
   * The pixel a palette pick reads: for a pointer in the strip and within the
   * area's width (of positive width), integer coordinates from 0 to the
   * image's width and height. The area's right and bottom edges name the
   * column and row one past the image's last.
   */
  lemma PaletteTexelInImage(env: Env, a: Rect, img: Image, ex: real, ey: real)
    requires env.pixelRatio != 0.0
    ensures var x := ex / env.pixelRatio;
            var y := ey / env.pixelRatio;
            var t := PaletteTexel(env, a, img, ex, ey);
            a.left < a.right && a.left <= x <= a.right && InPalette(env, a, img, ey) && y <= a.bottom ==>
              && t.0.Finite? && IsInteger(t.0.r) && 0.0 <= t.0.r <= img.width as real
              && t.1.Finite? && IsInteger(t.1.r) && 0.0 <= t.1.r <= img.height as real
              && (x == a.right ==> t.0.r == img.width as real)
              && (y == a.bottom ==> t.1.r == img.height as real)
  {
    var x := ex / env.pixelRatio;
    var y := ey / env.pixelRatio;
    if a.left < a.right && a.left <= x <= a.right && InPalette(env, a, img, ey) && y <= a.bottom {
      var h := PaletteHeight(a, img);
      assert h > 0.0 by {
        assert h * img.width as real == (a.right - a.left) * img.height as real > 0.0;
      }
      ScaledTexel(x - a.left, a.right - a.left, img.width);
      ScaledTexel(y - a.top - PaletteStart(a, img), h, img.height);
    }
  }
}
