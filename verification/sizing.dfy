/** Number handling and `getAdjustedSizes` of src/util.ts, over exact reals.

    JavaScript numbers become `Num`: a real or positive infinity. NaN and
    negative infinity are not modelled. `normalizeDecimalNumber` only repairs
    binary floating-point artefacts and is the identity over reals. */
module Sizing {

  datatype Num = Fin(v: real) | Inf

  /** `isPositiveNumber`: greater than 0 and less than Infinity. */
  predicate IsPositiveNumber(x: Num)
  {
    x.Fin? && x.v > 0.0
  }

  /** The order of JavaScript numbers, with Infinity on top. */
  predicate Le(a: Num, b: Num)
  {
    b.Inf? || (a.Fin? && a.v <= b.v)
  }

  /** `Math.max`. */
  function Max(a: Num, b: Num): (r: Num)
    ensures Le(a, r) && Le(b, r)
    ensures r == a || r == b
  {
    if Le(a, b) then b else a
  }

  /** `Math.min`. */
  function Min(a: Num, b: Num): (r: Num)
    ensures Le(r, a) && Le(r, b)
    ensures r == a || r == b
  {
    if Le(a, b) then a else b
  }

  /** `Math.floor`: the greatest integer not above a finite value; Infinity stays. */
  function Floor(a: Num): (r: Num)
    ensures Le(r, a)
    ensures r.Fin? <==> a.Fin?
    ensures a.Fin? ==> r.v.Floor as real == r.v && a.v < r.v + 1.0
  {
    match a
    case Inf => Inf
    case Fin(v) => Fin(v.Floor as real)
  }

  /** Flooring keeps the order. */
  lemma FloorMonotone(a: Num, b: Num)
    requires Le(a, b)
    ensures Le(Floor(a), Floor(b))
  {
    if b.Fin? {
      var i, j := a.v.Floor, b.v.Floor;
      assert (i as real) <= a.v <= b.v < (j as real) + 1.0;
      assert i < j + 1;
    }
  }

  /** The three values of the `resize` option; `NoResize` is 'none'. */
  datatype Resize = NoResize | Contain | Cover

  datatype Size = Size(width: Num, height: Num)

  function Transpose(s: Size): Size
  {
    Size(s.height, s.width)
  }

  /** `getAdjustedSizes`: fits a width/height pair to `aspectRatio`.
      With both sides valid, 'contain' and 'none' shrink one side and 'cover'
      grows one side, so that the result keeps the ratio and touches the
      input on the other side. With one valid side the other follows from
      the ratio; with none the input comes back unchanged. */
  function GetAdjustedSizes(aspectRatio: real, s: Size, mode: Resize): (r: Size)
    requires aspectRatio > 0.0
    ensures IsPositiveNumber(s.width) && IsPositiveNumber(s.height) ==>
      && IsPositiveNumber(r.width) && IsPositiveNumber(r.height)
      && r.width.v == r.height.v * aspectRatio
      && (r.width == s.width || r.height == s.height)
    ensures IsPositiveNumber(s.width) && IsPositiveNumber(s.height) && mode != Cover ==>
      Le(r.width, s.width) && Le(r.height, s.height)
    ensures IsPositiveNumber(s.width) && IsPositiveNumber(s.height) && mode == Cover ==>
      Le(s.width, r.width) && Le(s.height, r.height)
    ensures IsPositiveNumber(s.width) && !IsPositiveNumber(s.height) ==>
      r == Size(s.width, Fin(s.width.v / aspectRatio))
    ensures !IsPositiveNumber(s.width) && IsPositiveNumber(s.height) ==>
      r == Size(Fin(s.height.v * aspectRatio), s.height)
    ensures !IsPositiveNumber(s.width) && !IsPositiveNumber(s.height) ==> r == s
  {
    var validWidth := IsPositiveNumber(s.width);
    var validHeight := IsPositiveNumber(s.height);
    if validWidth && validHeight then
      var width, height := s.width.v, s.height.v;
      var adjustedWidth := height * aspectRatio;
      if ((mode == Contain || mode == NoResize) && adjustedWidth > width)
        || (mode == Cover && adjustedWidth < width)
      then
        HeightFromWidth(width, height, aspectRatio);
        Size(s.width, Fin(width / aspectRatio))
      else
        MulPositive(height, aspectRatio);
        assert mode != Cover ==> adjustedWidth <= width;
        assert mode != Cover ==> Le(Fin(adjustedWidth), s.width);
        Size(Fin(adjustedWidth), s.height)
    else if validWidth then
      DivPositive(s.width.v, aspectRatio);
      Size(s.width, Fin(s.width.v / aspectRatio))
    else if validHeight then
      MulPositive(s.height.v, aspectRatio);
      Size(Fin(s.height.v * aspectRatio), s.height)
    else
      s
  }

  /** The height that gives `width` at the ratio, compared with `height`. */
  lemma HeightFromWidth(width: real, height: real, aspectRatio: real)
    requires width > 0.0 && height > 0.0 && aspectRatio > 0.0
    ensures width / aspectRatio > 0.0 && width / aspectRatio * aspectRatio == width
    ensures height * aspectRatio > width ==> width / aspectRatio < height
    ensures height * aspectRatio < width ==> width / aspectRatio > height
  {
    DivPositive(width, aspectRatio);
    DivMonotoneStrict(width, height * aspectRatio, aspectRatio);
    DivMonotoneStrict(height * aspectRatio, width, aspectRatio);
    assert height * aspectRatio / aspectRatio == height;
  }

  lemma MulPositive(x: real, k: real)
    requires x > 0.0 && k > 0.0
    ensures x * k > 0.0
  {
  }

  lemma DivPositive(x: real, k: real)
    requires x > 0.0 && k > 0.0
    ensures x / k > 0.0
  {
    assert x / k * k == x;
  }

  lemma MulMonotone(x: real, y: real, k: real)
    requires k > 0.0 && x <= y
    ensures x * k <= y * k
  {
  }

  lemma DivMonotone(x: real, y: real, k: real)
    requires k > 0.0 && x <= y
    ensures x / k <= y / k
  {
    DivMonotoneStrict(y, x, k);
  }

  /** 'contain' gives the largest size of the given ratio that fits in the
      box: every other such size is no wider and no taller. */
  lemma ContainIsLargestFit(aspectRatio: real, w: real, h: real, x: real, y: real)
    requires aspectRatio > 0.0 && w > 0.0 && h > 0.0
    requires x == y * aspectRatio && x <= w && y <= h
    ensures var r := GetAdjustedSizes(aspectRatio, Size(Fin(w), Fin(h)), Contain);
      x <= r.width.v && y <= r.height.v
  {
    assert x / aspectRatio == y;
    if h * aspectRatio > w {
      DivMonotone(x, w, aspectRatio);
    } else {
      MulMonotone(y, h, aspectRatio);
    }
  }

  /** 'cover' gives the smallest size of the given ratio that covers the
      box: every other such size is no narrower and no shorter. */
  lemma CoverIsSmallestCover(aspectRatio: real, w: real, h: real, x: real, y: real)
    requires aspectRatio > 0.0 && w > 0.0 && h > 0.0
    requires x == y * aspectRatio && x >= w && y >= h
    ensures var r := GetAdjustedSizes(aspectRatio, Size(Fin(w), Fin(h)), Cover);
      x >= r.width.v && y >= r.height.v
  {
    assert x / aspectRatio == y;
    if h * aspectRatio < w {
      DivMonotone(w, x, aspectRatio);
    } else {
      MulMonotone(h, y, aspectRatio);
    }
  }

  /** Multiplying by the inverse ratio is dividing by the ratio. */
  lemma InverseRatio(aspectRatio: real, inverse: real, x: real)
    requires aspectRatio > 0.0 && aspectRatio * inverse == 1.0
    ensures x * inverse == x / aspectRatio && x / inverse == x * aspectRatio
  {
    assert x / aspectRatio * aspectRatio == x;
    assert x * inverse * aspectRatio == x;
  }

  /** Fitting the transposed size to the inverse ratio gives the transposed
      result: width and height play symmetric roles. */
  lemma AdjustTransposed(aspectRatio: real, inverse: real, s: Size, mode: Resize)
    requires aspectRatio > 0.0 && aspectRatio * inverse == 1.0
    ensures inverse > 0.0
    ensures GetAdjustedSizes(inverse, Transpose(s), mode)
      == Transpose(GetAdjustedSizes(aspectRatio, s, mode))
  {
    var validWidth, validHeight := IsPositiveNumber(s.width), IsPositiveNumber(s.height);
    if validWidth && validHeight {
      AdjustTransposedValid(aspectRatio, inverse, s.width.v, s.height.v, mode);
    } else if validWidth {
      AdjustTransposedWidthOnly(aspectRatio, inverse, s, mode);
    } else if validHeight {
      AdjustTransposedWidthOnly(inverse, aspectRatio, Transpose(s), mode);
    }
  }

  lemma AdjustTransposedWidthOnly(aspectRatio: real, inverse: real, s: Size, mode: Resize)
    requires aspectRatio > 0.0 && aspectRatio * inverse == 1.0
    requires IsPositiveNumber(s.width) && !IsPositiveNumber(s.height)
    ensures inverse > 0.0
    ensures GetAdjustedSizes(inverse, Transpose(s), mode)
      == Transpose(GetAdjustedSizes(aspectRatio, s, mode))
    ensures GetAdjustedSizes(aspectRatio, s, mode)
      == Transpose(GetAdjustedSizes(inverse, Transpose(s), mode))
  {
    var w := s.width.v;
    assert inverse > 0.0;
    var r := GetAdjustedSizes(aspectRatio, s, mode);
    var t := GetAdjustedSizes(inverse, Transpose(s), mode);
    InverseRatio(aspectRatio, inverse, w);
    assert t.width.v == w * inverse;
    SizeExtensional(t, Transpose(r));
    SizeExtensional(r, Transpose(t));
  }

  /** Sizes with the same numbers are equal. */
  lemma SizeExtensional(a: Size, b: Size)
    requires a.width.Fin? == b.width.Fin? && a.height.Fin? == b.height.Fin?
    requires a.width.Fin? ==> a.width.v == b.width.v
    requires a.height.Fin? ==> a.height.v == b.height.v
    ensures a == b
  {
  }

  lemma AdjustTransposedValid(aspectRatio: real, inverse: real, w: real, h: real, mode: Resize)
    requires aspectRatio > 0.0 && aspectRatio * inverse == 1.0 && w > 0.0 && h > 0.0
    ensures inverse > 0.0
    ensures GetAdjustedSizes(inverse, Size(Fin(h), Fin(w)), mode)
      == Transpose(GetAdjustedSizes(aspectRatio, Size(Fin(w), Fin(h)), mode))
  {
    InverseRatio(aspectRatio, inverse, w);
    InverseRatio(aspectRatio, inverse, h);
    assert w / aspectRatio * aspectRatio == w;
    DivMonotoneStrict(w, h * aspectRatio, aspectRatio);
    DivMonotoneStrict(h * aspectRatio, w, aspectRatio);
    assert h * aspectRatio / aspectRatio == h;
    var r := GetAdjustedSizes(aspectRatio, Size(Fin(w), Fin(h)), mode);
    var t := GetAdjustedSizes(inverse, Size(Fin(h), Fin(w)), mode);
    SizeExtensional(t, Transpose(r));
  }

  lemma MulMonotoneStrict(x: real, y: real, k: real)
    requires k > 0.0
    ensures x < y <==> x * k < y * k
  {
  }

  lemma DivMonotoneStrict(x: real, y: real, k: real)
    requires k > 0.0
    ensures x < y <==> x / k < y / k
  {
    assert x / k * k == x && y / k * k == y;
    MulMonotoneStrict(x / k, y / k, k);
  }
}
