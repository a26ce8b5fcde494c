/** The planning part of `Compressor.draw` (src/index.ts): from the natural
    size of the decoded image, the rotation taken from its orientation and the
    geometry options, it computes the canvas size, the destination size and,
    for 'contain' and 'cover', the source crop. Canvas and context calls are
    not part of this model. */
module DrawPlan {
  import opened Wrappers
  import opened Sizing
  import Orientation

  /** The geometry options; `None` is an option left undefined. */
  datatype Options = Options(
    maxWidth: Num, maxHeight: Num,
    minWidth: Num, minHeight: Num,
    width: Option<Num>, height: Option<Num>,
    resize: Resize)

  /** The defaults of src/compressor-option.ts. */
  const DefaultGeometry := Options(Inf, Inf, Fin(0.0), Fin(0.0), None, None, NoResize)

  /** The source rectangle handed to `drawImage` before the destination. */
  datatype Crop = Crop(x: real, y: real, width: real, height: real)

  /** Canvas size, destination size (drawn centred on the canvas, so its
      origin is minus half of it) and the crop, present only when resizable. */
  datatype Plan = Plan(canvas: Size, dest: Size, crop: Option<Crop>)

  /** `Math.max(x, 0) || Infinity`: a bound of 0 or below means no bound. */
  function NormalizeMax(x: Num): (r: Num)
    ensures r.Inf? || r.v > 0.0
    ensures IsPositiveNumber(x) ==> r == x
    ensures !IsPositiveNumber(x) ==> r == Inf
  {
    var m := Max(x, Fin(0.0));
    if m == Fin(0.0) then Inf else m
  }

  /** `Math.max(x, 0) || 0`: a negative minimum means none. */
  function NormalizeMin(x: Num): (r: Num)
    ensures Le(Fin(0.0), r) && Le(x, r)
    ensures Le(Fin(0.0), x) ==> r == x
    ensures !Le(Fin(0.0), x) ==> r == Fin(0.0)
  {
    Max(x, Fin(0.0))
  }

  /** Only 'contain' and 'cover' with a positive width and height, each
      falling back to the natural one, resize to an explicit ratio. */
  predicate Resizable(naturalWidth: real, naturalHeight: real, o: Options)
  {
    && (o.resize == Contain || o.resize == Cover)
    && IsPositiveNumber(o.width.GetOr(Fin(naturalWidth)))
    && IsPositiveNumber(o.height.GetOr(Fin(naturalHeight)))
  }

  /** The inputs on which the planning stays in finite arithmetic: a decoded
      image has a positive size, and a resizable plan with a missing width
      or height would divide by the 0 that replaces it. */
  predicate PlanDefined(naturalWidth: real, naturalHeight: real, o: Options)
  {
    && naturalWidth > 0.0 && naturalHeight > 0.0
    && (Resizable(naturalWidth, naturalHeight, o) ==> o.width.Some? && o.height.Some?)
  }

  /** The normalised bounds and the requested size, with unset sides as 0. */
  datatype Constraints = Constraints(max: Size, min: Size, target: Size)

  function Requested(o: Options): (r: Constraints)
    ensures IsPositiveNumber(r.max.width) || r.max.width.Inf?
    ensures IsPositiveNumber(r.max.height) || r.max.height.Inf?
    ensures Le(Fin(0.0), r.min.width) && Le(Fin(0.0), r.min.height)
    ensures o.width.Some? ==> r.target.width == o.width.value
    ensures o.height.Some? ==> r.target.height == o.height.value
    ensures o.width.None? ==> r.target.width == Fin(0.0)
    ensures o.height.None? ==> r.target.height == Fin(0.0)
  {
    Constraints(
      Size(NormalizeMax(o.maxWidth), NormalizeMax(o.maxHeight)),
      Size(NormalizeMin(o.minWidth), NormalizeMin(o.minHeight)),
      Size(o.width.GetOr(Fin(0.0)), o.height.GetOr(Fin(0.0))))
  }

  /** For a quarter turn every pair is swapped, since the image is drawn
      rotated and the planned size is the one before rotation. */
  function Oriented(c: Constraints, quarterTurn: bool): (r: Constraints)
    ensures !quarterTurn ==> r == c
    ensures quarterTurn ==>
      r.max == Transpose(c.max) && r.min == Transpose(c.min) && r.target == Transpose(c.target)
  {
    if quarterTurn then
      Constraints(Transpose(c.max), Transpose(c.min), Transpose(c.target))
    else c
  }

  /** The ratio every size is fitted to: the natural one, or the requested
      one when resizable. The natural ratio is not swapped for a quarter turn. */
  function WorkingRatio(naturalWidth: real, naturalHeight: real, o: Options, c: Constraints): (ar: real)
    requires PlanDefined(naturalWidth, naturalHeight, o)
    requires Resizable(naturalWidth, naturalHeight, o) ==>
      IsPositiveNumber(c.target.width) && IsPositiveNumber(c.target.height)
    ensures ar > 0.0
    ensures Resizable(naturalWidth, naturalHeight, o) ==> ar == c.target.width.v / c.target.height.v
    ensures !Resizable(naturalWidth, naturalHeight, o) ==> ar == naturalWidth / naturalHeight
  {
    if Resizable(naturalWidth, naturalHeight, o) then
      DivPositive(c.target.width.v, c.target.height.v);
      c.target.width.v / c.target.height.v
    else
      DivPositive(naturalWidth, naturalHeight);
      naturalWidth / naturalHeight
  }

  /** `Math.floor(Math.min(Math.max(x, lo), hi))`: the maximum wins over the
      minimum when they conflict. */
  function Clamp(x: Num, lo: Num, hi: Num): (r: Num)
    ensures Le(r, hi)
    ensures Le(lo, hi) ==> Le(Floor(lo), r)
    ensures !Le(lo, hi) ==> r == Floor(hi)
  {
    var m := Min(Max(x, lo), hi);
    assert Le(lo, hi) ==> Le(Floor(lo), Floor(m)) by {
      if Le(lo, hi) {
        FloorMonotone(lo, m);
      }
    }
    Floor(m)
  }

  /** The value `Clamp` picks: the number itself when it lies within the
      bounds, the nearer bound otherwise, always rounded down. */
  lemma ClampSelects(x: Num, lo: Num, hi: Num)
    ensures Le(lo, x) && Le(x, hi) ==> Clamp(x, lo, hi) == Floor(x)
    ensures Le(x, lo) && Le(lo, hi) ==> Clamp(x, lo, hi) == Floor(lo)
    ensures Le(hi, x) ==> Clamp(x, lo, hi) == Floor(hi)
  {
  }

  /** The crop of 'none' (contain) mode on the natural size, centred. The
      source compares `_resize` where it meant to assign it, so 'contain'
      and 'cover' both reach this mode. */
  function CentredCrop(naturalWidth: real, naturalHeight: real, ar: real): (c: Crop)
    requires naturalWidth > 0.0 && naturalHeight > 0.0 && ar > 0.0
    ensures 0.0 < c.width <= naturalWidth && 0.0 < c.height <= naturalHeight
    ensures c.width == naturalWidth || c.height == naturalHeight
    ensures c.width == c.height * ar
    ensures 0.0 <= c.x && 2.0 * c.x + c.width == naturalWidth
    ensures 0.0 <= c.y && 2.0 * c.y + c.height == naturalHeight
  {
    var s := GetAdjustedSizes(ar, Size(Fin(naturalWidth), Fin(naturalHeight)), NoResize);
    Crop((naturalWidth - s.width.v) / 2.0, (naturalHeight - s.height.v) / 2.0, s.width.v, s.height.v)
  }

  /** The planning section of `draw` for an image of the given natural size
      drawn with the given rotation. */
  function PlanDraw(naturalWidth: real, naturalHeight: real, rotate: int, o: Options): (p: Plan)
    requires PlanDefined(naturalWidth, naturalHeight, o)
    ensures Orientation.IsQuarterTurn(rotate) ==> p.canvas == Transpose(p.dest)
    ensures !Orientation.IsQuarterTurn(rotate) ==> p.canvas == p.dest
    ensures p.crop.Some? <==> Resizable(naturalWidth, naturalHeight, o)
  {
    var quarterTurn := Orientation.IsQuarterTurn(rotate);
    var c := Oriented(Requested(o), quarterTurn);
    var ar := WorkingRatio(naturalWidth, naturalHeight, o, c);
    var maxBound := GetAdjustedSizes(ar, c.max, Contain);
    var minBound := GetAdjustedSizes(ar, c.min, Cover);
    var resizable := Resizable(naturalWidth, naturalHeight, o);
    var target := GetAdjustedSizes(ar, c.target, if resizable then o.resize else NoResize);
    var dest := Size(
      Clamp(target.width, minBound.width, maxBound.width),
      Clamp(target.height, minBound.height, maxBound.height));
    var crop := if resizable then Some(CentredCrop(naturalWidth, naturalHeight, ar)) else None;
    Plan(if quarterTurn then Transpose(dest) else dest, dest, crop)
  }

  /** 'contain' never lets a valid bound grow. */
  lemma ContainRespectsBound(ar: real, s: Size)
    requires ar > 0.0
    ensures IsPositiveNumber(s.width) ==> Le(GetAdjustedSizes(ar, s, Contain).width, s.width)
    ensures IsPositiveNumber(s.height) ==> Le(GetAdjustedSizes(ar, s, Contain).height, s.height)
  {
  }

  /** A positive `maxWidth` or `maxHeight` bounds the canvas side it names,
      whatever the rotation. */
  lemma CanvasWithinMaxBounds(naturalWidth: real, naturalHeight: real, rotate: int, o: Options)
    requires PlanDefined(naturalWidth, naturalHeight, o)
    ensures IsPositiveNumber(o.maxWidth) ==>
      Le(PlanDraw(naturalWidth, naturalHeight, rotate, o).canvas.width, o.maxWidth)
    ensures IsPositiveNumber(o.maxHeight) ==>
      Le(PlanDraw(naturalWidth, naturalHeight, rotate, o).canvas.height, o.maxHeight)
  {
    var quarterTurn := Orientation.IsQuarterTurn(rotate);
    var c := Oriented(Requested(o), quarterTurn);
    var ar := WorkingRatio(naturalWidth, naturalHeight, o, c);
    ContainRespectsBound(ar, c.max);
  }

  /** The same options with every width/height pair swapped. */
  function Swapped(o: Options): Options
  {
    Options(o.maxHeight, o.maxWidth, o.minHeight, o.minWidth, o.height, o.width, o.resize)
  }

  /** A quarter turn plans exactly what no rotation plans with the pairs
      swapped, and only the canvas is turned back. */
  lemma QuarterTurnSwapsPairs(naturalWidth: real, naturalHeight: real, rotate: int, o: Options)
    requires PlanDefined(naturalWidth, naturalHeight, o)
    requires Orientation.IsQuarterTurn(rotate)
    ensures PlanDefined(naturalWidth, naturalHeight, Swapped(o))
    ensures var p, q := PlanDraw(naturalWidth, naturalHeight, rotate, o), PlanDraw(naturalWidth, naturalHeight, 0, Swapped(o));
      p.dest == q.dest && p.crop == q.crop && p.canvas == Transpose(q.canvas)
  {
    assert Resizable(naturalWidth, naturalHeight, Swapped(o)) == Resizable(naturalWidth, naturalHeight, o);
    assert Oriented(Requested(o), true) == Oriented(Requested(Swapped(o)), false);
  }

  /** A size that already has the ratio is kept by every mode. */
  lemma AdjustAtRatioIsIdentity(w: real, h: real, mode: Resize)
    requires w > 0.0 && h > 0.0
    ensures GetAdjustedSizes(w / h, Size(Fin(w), Fin(h)), mode) == Size(Fin(w), Fin(h))
  {
    DivPositive(w, h);
    assert h * (w / h) == w;
    SizeExtensional(GetAdjustedSizes(w / h, Size(Fin(w), Fin(h)), mode), Size(Fin(w), Fin(h)));
  }

  /** The options with only an explicit size and a resize mode set. */
  function Explicit(width: real, height: real, mode: Resize): Options
  {
    DefaultGeometry.(width := Some(Fin(width)), height := Some(Fin(height)), resize := mode)
  }

  /** 'contain' or 'cover' with an explicit size and no bounds draws exactly
      that size, rounded down, whatever the rotation. */
  lemma ExplicitSizeIsDrawn(naturalWidth: real, naturalHeight: real, rotate: int, width: real, height: real, mode: Resize)
    requires naturalWidth > 0.0 && naturalHeight > 0.0 && width > 0.0 && height > 0.0
    requires mode == Contain || mode == Cover
    ensures PlanDefined(naturalWidth, naturalHeight, Explicit(width, height, mode))
    ensures PlanDraw(naturalWidth, naturalHeight, rotate, Explicit(width, height, mode)).canvas
      == Size(Floor(Fin(width)), Floor(Fin(height)))
  {
    var o := Explicit(width, height, mode);
    if Orientation.IsQuarterTurn(rotate) {
      AdjustAtRatioIsIdentity(height, width, mode);
    } else {
      AdjustAtRatioIsIdentity(width, height, mode);
    }
  }

  /** Without bounds or resizing, the canvas is the requested size fitted
      to the natural ratio, rounded down. */
  lemma UnboundedDrawsFittedRequest(naturalWidth: real, naturalHeight: real, o: Options)
    requires naturalWidth > 0.0 && naturalHeight > 0.0
    requires o.resize == NoResize
    requires o.maxWidth == Inf && o.maxHeight == Inf && o.minWidth == Fin(0.0) && o.minHeight == Fin(0.0)
    requires o.width.Some? ==> IsPositiveNumber(o.width.value)
    requires o.height.Some? ==> IsPositiveNumber(o.height.value)
    ensures PlanDefined(naturalWidth, naturalHeight, o)
    ensures var t := GetAdjustedSizes(naturalWidth / naturalHeight, Requested(o).target, NoResize);
      PlanDraw(naturalWidth, naturalHeight, 0, o).canvas == Size(Floor(t.width), Floor(t.height))
  {
    var ar := naturalWidth / naturalHeight;
    DivPositive(naturalWidth, naturalHeight);
    var c := Requested(o);
    assert c.max == Size(Inf, Inf) && c.min == Size(Fin(0.0), Fin(0.0));
    var t := GetAdjustedSizes(ar, c.target, NoResize);
    if o.width.Some? && o.height.None? {
      DivPositive(o.width.value.v, ar);
    } else if o.width.None? && o.height.Some? {
      MulPositive(o.height.value.v, ar);
    }
    assert Le(Fin(0.0), t.width) && Le(Fin(0.0), t.height);
  }

  /** Without resizing, a width alone fixes the height by the natural ratio. */
  lemma WidthAloneFollowsNaturalRatio(naturalWidth: real, naturalHeight: real, width: real)
    requires naturalWidth > 0.0 && naturalHeight > 0.0 && width > 0.0
    ensures var canvas := PlanDraw(naturalWidth, naturalHeight, 0, DefaultGeometry.(width := Some(Fin(width)))).canvas;
      && canvas.width == Floor(Fin(width))
      && canvas.height.Fin? && canvas.height.v == (width / (naturalWidth / naturalHeight)).Floor as real
  {
    var o := DefaultGeometry.(width := Some(Fin(width)));
    UnboundedDrawsFittedRequest(naturalWidth, naturalHeight, o);
    var t := GetAdjustedSizes(naturalWidth / naturalHeight, Requested(o).target, NoResize);
    SameFloor(t.height.v, width / (naturalWidth / naturalHeight));
  }

  /** Without resizing, a height alone fixes the width by the natural ratio. */
  lemma HeightAloneFollowsNaturalRatio(naturalWidth: real, naturalHeight: real, height: real)
    requires naturalWidth > 0.0 && naturalHeight > 0.0 && height > 0.0
    ensures var canvas := PlanDraw(naturalWidth, naturalHeight, 0, DefaultGeometry.(height := Some(Fin(height)))).canvas;
      && canvas.height == Floor(Fin(height))
      && canvas.width.Fin? && canvas.width.v == (height * (naturalWidth / naturalHeight)).Floor as real
  {
    var o := DefaultGeometry.(height := Some(Fin(height)));
    UnboundedDrawsFittedRequest(naturalWidth, naturalHeight, o);
    var t := GetAdjustedSizes(naturalWidth / naturalHeight, Requested(o).target, NoResize);
    SameFloor(t.width.v, height * (naturalWidth / naturalHeight));
  }

  lemma SameFloor(a: real, b: real)
    requires a == b
    ensures a.Floor == b.Floor
  {
  }

  /** With neither width nor height set and no resizing, the requested size
      is 0 by 0, so the canvas is the minimum bound clamped by the maximum. */
  lemma UnsetSizeDrawsMinimum(naturalWidth: real, naturalHeight: real, rotate: int, o: Options)
    requires PlanDefined(naturalWidth, naturalHeight, o)
    requires o.width.None? && o.height.None?
    ensures o.resize == NoResize
    ensures var c := Oriented(Requested(o), Orientation.IsQuarterTurn(rotate));
      var ar := naturalWidth / naturalHeight;
      var maxBound := GetAdjustedSizes(ar, c.max, Contain);
      var minBound := GetAdjustedSizes(ar, c.min, Cover);
      PlanDraw(naturalWidth, naturalHeight, rotate, o).dest
        == Size(Floor(Min(minBound.width, maxBound.width)), Floor(Min(minBound.height, maxBound.height)))
  {
    var c := Oriented(Requested(o), Orientation.IsQuarterTurn(rotate));
    DivPositive(naturalWidth, naturalHeight);
    CoverKeepsNonNegative(naturalWidth / naturalHeight, c.min);
  }

  /** 'cover' of a pair of non-negative numbers stays non-negative. */
  lemma CoverKeepsNonNegative(ar: real, s: Size)
    requires ar > 0.0 && Le(Fin(0.0), s.width) && Le(Fin(0.0), s.height)
    ensures var r := GetAdjustedSizes(ar, s, Cover);
      Le(Fin(0.0), r.width) && Le(Fin(0.0), r.height)
  {
    var r := GetAdjustedSizes(ar, s, Cover);
    if IsPositiveNumber(s.width) && !IsPositiveNumber(s.height) {
      DivPositive(s.width.v, ar);
    } else if !IsPositiveNumber(s.width) && IsPositiveNumber(s.height) {
      MulPositive(s.height.v, ar);
    }
  }

  /** The default options draw nothing: the canvas is 0 by 0. */
  lemma DefaultsDrawEmptyCanvas(naturalWidth: real, naturalHeight: real, rotate: int)
    requires naturalWidth > 0.0 && naturalHeight > 0.0
    ensures PlanDefined(naturalWidth, naturalHeight, DefaultGeometry)
    ensures PlanDraw(naturalWidth, naturalHeight, rotate, DefaultGeometry)
      == Plan(Size(Fin(0.0), Fin(0.0)), Size(Fin(0.0), Fin(0.0)), None)
  {
    UnsetSizeDrawsMinimum(naturalWidth, naturalHeight, rotate, DefaultGeometry);
  }

  /** The crop lies inside the natural image, is centred on it, and keeps
      the working ratio while touching two opposite edges. */
  lemma CropIsCentredInside(naturalWidth: real, naturalHeight: real, rotate: int, o: Options)
    requires PlanDefined(naturalWidth, naturalHeight, o)
    ensures var p := PlanDraw(naturalWidth, naturalHeight, rotate, o);
      p.crop.Some? ==>
        var c := p.crop.value;
        && 0.0 <= c.x && 2.0 * c.x + c.width == naturalWidth
        && 0.0 <= c.y && 2.0 * c.y + c.height == naturalHeight
        && 0.0 < c.width <= naturalWidth && 0.0 < c.height <= naturalHeight
        && (c.width == naturalWidth || c.height == naturalHeight)
  {
  }

  /** 'contain' and 'cover' crop the same rectangle: the crop mode is never
      set from the resize option. */
  lemma CropIgnoresResizeMode(naturalWidth: real, naturalHeight: real, rotate: int, o: Options)
    requires PlanDefined(naturalWidth, naturalHeight, o.(resize := Contain))
    ensures PlanDefined(naturalWidth, naturalHeight, o.(resize := Cover))
    ensures PlanDraw(naturalWidth, naturalHeight, rotate, o.(resize := Contain)).crop
      == PlanDraw(naturalWidth, naturalHeight, rotate, o.(resize := Cover)).crop
  {
  }

  /** When resizable, the crop has the requested ratio, turned for a
      quarter turn. */
  lemma CropHasRequestedRatio(naturalWidth: real, naturalHeight: real, rotate: int, o: Options)
    requires PlanDefined(naturalWidth, naturalHeight, o)
    requires Resizable(naturalWidth, naturalHeight, o)
    ensures var w, h := o.width.value.v, o.height.value.v;
      PlanDraw(naturalWidth, naturalHeight, rotate, o).crop
        == Some(CentredCrop(naturalWidth, naturalHeight, if Orientation.IsQuarterTurn(rotate) then h / w else w / h))
  {
  }

  /** A 4000 by 3000 photo fitted into 800 by 800: 'contain' and 'cover'
      both give an 800 by 800 canvas and crop the centred 3000 by 3000 square. */
  lemma SquareFromLandscape(mode: Resize)
    requires mode == Contain || mode == Cover
    ensures PlanDraw(4000.0, 3000.0, 0, Explicit(800.0, 800.0, mode))
      == Plan(Size(Fin(800.0), Fin(800.0)), Size(Fin(800.0), Fin(800.0)), Some(Crop(500.0, 0.0, 3000.0, 3000.0)))
  {
    var o := Explicit(800.0, 800.0, mode);
    var side := Fin(800.0);
    ExplicitSizeIsDrawn(4000.0, 3000.0, 0, 800.0, 800.0, mode);
    assert Floor(side) == side by {
      assert (800.0).Floor == 800;
    }
    assert !Orientation.IsQuarterTurn(0);
    CropHasRequestedRatio(4000.0, 3000.0, 0, o);
    assert 800.0 / 800.0 == 1.0;
    SquareCropOfLandscape();
    var p := PlanDraw(4000.0, 3000.0, 0, o);
    assert p.canvas == Size(side, side) && p.dest == p.canvas;
    assert p.crop == Some(Crop(500.0, 0.0, 3000.0, 3000.0));
  }

  lemma SquareCropOfLandscape()
    ensures CentredCrop(4000.0, 3000.0, 1.0) == Crop(500.0, 0.0, 3000.0, 3000.0)
  {
    var s := GetAdjustedSizes(1.0, Size(Fin(4000.0), Fin(3000.0)), NoResize);
    assert s.width.v == 3000.0 && s.height.v == 3000.0;
  }
}
