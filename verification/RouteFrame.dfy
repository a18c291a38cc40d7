/**
 The frame of a route drawing: latitude and longitude to canvas pixels, north up, and the length
 of its scale bar.
 */
module RouteFrame {
  import opened Reals
  import opened Rounding

  const METRES_PER_DEGREE := 111320.0
  const PADDING_PX := 36
  const MIN_EXTENT_METRES := 2000.0
  const SCALE_BAR_TARGET_PX := 120.0

  datatype LatLng = LatLng(lat: real, lng: real)

  /** xFactor is the metres per degree of longitude at the mean latitude. */
  datatype Frame = Frame(height: real, xFactor: real, scale: real, originX: real, originY: real)

  function Xs(points: seq<LatLng>, xFactor: real): (r: seq<real>)
    ensures |r| == |points| && forall i :: 0 <= i < |points| ==> r[i] == points[i].lng * xFactor
  {
    seq(|points|, i requires 0 <= i < |points| => points[i].lng * xFactor)
  }

  function Ys(points: seq<LatLng>): (r: seq<real>)
    ensures |r| == |points| && forall i :: 0 <= i < |points| ==> r[i] == points[i].lat * METRES_PER_DEGREE
  {
    seq(|points|, i requires 0 <= i < |points| => points[i].lat * METRES_PER_DEGREE)
  }

  /** The canvas has room inside its padding. */
  predicate Roomy(width: int, height: int) { width > 2 * PADDING_PX && height > 2 * PADDING_PX }

  /** The ground covered along one axis, at least the minimum extent. */
  function Span(s: seq<real>): (r: real)
    requires s != []
    ensures r == if Greatest(s) - Least(s) <= 2000.0 then 2000.0 else Greatest(s) - Least(s)
  {
    Max(Greatest(s) - Least(s), MIN_EXTENT_METRES)
  }

  function Room(size: int): real { size as real - 2.0 * PADDING_PX as real }

  /** Pixels per metre: the smaller of what the two axes allow. */
  function Scale(xs: seq<real>, ys: seq<real>, width: int, height: int): real
    requires xs != [] && ys != []
  {
    Min(Room(width) / Span(xs), Room(height) / Span(ys))
  }

  /** The coordinate at pixel 0, so that the middle of the extremes is at the middle of the canvas. */
  function Origin(low: real, high: real, size: int, scale: real): real
    requires scale != 0.0
  {
    (low + high) / 2.0 - (size as real / 2.0) / scale
  }

  /** A coordinate in pixels from the origin. */
  function Placed(v: real, origin: real, scale: real): real { (v - origin) * scale }

  lemma ScalePositive(xs: seq<real>, ys: seq<real>, width: int, height: int)
    requires xs != [] && ys != [] && Roomy(width, height)
    ensures Scale(xs, ys, width, height) > 0.0
  {
    QuotientPositive(Room(width), Span(xs));
    QuotientPositive(Room(height), Span(ys));
  }

  lemma QuotientPositive(a: real, b: real)
    requires a > 0.0 && b > 0.0
    ensures a / b > 0.0
  {
  }

  /** The frame of ground coordinates in metres. */
  function FrameOf(xs: seq<real>, ys: seq<real>, xFactor: real, width: int, height: int): (f: Frame)
    requires xs != [] && ys != [] && Roomy(width, height)
    ensures f.scale > 0.0 && f.xFactor == xFactor && f.height == height as real
  {
    ScalePositive(xs, ys, width, height);
    var scale := Scale(xs, ys, width, height);
    Frame(height as real, xFactor, scale,
          Origin(Least(xs), Greatest(xs), width, scale), Origin(Least(ys), Greatest(ys), height, scale))
  }

  function MakeFrame(points: seq<LatLng>, xFactor: real, width: int, height: int): Frame
    requires points != [] && Roomy(width, height)
  {
    FrameOf(Xs(points, xFactor), Ys(points), xFactor, width, height)
  }

  /** The pixel of a point before rounding. */
  function ExactX(f: Frame, p: LatLng): real { Placed(p.lng * f.xFactor, f.originX, f.scale) }

  function ExactY(f: Frame, p: LatLng): real { f.height - Placed(p.lat * METRES_PER_DEGREE, f.originY, f.scale) }

  /** px rounds to one decimal. */
  function PixelX(f: Frame, p: LatLng): real { RoundTo(ExactX(f, p), 10.0) }

  function PixelY(f: Frame, p: LatLng): real { RoundTo(ExactY(f, p), 10.0) }

  // ---- Everything framed is inside the padding ----------------------------------------------

  /** Along one axis: what lies between the extremes lands within the padding. */
  lemma AxisInside(v: real, low: real, high: real, span: real, scale: real, size: int)
    requires low <= v <= high && high - low <= span && span > 0.0
    requires 0.0 < scale <= Room(size) / span
    ensures PADDING_PX as real <= Placed(v, Origin(low, high, size, scale), scale) <= size as real - PADDING_PX as real
  {
    var middle := (low + high) / 2.0;
    var offset := PlacedOffset(v, low, high, size, scale, middle);
    var used := FitsRoom(span, scale, Room(size));
    var p := Bounded(v - middle, span / 2.0, scale, used / 2.0);
    assert p == offset;
  }

  /** A coordinate's place, as its offset from the middle of the canvas. */
  lemma PlacedOffset(v: real, low: real, high: real, size: int, scale: real, middle: real) returns (offset: real)
    requires scale > 0.0 && middle == (low + high) / 2.0
    ensures offset == (v - middle) * scale
    ensures Placed(v, Origin(low, high, size, scale), scale) == offset + size as real / 2.0
  {
    offset := (v - middle) * scale;
    var half := size as real / 2.0;
    var q := half / scale;
    assert q * scale == half;
    ShiftedProduct(v - Origin(low, high, size, scale), v - middle, q, scale);
  }

  lemma ShiftedProduct(a: real, b: real, q: real, scale: real)
    requires a == b + q
    ensures a * scale == b * scale + q * scale
  {
  }

  lemma FitsRoom(span: real, scale: real, room: real) returns (used: real)
    requires span > 0.0 && scale <= room / span
    ensures used == span * scale && used <= room
  {
    used := span * scale;
    var q := room / span;
    assert q * span == room;
    var slack := NonNegativeProduct(q - scale, span);
    assert slack == room - used;
  }

  lemma Bounded(d: real, bound: real, scale: real, limit: real) returns (p: real)
    requires -bound <= d <= bound && scale > 0.0 && limit == bound * scale
    ensures p == d * scale && -limit <= p <= limit
  {
    p := d * scale;
    var above := NonNegativeProduct(bound - d, scale);
    assert above == limit - p;
    var below := NonNegativeProduct(d + bound, scale);
    assert below == p + limit;
  }

  /** The frame's scale fits both axes. */
  lemma ScaleFits(xs: seq<real>, ys: seq<real>, width: int, height: int)
    requires xs != [] && ys != []
    ensures Scale(xs, ys, width, height) <= Room(width) / Span(xs)
    ensures Scale(xs, ys, width, height) <= Room(height) / Span(ys)
  {
  }

  lemma AxisFramed(s: seq<real>, i: nat, size: int, scale: real)
    requires i < |s| && 0.0 < scale <= Room(size) / Span(s)
    ensures var placed := Placed(s[i], Origin(Least(s), Greatest(s), size, scale), scale);
            PADDING_PX as real <= placed <= size as real - PADDING_PX as real
  {
    assert s[i] in s;
    AxisInside(s[i], Least(s), Greatest(s), Span(s), scale, size);
  }

  lemma AxesFramed(xs: seq<real>, ys: seq<real>, xFactor: real, width: int, height: int, i: nat)
    requires i < |xs| == |ys| && Roomy(width, height)
    ensures var f := FrameOf(xs, ys, xFactor, width, height);
            && Inside(Placed(xs[i], f.originX, f.scale), width)
            && Inside(Placed(ys[i], f.originY, f.scale), height)
  {
    var scale := FrameOf(xs, ys, xFactor, width, height).scale;
    ScaleFits(xs, ys, width, height);
    AxisFramed(xs, i, width, scale);
    AxisFramed(ys, i, height, scale);
  }

  /** The pixel lies inside the padding of the canvas. */
  predicate Inside(x: real, size: int) { 36.0 <= x <= size as real - 36.0 }

  /** The point maps inside the padded canvas, before rounding and after. */
  predicate Framed(f: Frame, p: LatLng, width: int, height: int) {
    && Inside(ExactX(f, p), width) && Inside(ExactY(f, p), height)
    && Inside(PixelX(f, p), width) && Inside(PixelY(f, p), height)
  }

  /** A frame that places the coordinates of the points inside the canvas frames the points. */
  lemma PlacedIsFramed(f: Frame, points: seq<LatLng>, xFactor: real, i: nat, width: int, height: int)
    requires i < |points| && f.xFactor == xFactor && f.height == height as real
    requires Inside(Placed(Xs(points, xFactor)[i], f.originX, f.scale), width)
    requires Inside(Placed(Ys(points)[i], f.originY, f.scale), height)
    ensures Framed(f, points[i], width, height)
  {
    var p := points[i];
    assert ExactX(f, p) == Placed(Xs(points, xFactor)[i], f.originX, f.scale) by {
      assert p.lng * f.xFactor == Xs(points, xFactor)[i];
    }
    RoundedInside(ExactX(f, p), width);
    RoundedInside(ExactY(f, p), height);
  }

  /** Every point the frame is made for maps inside the padded canvas. */
  lemma FramedInside(points: seq<LatLng>, xFactor: real, width: int, height: int, i: nat)
    requires i < |points| && Roomy(width, height)
    ensures Framed(MakeFrame(points, xFactor, width, height), points[i], width, height)
  {
    AxesFramed(Xs(points, xFactor), Ys(points), xFactor, width, height, i);
    PlacedIsFramed(MakeFrame(points, xFactor, width, height), points, xFactor, i, width, height);
  }

  lemma RoundedInside(x: real, size: int)
    requires Inside(x, size)
    ensures Inside(RoundTo(x, 10.0), size)
  {
    RoundToStaysBetween(x, 10.0, 10 * PADDING_PX, 10 * (size - PADDING_PX));
  }

  /** A pixel is the multiple of a tenth nearest to the exact place, the even one of two. */
  lemma PixelIsNearest(f: Frame, p: LatLng) returns (x: int, y: int)
    ensures PixelX(f, p) * 10.0 == x as real && IsNearest(x, ExactX(f, p) * 10.0)
    ensures PixelY(f, p) * 10.0 == y as real && IsNearest(y, ExactY(f, p) * 10.0)
  {
    x := NearestPart(ExactX(f, p), 10.0);
    y := NearestPart(ExactY(f, p), 10.0);
  }

  /** Both axes use one scale, east is right and north is up. */
  lemma AspectKept(f: Frame, p: LatLng, q: LatLng)
    ensures ExactX(f, q) - ExactX(f, p) == f.scale * (q.lng * f.xFactor - p.lng * f.xFactor)
    ensures ExactY(f, q) - ExactY(f, p) == -(f.scale * (q.lat * 111320.0 - p.lat * 111320.0))
  {
    Difference(p.lng * f.xFactor, q.lng * f.xFactor, f.originX, f.scale);
    Difference(p.lat * METRES_PER_DEGREE, q.lat * METRES_PER_DEGREE, f.originY, f.scale);
  }

  lemma Difference(a: real, b: real, o: real, k: real)
    ensures Placed(b, o, k) - Placed(a, o, k) == k * (b - a)
  {
  }

  /** The scale is the largest that fits: along one axis the ground fills the room. */
  lemma ScaleIsTight(xs: seq<real>, ys: seq<real>, width: int, height: int)
    requires xs != [] && ys != []
    ensures var scale := Scale(xs, ys, width, height);
            scale * Span(xs) == width as real - 72.0 || scale * Span(ys) == height as real - 72.0
  {
  }

  lemma PlacedMiddle(low: real, high: real, size: int, scale: real)
    requires scale > 0.0
    ensures Placed((low + high) / 2.0, Origin(low, high, size, scale), scale) == size as real / 2.0
  {
    var offset := PlacedOffset((low + high) / 2.0, low, high, size, scale, (low + high) / 2.0);
  }

  /** Each origin is that of its axis, at the frame's scale. */
  lemma FrameOrigins(xs: seq<real>, ys: seq<real>, xFactor: real, width: int, height: int)
    requires xs != [] && ys != [] && Roomy(width, height)
    ensures var f := FrameOf(xs, ys, xFactor, width, height);
            && f.originX == Origin(Least(xs), Greatest(xs), width, f.scale)
            && f.originY == Origin(Least(ys), Greatest(ys), height, f.scale)
  {
  }

  /** The middle of the ground covered lands in the middle of the canvas. */
  lemma FrameIsCentred(xs: seq<real>, ys: seq<real>, xFactor: real, width: int, height: int)
    requires xs != [] && ys != [] && Roomy(width, height)
    ensures var f := FrameOf(xs, ys, xFactor, width, height);
            && Placed((Least(xs) + Greatest(xs)) / 2.0, f.originX, f.scale) == width as real / 2.0
            && Placed((Least(ys) + Greatest(ys)) / 2.0, f.originY, f.scale) == height as real / 2.0
  {
    var f := FrameOf(xs, ys, xFactor, width, height);
    FrameOrigins(xs, ys, xFactor, width, height);
    PlacedMiddle(Least(xs), Greatest(xs), width, f.scale);
    PlacedMiddle(Least(ys), Greatest(ys), height, f.scale);
  }

  // ---- The scale bar ---------------------------------------------------------------------------

  function TenTo(e: int): (r: real)
    ensures r > 0.0
    decreases if e < 0 then -e else e
  {
    if e == 0 then 1.0
    else if e > 0 then 10.0 * TenTo(e - 1)
    else TenTo(e + 1) / 10.0
  }

  lemma TenStep(e: int)
    ensures TenTo(e + 1) == 10.0 * TenTo(e)
  {
  }

  /** floor of the decimal logarithm of t, for t at least 1. */
  function LogUp(t: real): (e: int)
    requires t >= 1.0
    ensures TenTo(e) <= t < TenTo(e + 1)
    decreases t.Floor
  {
    TenStep(0);
    if t < 10.0 then 0
    else
      var e := LogUp(t / 10.0);
      TenStep(e);
      TenStep(e + 1);
      e + 1
  }

  /** The same for any positive t. */
  function FloorLog10(t: real): (e: int)
    requires t > 0.0
    ensures TenTo(e) <= t < TenTo(e + 1)
    decreases t < 1.0, if t < 1.0 then (1.0 / t).Floor else 0
  {
    if t >= 1.0 then LogUp(t)
    else
      TenfoldShrinks(t);
      var e := FloorLog10(t * 10.0);
      TenStep(e - 1);
      TenStep(e);
      e - 1
  }

  lemma TenfoldShrinks(t: real)
    requires 0.0 < t < 1.0
    ensures (1.0 / (t * 10.0)).Floor < (1.0 / t).Floor
    ensures t * 10.0 >= 1.0 || 0 <= (1.0 / (t * 10.0)).Floor
  {
    var u := 1.0 / t;
    assert u * t == 1.0;
    assert u > 1.0;
    assert (u / 10.0) * (t * 10.0) == 1.0;
    assert 1.0 / (t * 10.0) == u / 10.0;
  }

  /** The greatest of one, two and five times the power of ten that does not exceed the target. */
  function ScaleBarMetres(metresPerPx: real): real
    requires metresPerPx > 0.0
  {
    var target := SCALE_BAR_TARGET_PX * metresPerPx;
    var magnitude := TenTo(FloorLog10(target));
    if 5.0 * magnitude <= target then 5.0 * magnitude
    else if 2.0 * magnitude <= target then 2.0 * magnitude
    else magnitude
  }

  /** The scale bar is at most its target, more than two fifths of it, and a 1-2-5 length. */
  lemma ScaleBarFits(metresPerPx: real)
    requires metresPerPx > 0.0
    ensures var bar, target := ScaleBarMetres(metresPerPx), 120.0 * metresPerPx;
            && bar <= target && 5.0 * bar > 2.0 * target
            && exists e :: bar == TenTo(e) || bar == 2.0 * TenTo(e) || bar == 5.0 * TenTo(e)
  {
    TenStep(FloorLog10(SCALE_BAR_TARGET_PX * metresPerPx));
  }

  lemma {:induction false} TenRises(e: int, f: int)
    requires e <= f
    ensures TenTo(e) <= TenTo(f)
    decreases f - e
  {
    if e < f {
      TenRises(e, f - 1);
      TenStep(f - 1);
    }
  }

  lemma LengthBelow(e: int, f: int, step: real) returns (length: real)
    requires e < f && 0.0 <= step <= 5.0
    ensures length == step * TenTo(e) && length <= TenTo(f)
  {
    TenRises(e + 1, f);
    TenStep(e);
    length := Bounded(step, 5.0, TenTo(e), 5.0 * TenTo(e));
  }

  lemma LengthAbove(e: int, f: int, step: real) returns (length: real)
    requires f < e && step >= 1.0
    ensures length == step * TenTo(e) && length >= TenTo(f + 1)
  {
    TenRises(f + 1, e);
    length := step * TenTo(e);
    var excess := NonNegativeProduct(step - 1.0, TenTo(e));
    assert excess == length - TenTo(e);
  }

  /** No 1-2-5 length within the target is longer than the scale bar. */
  lemma ScaleBarGreatest(metresPerPx: real, e: int, step: real, length: real)
    requires metresPerPx > 0.0 && (step == 1.0 || step == 2.0 || step == 5.0)
    requires length == step * TenTo(e) && length <= 120.0 * metresPerPx
    ensures length <= ScaleBarMetres(metresPerPx)
  {
    var top := FloorLog10(SCALE_BAR_TARGET_PX * metresPerPx);
    if e > top {
      var above := LengthAbove(e, top, step);
    } else if e < top {
      var below := LengthBelow(e, top, step);
    }
  }
}
