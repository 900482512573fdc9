/** The intersection-over-union kernel for one pair of boxes (iou.py). */
module IoU {
  import opened Results
  import opened RealArith

  /** The two ways the four numbers of a box can be read. */
  datatype BoxFormat = Corners | Midpoint

  /** Four coordinates: (x1, y1, x2, y2) in Corners format, (cx, cy, w, h) in Midpoint format. */
  datatype Box = Box(c0: real, c1: real, c2: real, c3: real)

  /** An axis-aligned rectangle given by two opposite corners. */
  datatype Rect = Rect(x1: real, y1: real, x2: real, y2: real)

  /** The format string dispatch: "corners", "midpoint", or an error. */
  function ParseFormat(name: string): (r: Result<BoxFormat>)
    ensures r.Ok? <==> name == "corners" || name == "midpoint"
    ensures r.Err? ==> r.error == UnknownBoxFormat
  {
    if name == "corners" then Ok(Corners)
    else if name == "midpoint" then Ok(Midpoint)
    else Err(UnknownBoxFormat)
  }

  /** The corners of a box read in format `f`. */
  function ToRect(b: Box, f: BoxFormat): Rect
  {
    match f
    case Corners => Rect(b.c0, b.c1, b.c2, b.c3)
    case Midpoint =>
      var halfW, halfH := b.c2 / 2.0, b.c3 / 2.0;
      Rect(b.c0 - halfW, b.c1 - halfH, b.c0 + halfW, b.c1 + halfH)
  }

  /** A rectangle written in Corners format. */
  function CornersOf(r: Rect): Box
  {
    Box(r.x1, r.y1, r.x2, r.y2)
  }

  /** A rectangle written in Midpoint format: its centre, width and height. */
  function MidpointOf(r: Rect): Box
  {
    Box((r.x1 + r.x2) / 2.0, (r.y1 + r.y2) / 2.0, r.x2 - r.x1, r.y2 - r.y1)
  }

  /** Reading a midpoint box and writing it back gives the same box, and the other way round:
      the midpoint conversion loses nothing. */
  lemma MidpointRoundTrip(b: Box, r: Rect)
    ensures MidpointOf(ToRect(b, Midpoint)) == b
    ensures ToRect(MidpointOf(r), Midpoint) == r
    ensures ToRect(CornersOf(r), Corners) == r
  {
  }

  function Max(a: real, b: real): real { if a >= b then a else b }
  function Min(a: real, b: real): real { if a <= b then a else b }

  /** A side length clamped at 0, as `.clamp(0)` does. */
  function ClampZero(x: real): (r: real)
    ensures r >= 0.0 && r >= x
    ensures x >= 0.0 ==> r == x
  {
    if x >= 0.0 then x else 0.0
  }

  /** The area of the overlap of two rectangles. */
  function Intersection(a: Rect, b: Rect): (r: real)
    ensures r >= 0.0
  {
    MulNonNegative(ClampZero(Min(a.x2, b.x2) - Max(a.x1, b.x1)), ClampZero(Min(a.y2, b.y2) - Max(a.y1, b.y1)));
    ClampZero(Min(a.x2, b.x2) - Max(a.x1, b.x1)) * ClampZero(Min(a.y2, b.y2) - Max(a.y1, b.y1))
  }

  /** A rectangle's area, NOT clamped: negative when exactly one side is reversed. */
  function Area(r: Rect): real
  {
    (r.x2 - r.x1) * (r.y2 - r.y1)
  }

  function Union(a: Rect, b: Rect): real
  {
    Area(a) + Area(b) - Intersection(a, b)
  }

  /** The overlap ratio of two rectangles. Where the denominator is exactly zero (only boxes with
      a reversed side can get there) floating point gives nan or infinity; the model gives 0. */
  function IouRects(a: Rect, b: Rect): real
  {
    var denominator := Union(a, b) + Epsilon;
    if denominator == 0.0 then 0.0 else Intersection(a, b) / denominator
  }

  /** IoU of two boxes both written in format `f`. */
  function IouOf(f: BoxFormat, pred: Box, truth: Box): real
  {
    IouRects(ToRect(pred, f), ToRect(truth, f))
  }

  /** `intersect_over_union(pred_boxes, label_boxes, box_format)` for one pair of boxes. */
  function IntersectOverUnion(pred: Box, truth: Box, format: string): (r: Result<real>)
    ensures r.Err? <==> format != "corners" && format != "midpoint"
    ensures r.Err? ==> r.error == UnknownBoxFormat
    ensures format == "corners" ==> r == Ok(IouRects(ToRect(pred, Corners), ToRect(truth, Corners)))
    ensures format == "midpoint" ==> r == Ok(IouRects(ToRect(pred, Midpoint), ToRect(truth, Midpoint)))
  {
    match ParseFormat(format)
    case Err(e) => Err(e)
    case Ok(f) => Ok(IouOf(f, pred, truth))
  }

  /** Corners read the right way round: x1 <= x2 and y1 <= y2. */
  predicate WellFormed(r: Rect)
  {
    r.x1 <= r.x2 && r.y1 <= r.y2
  }

  lemma IouRectsSymmetric(a: Rect, b: Rect)
    ensures IouRects(a, b) == IouRects(b, a)
  {
    assert Min(a.x2, b.x2) == Min(b.x2, a.x2) && Max(a.x1, b.x1) == Max(b.x1, a.x1);
    assert Min(a.y2, b.y2) == Min(b.y2, a.y2) && Max(a.y1, b.y1) == Max(b.y1, a.y1);
    assert Intersection(a, b) == Intersection(b, a);
  }

  /** IoU does not depend on which box is the prediction and which the truth. */
  lemma IouSymmetric(p: Box, t: Box, format: string)
    ensures IntersectOverUnion(p, t, format) == IntersectOverUnion(t, p, format)
  {
    if ParseFormat(format).Ok? {
      var f := ParseFormat(format).value;
      IouRectsSymmetric(ToRect(p, f), ToRect(t, f));
    }
  }

  /** Boxes separated along the x axis or along the y axis have IoU exactly 0. */
  lemma IouDisjoint(a: Rect, b: Rect)
    requires a.x2 <= b.x1 || b.x2 <= a.x1 || a.y2 <= b.y1 || b.y2 <= a.y1
    ensures Intersection(a, b) == 0.0
    ensures IouRects(a, b) == 0.0
  {
  }

  /** The clamped overlap along one axis is no longer than either side along that axis. */
  lemma OverlapSide(lo1: real, hi1: real, lo2: real, hi2: real)
    requires lo1 <= hi1 && lo2 <= hi2
    ensures ClampZero(Min(hi1, hi2) - Max(lo1, lo2)) <= hi1 - lo1
    ensures ClampZero(Min(hi1, hi2) - Max(lo1, lo2)) <= hi2 - lo2
  {
  }

  /** A product of two sides each bounded by the sides of two boxes is bounded by both areas. */
  lemma ProductWithin(w: real, h: real, aw: real, ah: real, bw: real, bh: real)
    requires 0.0 <= w <= aw && w <= bw && 0.0 <= h <= ah && h <= bh
    ensures 0.0 <= w * h <= aw * ah && w * h <= bw * bh
  {
    MulMonotone(w, h, aw, ah);
    MulMonotone(w, h, bw, bh);
  }

  /** For well-formed boxes the overlap is no larger than either box. */
  lemma IntersectionWithinAreas(a: Rect, b: Rect)
    requires WellFormed(a) && WellFormed(b)
    ensures 0.0 <= Intersection(a, b) <= Area(a) && Intersection(a, b) <= Area(b)
  {
    OverlapSide(a.x1, a.x2, b.x1, b.x2);
    OverlapSide(a.y1, a.y2, b.y1, b.y2);
    ProductWithin(ClampZero(Min(a.x2, b.x2) - Max(a.x1, b.x1)), ClampZero(Min(a.y2, b.y2) - Max(a.y1, b.y1)),
                  a.x2 - a.x1, a.y2 - a.y1, b.x2 - b.x1, b.y2 - b.y1);
  }

  /** For well-formed boxes the overlap is no larger than either box, so it never exceeds the
      union, and the ratio lies in [0, 1). */
  lemma IouBounds(a: Rect, b: Rect)
    requires WellFormed(a) && WellFormed(b)
    ensures 0.0 <= Intersection(a, b) <= Area(a) && Intersection(a, b) <= Area(b)
    ensures Intersection(a, b) <= Union(a, b)
    ensures 0.0 <= IouRects(a, b) < 1.0
  {
    IntersectionWithinAreas(a, b);
    var i, u := Intersection(a, b), Union(a, b);
    assert u == Area(a) + Area(b) - i;
    DivBelowOne(i, u + Epsilon);
  }

  /** For well-formed boxes the ratio is positive exactly when the boxes overlap on both axes. */
  lemma IouPositiveIffOverlap(a: Rect, b: Rect)
    requires WellFormed(a) && WellFormed(b)
    ensures IouRects(a, b) > 0.0 <==> Min(a.x2, b.x2) > Max(a.x1, b.x1) && Min(a.y2, b.y2) > Max(a.y1, b.y1)
  {
    IouBounds(a, b);
    var w := Min(a.x2, b.x2) - Max(a.x1, b.x1);
    var h := Min(a.y2, b.y2) - Max(a.y1, b.y1);
    if w > 0.0 && h > 0.0 {
      assert Intersection(a, b) == w * h;
      assert w * h > 0.0;
    }
  }

  /** A well-formed box of area A compared with itself gives A / (A + 1e-6). */
  lemma IouSelf(a: Rect)
    requires WellFormed(a)
    ensures Intersection(a, a) == Area(a) && Union(a, a) == Area(a)
    ensures IouRects(a, a) == Area(a) / (Area(a) + Epsilon)
  {
    MulNonNegative(a.x2 - a.x1, a.y2 - a.y1);
  }

  /** The same two rectangles written in midpoint form or in corner form have the same IoU. */
  lemma IouFormatInvariant(a: Rect, b: Rect)
    ensures IouOf(Midpoint, MidpointOf(a), MidpointOf(b)) == IouOf(Corners, CornersOf(a), CornersOf(b))
    ensures IntersectOverUnion(MidpointOf(a), MidpointOf(b), "midpoint")
         == IntersectOverUnion(CornersOf(a), CornersOf(b), "corners")
  {
    MidpointRoundTrip(CornersOf(a), a);
    MidpointRoundTrip(CornersOf(b), b);
  }
}
