/**
 * The annotation model of lib/annotations.ts: the tools, points, and the
 * closed union of eight annotation variants sharing an envelope
 * `{id, x, y, width, height, hidden?}`. Here the envelope is one record and
 * the variant-specific part is a `Shape`.
 *
 * Also here is the geometry the canvas keeps consistent between the envelope
 * and a variant's own coordinates, and the translation a drag applies to an
 * annotation (components/annotation-canvas.tsx).
 */
module Annotations {

  import opened Wrappers

  /** The `Tool` union. `Crop` is a tool that never yields an annotation. */
  datatype Tool =
    | Cursor
    | RectangleTool
    | SpotlightTool
    | PixelateTool
    | TextTool
    | ArrowTool
    | EllipseTool
    | LineTool
    | HighlightTool
    | CropTool

  datatype Point = Point(x: real, y: real)

  /** The variant-specific fields of each annotation type. */
  datatype Shape =
    | Rectangle(strokeColor: string, fillColor: Option<string>, strokeWidth: int)
    | SpotlightArea
    | PixelateArea(pixelSize: int)
    | Text(text: string, color: string, fontSize: int, fontFamily: string)
    | Arrow(startX: real, startY: real, endX: real, endY: real, color: string, strokeWidth: int)
    | Ellipse(centerX: real, centerY: real, radiusX: real, radiusY: real,
               strokeColor: string, fillColor: Option<string>, strokeWidth: int)
    | Line(startX: real, startY: real, endX: real, endY: real, color: string, strokeWidth: int)
    | Highlight(color: string, strokeWidth: int, points: seq<Point>)

  /** An annotation: the shared envelope and its shape. */
  datatype Annotation = Annotation(
    id: string,
    x: real,
    y: real,
    width: real,
    height: real,
    hidden: Option<bool>,
    shape: Shape)

  /** The `type` tag of an annotation. */
  function TypeOf(s: Shape): (t: Tool)
    ensures t != Cursor && t != CropTool
  {
    match s
    case Rectangle(_, _, _) => RectangleTool
    case SpotlightArea => SpotlightTool
    case PixelateArea(_) => PixelateTool
    case Text(_, _, _, _) => TextTool
    case Arrow(_, _, _, _, _, _) => ArrowTool
    case Ellipse(_, _, _, _, _, _, _) => EllipseTool
    case Line(_, _, _, _, _, _) => LineTool
    case Highlight(_, _, _) => HighlightTool
  }

  // ---------------------------------------------------------------------
  // Math.min / Math.max / Math.abs on reals
  // ---------------------------------------------------------------------

  function Min(a: real, b: real): real { if a <= b then a else b }

  function Max(a: real, b: real): real { if a >= b then a else b }

  function Abs(a: real): real { if a >= 0.0 then a else -a }

  /** `Math.min(...points.map(p => p.x))` for a non-empty list. */
  function MinX(ps: seq<Point>): (m: real)
    requires |ps| > 0
    ensures forall i :: 0 <= i < |ps| ==> m <= ps[i].x
  {
    if |ps| == 1 then ps[0].x
    else
      var rest := MinX(ps[1..]);
      assert forall i :: 1 <= i < |ps| ==> ps[i] == ps[1..][i - 1];
      Min(ps[0].x, rest)
  }

  function MaxX(ps: seq<Point>): (m: real)
    requires |ps| > 0
    ensures forall i :: 0 <= i < |ps| ==> ps[i].x <= m
  {
    if |ps| == 1 then ps[0].x
    else
      var rest := MaxX(ps[1..]);
      assert forall i :: 1 <= i < |ps| ==> ps[i] == ps[1..][i - 1];
      Max(ps[0].x, rest)
  }

  function MinY(ps: seq<Point>): (m: real)
    requires |ps| > 0
    ensures forall i :: 0 <= i < |ps| ==> m <= ps[i].y
  {
    if |ps| == 1 then ps[0].y
    else
      var rest := MinY(ps[1..]);
      assert forall i :: 1 <= i < |ps| ==> ps[i] == ps[1..][i - 1];
      Min(ps[0].y, rest)
  }

  function MaxY(ps: seq<Point>): (m: real)
    requires |ps| > 0
    ensures forall i :: 0 <= i < |ps| ==> ps[i].y <= m
  {
    if |ps| == 1 then ps[0].y
    else
      var rest := MaxY(ps[1..]);
      assert forall i :: 1 <= i < |ps| ==> ps[i] == ps[1..][i - 1];
      Max(ps[0].y, rest)
  }

  /** `MinX` is the x of one of the points. */
  lemma {:induction false} MinXAttained(ps: seq<Point>)
    requires |ps| > 0
    ensures exists i :: 0 <= i < |ps| && MinX(ps) == ps[i].x
    decreases |ps|
  {
    if |ps| == 1 || MinX(ps) == ps[0].x {
      assert MinX(ps) == ps[0].x;
    } else {
      MinXAttained(ps[1..]);
      var i :| 0 <= i < |ps[1..]| && MinX(ps[1..]) == ps[1..][i].x;
      assert ps[1..][i] == ps[i + 1];
      assert MinX(ps) == ps[i + 1].x;
    }
  }

  /** `MaxX` is the x of one of the points. */
  lemma {:induction false} MaxXAttained(ps: seq<Point>)
    requires |ps| > 0
    ensures exists i :: 0 <= i < |ps| && MaxX(ps) == ps[i].x
    decreases |ps|
  {
    if |ps| == 1 || MaxX(ps) == ps[0].x {
      assert MaxX(ps) == ps[0].x;
    } else {
      MaxXAttained(ps[1..]);
      var i :| 0 <= i < |ps[1..]| && MaxX(ps[1..]) == ps[1..][i].x;
      assert ps[1..][i] == ps[i + 1];
      assert MaxX(ps) == ps[i + 1].x;
    }
  }

  /** `MinY` is the y of one of the points. */
  lemma {:induction false} MinYAttained(ps: seq<Point>)
    requires |ps| > 0
    ensures exists i :: 0 <= i < |ps| && MinY(ps) == ps[i].y
    decreases |ps|
  {
    if |ps| == 1 || MinY(ps) == ps[0].y {
      assert MinY(ps) == ps[0].y;
    } else {
      MinYAttained(ps[1..]);
      var i :| 0 <= i < |ps[1..]| && MinY(ps[1..]) == ps[1..][i].y;
      assert ps[1..][i] == ps[i + 1];
      assert MinY(ps) == ps[i + 1].y;
    }
  }

  /** `MaxY` is the y of one of the points. */
  lemma {:induction false} MaxYAttained(ps: seq<Point>)
    requires |ps| > 0
    ensures exists i :: 0 <= i < |ps| && MaxY(ps) == ps[i].y
    decreases |ps|
  {
    if |ps| == 1 || MaxY(ps) == ps[0].y {
      assert MaxY(ps) == ps[0].y;
    } else {
      MaxYAttained(ps[1..]);
      var i :| 0 <= i < |ps[1..]| && MaxY(ps[1..]) == ps[1..][i].y;
      assert ps[1..][i] == ps[i + 1];
      assert MaxY(ps) == ps[i + 1].y;
    }
  }

  // ---------------------------------------------------------------------
  // Envelope consistency
  // ---------------------------------------------------------------------

  /** The envelope of a segment from (x1, y1) to (x2, y2). */
  predicate SegmentEnvelope(a: Annotation, x1: real, y1: real, x2: real, y2: real)
  {
    && a.x == Min(x1, x2) && a.y == Min(y1, y2)
    && a.width == Abs(x1 - x2) && a.height == Abs(y1 - y2)
  }

  /** The envelope of a freehand stroke: the bounding box of its points. */
  predicate PointsEnvelope(a: Annotation, ps: seq<Point>)
  {
    && |ps| > 0
    && a.x == MinX(ps) && a.y == MinY(ps)
    && a.width == MaxX(ps) - MinX(ps) && a.height == MaxY(ps) - MinY(ps)
  }

  /**
   * The relation between the envelope and the variant's own coordinates that
   * the canvas establishes when it commits a shape: segments span their
   * endpoints, an ellipse is inscribed in its envelope, a highlight is
   * bounded by its points, and boxes have no negative side.
   */
  predicate Consistent(a: Annotation)
  {
    match a.shape
    case Arrow(sx, sy, ex, ey, _, _) => SegmentEnvelope(a, sx, sy, ex, ey)
    case Line(sx, sy, ex, ey, _, _) => SegmentEnvelope(a, sx, sy, ex, ey)
    case Ellipse(cx, cy, rx, ry, _, _, _) =>
      && cx - a.x == rx && cy - a.y == ry
      && a.width == 2.0 * rx && a.height == 2.0 * ry
    case Highlight(_, _, ps) => PointsEnvelope(a, ps)
    case Text(_, _, _, _) => true
    case _ => a.width >= 0.0 && a.height >= 0.0
  }

  // ---------------------------------------------------------------------
  // Translation (one drag frame applied to one annotation)
  // ---------------------------------------------------------------------

  /** Every point moved by (dx, dy). */
  function Shift(ps: seq<Point>, dx: real, dy: real): (r: seq<Point>)
    ensures |r| == |ps|
    ensures forall i :: 0 <= i < |ps| ==> r[i] == Point(ps[i].x + dx, ps[i].y + dy)
  {
    seq(|ps|, i requires 0 <= i < |ps| => Point(ps[i].x + dx, ps[i].y + dy))
  }

  /** The variant's own coordinates moved by (dx, dy); a no-op for boxes and text. */
  function ShiftShape(s: Shape, dx: real, dy: real): Shape
  {
    match s
    case Arrow(sx, sy, ex, ey, c, w) => Arrow(sx + dx, sy + dy, ex + dx, ey + dy, c, w)
    case Line(sx, sy, ex, ey, c, w) => Line(sx + dx, sy + dy, ex + dx, ey + dy, c, w)
    case Ellipse(cx, cy, rx, ry, sc, fc, w) => Ellipse(cx + dx, cy + dy, rx, ry, sc, fc, w)
    case Highlight(c, w, ps) => Highlight(c, w, Shift(ps, dx, dy))
    case _ => s
  }

  /**
   * The update a drag frame makes to the dragged annotation: the envelope's
   * corner moves to (nx, ny) and the variant coordinates follow by the same
   * delta.
   */
  function Translate(a: Annotation, nx: real, ny: real): (r: Annotation)
    ensures r.x == nx && r.y == ny
    ensures r.id == a.id && r.width == a.width && r.height == a.height && r.hidden == a.hidden
    ensures TypeOf(r.shape) == TypeOf(a.shape)
  {
    a.(x := nx, y := ny, shape := ShiftShape(a.shape, nx - a.x, ny - a.y))
  }

  /** Shifting does not change the kind, colours, widths or text of a shape. */
  predicate SameStyle(s: Shape, t: Shape)
  {
    match s
    case Rectangle(_, _, _) => s == t
    case SpotlightArea => s == t
    case PixelateArea(_) => s == t
    case Text(_, _, _, _) => s == t
    case Arrow(_, _, _, _, c, w) => t.Arrow? && t.color == c && t.strokeWidth == w
    case Line(_, _, _, _, c, w) => t.Line? && t.color == c && t.strokeWidth == w
    case Ellipse(_, _, rx, ry, sc, fc, w) =>
      t.Ellipse? && t.radiusX == rx && t.radiusY == ry
      && t.strokeColor == sc && t.fillColor == fc && t.strokeWidth == w
    case Highlight(c, w, ps) => t.Highlight? && t.color == c && t.strokeWidth == w && |t.points| == |ps|
  }

  lemma TranslateKeepsStyle(a: Annotation, nx: real, ny: real)
    ensures SameStyle(a.shape, Translate(a, nx, ny).shape)
  {
  }

  lemma {:induction false} MinXShift(ps: seq<Point>, dx: real, dy: real)
    requires |ps| > 0
    ensures MinX(Shift(ps, dx, dy)) == MinX(ps) + dx
    decreases |ps|
  {
    if |ps| > 1 {
      assert Shift(ps, dx, dy)[1..] == Shift(ps[1..], dx, dy);
      MinXShift(ps[1..], dx, dy);
    }
  }

  lemma {:induction false} MaxXShift(ps: seq<Point>, dx: real, dy: real)
    requires |ps| > 0
    ensures MaxX(Shift(ps, dx, dy)) == MaxX(ps) + dx
    decreases |ps|
  {
    if |ps| > 1 {
      assert Shift(ps, dx, dy)[1..] == Shift(ps[1..], dx, dy);
      MaxXShift(ps[1..], dx, dy);
    }
  }

  lemma {:induction false} MinYShift(ps: seq<Point>, dx: real, dy: real)
    requires |ps| > 0
    ensures MinY(Shift(ps, dx, dy)) == MinY(ps) + dy
    decreases |ps|
  {
    if |ps| > 1 {
      assert Shift(ps, dx, dy)[1..] == Shift(ps[1..], dx, dy);
      MinYShift(ps[1..], dx, dy);
    }
  }

  lemma {:induction false} MaxYShift(ps: seq<Point>, dx: real, dy: real)
    requires |ps| > 0
    ensures MaxY(Shift(ps, dx, dy)) == MaxY(ps) + dy
    decreases |ps|
  {
    if |ps| > 1 {
      assert Shift(ps, dx, dy)[1..] == Shift(ps[1..], dx, dy);
      MaxYShift(ps[1..], dx, dy);
    }
  }

  /** Moving every point moves the bounding box by the same delta. */
  lemma PointsEnvelopeShift(a: Annotation, b: Annotation, ps: seq<Point>)
    requires PointsEnvelope(a, ps)
    requires b.width == a.width && b.height == a.height
    ensures PointsEnvelope(b, Shift(ps, b.x - a.x, b.y - a.y))
  {
    var dx, dy := b.x - a.x, b.y - a.y;
    var qs := Shift(ps, dx, dy);
    MinXShift(ps, dx, dy);
    MaxXShift(ps, dx, dy);
    MinYShift(ps, dx, dy);
    MaxYShift(ps, dx, dy);
    EnvelopeMoves(a, b, ps, qs, dx, dy);
  }

  /** Extremes that all move by (dx, dy) keep the envelope of a box moved by (dx, dy). */
  lemma EnvelopeMoves(a: Annotation, b: Annotation, ps: seq<Point>, qs: seq<Point>, dx: real, dy: real)
    requires PointsEnvelope(a, ps) && |qs| > 0
    requires b.width == a.width && b.height == a.height && b.x == a.x + dx && b.y == a.y + dy
    requires MinX(qs) == MinX(ps) + dx && MaxX(qs) == MaxX(ps) + dx
    requires MinY(qs) == MinY(ps) + dy && MaxY(qs) == MaxY(ps) + dy
    ensures PointsEnvelope(b, qs)
  {
  }

  lemma SegmentShift(a: Annotation, b: Annotation, x1: real, y1: real, x2: real, y2: real)
    requires SegmentEnvelope(a, x1, y1, x2, y2)
    requires b.width == a.width && b.height == a.height
    ensures SegmentEnvelope(b, x1 + (b.x - a.x), y1 + (b.y - a.y), x2 + (b.x - a.x), y2 + (b.y - a.y))
  {
  }

  lemma HighlightTranslateConsistent(a: Annotation, nx: real, ny: real)
    requires Consistent(a) && a.shape.Highlight?
    ensures Consistent(Translate(a, nx, ny))
  {
    var b := Translate(a, nx, ny);
    var ps := a.shape.points;
    assert b.shape == Highlight(a.shape.color, a.shape.strokeWidth, Shift(ps, b.x - a.x, b.y - a.y));
    PointsEnvelopeShift(a, b, ps);
  }

  lemma SegmentTranslateConsistent(a: Annotation, nx: real, ny: real)
    requires Consistent(a) && (a.shape.Arrow? || a.shape.Line?)
    ensures Consistent(Translate(a, nx, ny))
  {
    SegmentShift(a, Translate(a, nx, ny), a.shape.startX, a.shape.startY, a.shape.endX, a.shape.endY);
  }

  /** A drag frame keeps the envelope consistent with the variant geometry. */
  lemma TranslateConsistent(a: Annotation, nx: real, ny: real)
    requires Consistent(a)
    ensures Consistent(Translate(a, nx, ny))
  {
    if a.shape.Highlight? {
      HighlightTranslateConsistent(a, nx, ny);
    } else if a.shape.Arrow? || a.shape.Line? {
      SegmentTranslateConsistent(a, nx, ny);
    }
  }

  /** Dragging back to the old corner restores the annotation exactly. */
  lemma TranslateBack(a: Annotation, nx: real, ny: real)
    ensures Translate(Translate(a, nx, ny), a.x, a.y) == a
  {
    if a.shape.Highlight? {
      var ps := a.shape.points;
      var back := Shift(Shift(ps, nx - a.x, ny - a.y), a.x - nx, a.y - ny);
      assert back == ps;
    }
  }

  /** Two drag frames in a row are the same as the last one alone. */
  lemma TranslateTwice(a: Annotation, x1: real, y1: real, x2: real, y2: real)
    ensures Translate(Translate(a, x1, y1), x2, y2) == Translate(a, x2, y2)
  {
    if a.shape.Highlight? {
      ShiftShift(a.shape.points, x1 - a.x, y1 - a.y, x2 - x1, y2 - y1);
    }
  }

  lemma ShiftShift(ps: seq<Point>, dx1: real, dy1: real, dx2: real, dy2: real)
    ensures Shift(Shift(ps, dx1, dy1), dx2, dy2) == Shift(ps, dx1 + dx2, dy1 + dy2)
  {
    var l, r := Shift(Shift(ps, dx1, dy1), dx2, dy2), Shift(ps, dx1 + dx2, dy1 + dy2);
    forall i | 0 <= i < |ps|
      ensures l[i] == r[i]
    {
    }
  }
}
