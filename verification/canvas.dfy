/**
 * The interaction logic of components/annotation-canvas.tsx, lifted out of
 * React: the editor state is one immutable record, and each handler is a
 * function from the state (and the event's data) to the next state.
 *
 * The annotations live in a snapshot history (hooks/use-history.ts); every
 * change to them goes through `History.Set`, so a change that leaves the list
 * equal is not recorded.
 *
 * What the browser supplies is passed in: the pointer position already mapped
 * to canvas coordinates, whether the click landed on the text card, the
 * width `measureText` reports (or None when there is no 2D context), and the
 * id `Date.now().toString()` would produce.
 */
module Canvas {

  import opened Wrappers
  import opened Annotations
  import Colors
  import History

  // ---------------------------------------------------------------------
  // Style settings
  // ---------------------------------------------------------------------

  /** The drawing settings the toolbar edits. */
  datatype Style = Style(
    strokeColor: string,
    fillColor: string,
    useFill: bool,
    strokeWidth: int,
    spotlightDarkness: real,
    pixelSize: int,
    fontSize: int,
    fontFamily: string,
    highlightColor: string,
    highlightStrokeWidth: int)

  /** The settings a fresh canvas starts with. */
  const DefaultStyle: Style := Style(
    Colors.DefaultStrokeColor, Colors.DefaultFillColor, false, 3, 0.7,
    Colors.DefaultPixelSize, 24, "Arial", Colors.DefaultHighlightColor, 15)

  // ---------------------------------------------------------------------
  // Editor state
  // ---------------------------------------------------------------------

  datatype Editor = Editor(
    history: History.History<seq<Annotation>>,
    tool: Tool,
    hasImage: bool,
    selected: Option<string>,
    dragging: bool,
    dragOffset: Option<Point>,
    drawing: bool,
    start: Option<Point>,
    end: Option<Point>,
    points: seq<Point>,
    textInput: Option<Point>,
    text: string,
    style: Style)

  function Annos(e: Editor): seq<Annotation>
  {
    e.history.present
  }

  /** The editor as it opens: no annotations, cursor tool, default style. */
  function Initial(hasImage: bool): (e: Editor)
    ensures Annos(e) == [] && e.tool == Cursor && e.selected == None
    ensures e.style == DefaultStyle
  {
    Editor(History.Init([]), Cursor, hasImage, None, false, None, false, None, None, [], None, "",
           DefaultStyle)
  }

  /** `selectedAnnotationId` is truthy: present and not the empty string. */
  predicate HasSelection(e: Editor)
  {
    e.selected.Some? && e.selected.value != ""
  }

  /** Replaces the annotation list through the history. */
  function Commit(e: Editor, annos: seq<Annotation>): (r: Editor)
    ensures Annos(r) == annos
    ensures r == e.(history := r.history)
  {
    e.(history := History.Set(e.history, annos))
  }

  // ---------------------------------------------------------------------
  // Hit test
  // ---------------------------------------------------------------------

  /** `isPointInRect` against an annotation's envelope; every edge counts. */
  predicate InRect(p: Point, a: Annotation)
  {
    p.x >= a.x && p.x <= a.x + a.width && p.y >= a.y && p.y <= a.y + a.height
  }

  /** The hit test's answer `i` for `p`: `i` contains `p` and nothing above it does. */
  predicate IsTopmost(annos: seq<Annotation>, p: Point, i: int)
  {
    && 0 <= i < |annos|
    && InRect(p, annos[i])
    && forall j :: i < j < |annos| ==> !InRect(p, annos[j])
  }

  /** The highest-index annotation whose envelope contains `p`. */
  function Topmost(annos: seq<Annotation>, p: Point): (r: Option<nat>)
    ensures r.Some? ==> IsTopmost(annos, p, r.value)
    ensures r.None? ==> forall j :: 0 <= j < |annos| ==> !InRect(p, annos[j])
  {
    if |annos| == 0 then None
    else if InRect(p, annos[|annos| - 1]) then Some(|annos| - 1)
    else Topmost(annos[..|annos| - 1], p)
  }

  /** At most one index is topmost. */
  lemma TopmostUnique(annos: seq<Annotation>, p: Point, i: int, k: int)
    requires IsTopmost(annos, p, i) && IsTopmost(annos, p, k)
    ensures i == k
  {
  }

  /** The loop of `handleMouseDown`: scan from the top of the stack down. */
  method HitTest(annos: seq<Annotation>, p: Point) returns (r: Option<nat>)
    ensures r.Some? ==> IsTopmost(annos, p, r.value)
    ensures r.None? ==> forall j :: 0 <= j < |annos| ==> !InRect(p, annos[j])
  {
    var i := |annos|;
    while i > 0
      invariant 0 <= i <= |annos|
      invariant forall j :: i <= j < |annos| ==> !InRect(p, annos[j])
    {
      if InRect(p, annos[i - 1]) {
        return Some(i - 1);
      }
      i := i - 1;
    }
    return None;
  }

  /** The method and the function agree. */
  lemma HitTestIsTopmost(annos: seq<Annotation>, p: Point, r: Option<nat>)
    requires r.Some? ==> IsTopmost(annos, p, r.value)
    requires r.None? ==> forall j :: 0 <= j < |annos| ==> !InRect(p, annos[j])
    ensures r == Topmost(annos, p)
  {
    match r
    case Some(i) =>
      TopmostUnique(annos, p, i, Topmost(annos, p).value);
    case None =>
  }

  // ---------------------------------------------------------------------
  // Dragging
  // ---------------------------------------------------------------------

  /** One drag frame: every annotation with the selected id moves to (nx, ny). */
  function DragFrame(annos: seq<Annotation>, sel: string, nx: real, ny: real): (r: seq<Annotation>)
    ensures |r| == |annos|
  {
    seq(|annos|, i requires 0 <= i < |annos| =>
      if annos[i].id == sel then Translate(annos[i], nx, ny) else annos[i])
  }

  /** Only the selected annotation changes; order, ids and sizes stay. */
  lemma DragFrameOnlySelected(annos: seq<Annotation>, sel: string, nx: real, ny: real)
    ensures forall i :: 0 <= i < |annos| && annos[i].id != sel ==> DragFrame(annos, sel, nx, ny)[i] == annos[i]
    ensures forall i :: 0 <= i < |annos| ==>
      && DragFrame(annos, sel, nx, ny)[i].id == annos[i].id
      && DragFrame(annos, sel, nx, ny)[i].width == annos[i].width
      && DragFrame(annos, sel, nx, ny)[i].height == annos[i].height
      && SameStyle(annos[i].shape, DragFrame(annos, sel, nx, ny)[i].shape)
    ensures forall i :: 0 <= i < |annos| && annos[i].id == sel ==>
      DragFrame(annos, sel, nx, ny)[i].x == nx && DragFrame(annos, sel, nx, ny)[i].y == ny
  {
    forall i | 0 <= i < |annos|
      ensures SameStyle(annos[i].shape, DragFrame(annos, sel, nx, ny)[i].shape)
    {
      TranslateKeepsStyle(annos[i], nx, ny);
    }
  }

  predicate AllConsistent(annos: seq<Annotation>)
  {
    forall i :: 0 <= i < |annos| ==> Consistent(annos[i])
  }

  lemma DragFrameConsistent(annos: seq<Annotation>, sel: string, nx: real, ny: real)
    requires AllConsistent(annos)
    ensures AllConsistent(DragFrame(annos, sel, nx, ny))
  {
    forall i | 0 <= i < |annos|
      ensures Consistent(DragFrame(annos, sel, nx, ny)[i])
    {
      if annos[i].id == sel {
        TranslateConsistent(annos[i], nx, ny);
      }
    }
  }

  /** Dragging a uniquely named annotation back to where it was restores the list. */
  lemma DragFrameBack(annos: seq<Annotation>, k: nat, nx: real, ny: real)
    requires k < |annos|
    requires forall i :: 0 <= i < |annos| && i != k ==> annos[i].id != annos[k].id
    ensures DragFrame(DragFrame(annos, annos[k].id, nx, ny), annos[k].id, annos[k].x, annos[k].y) == annos
  {
    var sel := annos[k].id;
    var once := DragFrame(annos, sel, nx, ny);
    var twice := DragFrame(once, sel, annos[k].x, annos[k].y);
    forall i | 0 <= i < |annos|
      ensures twice[i] == annos[i]
    {
      if i == k {
        TranslateBack(annos[k], nx, ny);
      }
    }
  }

  // ---------------------------------------------------------------------
  // Committing a drawn shape
  // ---------------------------------------------------------------------

  /** The fill a new rectangle or ellipse gets. */
  function NewFill(s: Style): Option<string>
  {
    if s.useFill then Some(s.fillColor) else None
  }

  /** A freehand highlight over `ps`, boxed by its points. */
  function HighlightOf(ps: seq<Point>, s: Style, id: string): (a: Annotation)
    requires |ps| > 0
    ensures a.shape == Highlight(s.highlightColor, s.highlightStrokeWidth, ps)
    ensures a.id == id && a.hidden == None
  {
    Annotation(id, MinX(ps), MinY(ps), MaxX(ps) - MinX(ps), MaxY(ps) - MinY(ps), None,
               Highlight(s.highlightColor, s.highlightStrokeWidth, ps))
  }

  /**
   * The annotation `handleMouseUp` builds for the current tool from the
   * anchor `p`, the end point `q` and the freehand points, if any.
   */
  function NewShape(t: Tool, p: Point, q: Point, ps: seq<Point>, s: Style, id: string): Option<Annotation>
  {
    var x, y := Min(p.x, q.x), Min(p.y, q.y);
    var w, h := Abs(p.x - q.x), Abs(p.y - q.y);
    match t
    case RectangleTool =>
      Some(Annotation(id, x, y, w, h, None, Rectangle(s.strokeColor, NewFill(s), s.strokeWidth)))
    case SpotlightTool =>
      Some(Annotation(id, x, y, w, h, None, SpotlightArea))
    case PixelateTool =>
      Some(Annotation(id, x, y, w, h, None, PixelateArea(s.pixelSize)))
    case ArrowTool =>
      Some(Annotation(id, x, y, w, h, None, Arrow(p.x, p.y, q.x, q.y, s.strokeColor, s.strokeWidth)))
    case EllipseTool =>
      var rx, ry := w / 2.0, h / 2.0;
      Some(Annotation(id, x, y, w, h, None,
                      Ellipse(x + rx, y + ry, rx, ry, s.strokeColor, NewFill(s), s.strokeWidth)))
    case LineTool =>
      Some(Annotation(id, x, y, w, h, None, Line(p.x, p.y, q.x, q.y, s.strokeColor, s.strokeWidth)))
    case HighlightTool =>
      if |ps| > 1 then Some(HighlightOf(ps, s, id)) else None
    case _ => None
  }

  /** Every committed shape has its envelope consistent with its geometry. */
  lemma NewShapeConsistent(t: Tool, p: Point, q: Point, ps: seq<Point>, s: Style, id: string)
    ensures NewShape(t, p, q, ps, s, id).Some? ==> Consistent(NewShape(t, p, q, ps, s, id).value)
  {
  }

  /**
   * A box-drawn shape spans the anchor and end point: its corner is the
   * smaller coordinate and its sides the distances, never negative; it is
   * of the tool's type and carries the new id.
   */
  lemma NewShapeEnvelope(t: Tool, p: Point, q: Point, ps: seq<Point>, s: Style, id: string)
    requires t != HighlightTool
    ensures NewShape(t, p, q, ps, s, id).Some? <==> t !in {Cursor, TextTool, CropTool}
    ensures NewShape(t, p, q, ps, s, id).Some? ==>
      var a := NewShape(t, p, q, ps, s, id).value;
      && a.x == Min(p.x, q.x) && a.y == Min(p.y, q.y)
      && a.width == Abs(p.x - q.x) && a.height == Abs(p.y - q.y)
      && a.width >= 0.0 && a.height >= 0.0
      && a.x <= p.x && a.x <= q.x && p.x <= a.x + a.width && q.x <= a.x + a.width
      && TypeOf(a.shape) == t && a.id == id
  {
  }

  /** Rectangles and ellipses are filled exactly when fill is switched on. */
  lemma NewShapeFill(t: Tool, p: Point, q: Point, ps: seq<Point>, s: Style, id: string)
    requires t == RectangleTool || t == EllipseTool
    ensures NewShape(t, p, q, ps, s, id).Some?
    ensures NewShape(t, p, q, ps, s, id).value.shape.fillColor.Some? <==> s.useFill
    ensures s.useFill ==> NewShape(t, p, q, ps, s, id).value.shape.fillColor == Some(s.fillColor)
  {
  }

  /** A new ellipse is inscribed in the dragged box: radii are half the sides. */
  lemma NewEllipse(p: Point, q: Point, ps: seq<Point>, s: Style, id: string)
    ensures var a := NewShape(EllipseTool, p, q, ps, s, id).value;
      && a.shape.radiusX == a.width / 2.0 && a.shape.radiusY == a.height / 2.0
      && a.shape.centerX == a.x + a.shape.radiusX && a.shape.centerY == a.y + a.shape.radiusY
  {
  }

  /** A highlight needs more than one point, and is boxed by them. */
  lemma NewHighlight(p: Point, q: Point, ps: seq<Point>, s: Style, id: string)
    ensures NewShape(HighlightTool, p, q, ps, s, id).Some? <==> |ps| > 1
    ensures |ps| > 1 ==>
      var a := NewShape(HighlightTool, p, q, ps, s, id).value;
      && (forall i :: 0 <= i < |ps| ==>
            a.x <= ps[i].x <= a.x + a.width && a.y <= ps[i].y <= a.y + a.height)
      && a.shape.points == ps
  {
  }

  // ---------------------------------------------------------------------
  // Mouse handlers
  // ---------------------------------------------------------------------

  /**
   * `handleMouseDown`. With the cursor it selects the topmost annotation
   * under `pos` and starts dragging it, or clears the selection on a miss;
   * with the text tool it opens the text input; with any other tool it
   * starts drawing (a highlight also starts its point list).
   */
  function MouseDown(e: Editor, pos: Point, onTextCard: bool): Editor
  {
    if !e.hasImage || (e.textInput.Some? && onTextCard) then e
    else if e.tool == Cursor then
      match Topmost(Annos(e), pos)
      case Some(i) =>
        var a := Annos(e)[i];
        e.(selected := Some(a.id), dragging := true,
           dragOffset := Some(Point(pos.x - a.x, pos.y - a.y)),
           start := Some(pos), drawing := false)
      case None =>
        e.(selected := None, dragging := false, drawing := false)
    else
      var e1 := e.(selected := None);
      if e.tool == TextTool then e1.(textInput := Some(pos), text := "", drawing := false)
      else
        e1.(drawing := true, start := Some(pos), end := Some(pos),
            points := if e.tool == HighlightTool then [pos] else e.points)
  }

  /** A cursor click selects what the hit test finds, or clears the selection and starts no drag. */
  lemma MouseDownCursor(e: Editor, pos: Point, onTextCard: bool)
    requires e.hasImage && !(e.textInput.Some? && onTextCard) && e.tool == Cursor
    ensures var r := MouseDown(e, pos, onTextCard);
      && Annos(r) == Annos(e) && !r.drawing
      && match Topmost(Annos(e), pos)
         case Some(i) =>
           && r.selected == Some(Annos(e)[i].id) && r.dragging
           && r.dragOffset == Some(Point(pos.x - Annos(e)[i].x, pos.y - Annos(e)[i].y))
         case None => r.selected == None && !r.dragging
  {
  }

  /** The position the dragged annotation's corner goes to for pointer `pos`. */
  function DragTarget(pos: Point, offset: Point): Point
  {
    Point(pos.x - offset.x, pos.y - offset.y)
  }

  /**
   * `handleMouseMove`: a drag frame while dragging, otherwise the end point
   * (and, for a highlight, the point list) follows the pointer while drawing.
   */
  function MouseMove(e: Editor, pos: Point): Editor
  {
    if !e.hasImage || (!e.drawing && !e.dragging) then e
    else if e.dragging && HasSelection(e) && e.dragOffset.Some? && e.start.Some? then
      var t := DragTarget(pos, e.dragOffset.value);
      Commit(e, DragFrame(Annos(e), e.selected.value, t.x, t.y))
    else if e.drawing && e.start.Some? && e.tool != Cursor && e.tool != TextTool then
      e.(end := Some(pos), points := if e.tool == HighlightTool then e.points + [pos] else e.points)
    else e
  }

  /** Clears the in-progress gesture. */
  function EndGesture(e: Editor): Editor
  {
    e.(drawing := false, start := None, end := None)
  }

  /** Adds a new annotation on top of the stack. */
  function Append(e: Editor, a: Annotation): (r: Editor)
    ensures Annos(r) == Annos(e) + [a]
  {
    Commit(e, Annos(e) + [a])
  }

  /**
   * `handleMouseUp`: ends a drag or a gesture; when a shape was being drawn
   * it is committed unless it has neither width nor height (highlights are
   * exempt from that test, but need more than one point).
   */
  function MouseUp(e: Editor, id: string): Editor
  {
    if e.dragging then e.(dragging := false)
    else if e.tool == Cursor || e.tool == TextTool then EndGesture(e)
    else if !e.drawing || !e.hasImage || e.start.None? || e.end.None? then
      var e1 := if e.tool == HighlightTool && |e.points| > 1
                then Append(e, HighlightOf(e.points, e.style, id)) else e;
      EndGesture(e1).(points := [])
    else
      var p, q := e.start.value, e.end.value;
      if Abs(p.x - q.x) == 0.0 && Abs(p.y - q.y) == 0.0 && e.tool != HighlightTool then EndGesture(e)
      else
        var e1 := match NewShape(e.tool, p, q, e.points, e.style, id)
                  case Some(a) => Append(e, a)
                  case None => e;
        EndGesture(e1).(points := [])
  }

  /** The gesture `MouseUp` commits: drawing with an image, both points known. */
  predicate Drawn(e: Editor)
  {
    && !e.dragging && e.tool != Cursor && e.tool != TextTool
    && e.drawing && e.hasImage && e.start.Some? && e.end.Some?
  }

  /** A box tool released where it was pressed adds nothing. */
  lemma ZeroSizeDiscarded(e: Editor, id: string)
    requires Drawn(e) && e.tool != HighlightTool && e.start == e.end
    ensures Annos(MouseUp(e, id)) == Annos(e)
    ensures MouseUp(e, id).history == e.history
  {
  }

  /** Any other box-tool gesture adds exactly its new shape on top. */
  lemma NonZeroCommitted(e: Editor, id: string)
    requires Drawn(e) && e.tool !in {HighlightTool, CropTool}
    requires e.start.value.x != e.end.value.x || e.start.value.y != e.end.value.y
    ensures NewShape(e.tool, e.start.value, e.end.value, e.points, e.style, id).Some?
    ensures Annos(MouseUp(e, id))
         == Annos(e) + [NewShape(e.tool, e.start.value, e.end.value, e.points, e.style, id).value]
  {
  }

  /** A highlight gesture adds one annotation exactly when it has more than one point. */
  lemma HighlightCommitted(e: Editor, id: string)
    requires !e.dragging && e.tool == HighlightTool
    ensures |e.points| > 1 ==> Annos(MouseUp(e, id)) == Annos(e) + [HighlightOf(e.points, e.style, id)]
    ensures |e.points| <= 1 ==> Annos(MouseUp(e, id)) == Annos(e)
    ensures MouseUp(e, id).points == [] && !MouseUp(e, id).drawing
  {
  }

  // ---------------------------------------------------------------------
  // Text
  // ---------------------------------------------------------------------

  /** `!text.trim()`: nothing but white space. */
  predicate Blank(s: string)
  {
    forall i :: 0 <= i < |s| ==> Colors.IsJsSpace(s[i])
  }

  /**
   * `handleTextSubmit`. A blank text only closes the input; with no 2D
   * context (`measured` is None) nothing happens; otherwise a text annotation
   * at the input position, as wide as measured and as tall as the font size.
   */
  function TextSubmit(e: Editor, measured: Option<real>, id: string): Editor
  {
    if e.textInput.None? || Blank(e.text) then e.(textInput := None, text := "")
    else if measured.None? then e
    else
      var p := e.textInput.value;
      var a := Annotation(id, p.x, p.y, measured.value, e.style.fontSize as real, None,
                          Text(e.text, e.style.strokeColor, e.style.fontSize, e.style.fontFamily));
      Append(e, a).(textInput := None, text := "")
  }

  lemma TextSubmitOutcome(e: Editor, measured: Option<real>, id: string)
    ensures e.textInput.None? || Blank(e.text) ==>
      var r := TextSubmit(e, measured, id);
      Annos(r) == Annos(e) && r.textInput == None && r.text == ""
    ensures e.textInput.Some? && !Blank(e.text) && measured.Some? ==>
      var r := TextSubmit(e, measured, id);
      && |Annos(r)| == |Annos(e)| + 1
      && Annos(r)[..|Annos(e)|] == Annos(e)
      && r.textInput == None && r.text == ""
      && (var a := Annos(r)[|Annos(e)|];
          && a.x == e.textInput.value.x && a.y == e.textInput.value.y
          && a.width == measured.value && a.height == e.style.fontSize as real
          && a.shape == Text(e.text, e.style.strokeColor, e.style.fontSize, e.style.fontFamily))
  {
  }

  // ---------------------------------------------------------------------
  // Delete
  // ---------------------------------------------------------------------

  /** `annos.filter(a => a.id !== id)`. */
  function Without(annos: seq<Annotation>, id: string): (r: seq<Annotation>)
    ensures |r| <= |annos|
    ensures forall i :: 0 <= i < |r| ==> r[i].id != id
  {
    if |annos| == 0 then []
    else if annos[0].id == id then Without(annos[1..], id)
    else [annos[0]] + Without(annos[1..], id)
  }

  /** Filtering keeps every other annotation, in the same order. */
  lemma {:induction false} WithoutKeeps(annos: seq<Annotation>, id: string, a: Annotation)
    ensures a in Without(annos, id) <==> a in annos && a.id != id
    decreases |annos|
  {
    if |annos| > 0 {
      WithoutKeeps(annos[1..], id, a);
      assert annos == [annos[0]] + annos[1..];
    }
  }

  /** Nothing to filter leaves the list as it was. */
  lemma {:induction false} WithoutAbsent(annos: seq<Annotation>, id: string)
    requires forall i :: 0 <= i < |annos| ==> annos[i].id != id
    ensures Without(annos, id) == annos
    decreases |annos|
  {
    if |annos| > 0 {
      WithoutAbsent(annos[1..], id);
      assert annos == [annos[0]] + annos[1..];
    }
  }

  /** `handleDeleteSelectedAnnotation`. */
  function DeleteSelected(e: Editor): Editor
  {
    if HasSelection(e) then Commit(e, Without(Annos(e), e.selected.value)).(selected := None)
    else e
  }

  /** Filtering a concatenation filters each part. */
  lemma {:induction false} WithoutAppend(xs: seq<Annotation>, ys: seq<Annotation>, id: string)
    ensures Without(xs + ys, id) == Without(xs, id) + Without(ys, id)
    decreases |xs|
  {
    if |xs| > 0 {
      WithoutAppend(xs[1..], ys, id);
      assert (xs + ys)[1..] == xs[1..] + ys;
    } else {
      assert xs + ys == ys;
    }
  }

  /** A single annotation is dropped exactly when it has the id. */
  lemma WithoutSingle(a: Annotation, id: string)
    ensures a.id == id ==> Without([a], id) == []
    ensures a.id != id ==> Without([a], id) == [a]
  {
    assert [a][1..] == [];
  }

  /**
   * Deleting drops exactly the selected annotation and keeps the others in
   * order: each kept one moves up by the number of dropped ones before it.
   */
  lemma DeleteSelectedOutcome(e: Editor)
    ensures HasSelection(e) ==>
      && DeleteSelected(e).selected == None
      && (forall a :: a in Annos(DeleteSelected(e)) <==> a in Annos(e) && a.id != e.selected.value)
      && (forall k :: 0 <= k < |Annos(e)| && Annos(e)[k].id != e.selected.value ==>
            var before := |Without(Annos(e)[..k], e.selected.value)|;
            before < |Annos(DeleteSelected(e))| && Annos(DeleteSelected(e))[before] == Annos(e)[k])
    ensures !HasSelection(e) ==> DeleteSelected(e) == e
  {
    if HasSelection(e) {
      var annos, id := Annos(e), e.selected.value;
      forall a
        ensures a in Annos(DeleteSelected(e)) <==> a in annos && a.id != id
      {
        WithoutKeeps(annos, id, a);
      }
      forall k | 0 <= k < |annos| && annos[k].id != id
        ensures |Without(annos[..k], id)| < |Without(annos, id)|
        ensures Without(annos, id)[|Without(annos[..k], id)|] == annos[k]
      {
        assert annos == annos[..k] + ([annos[k]] + annos[k + 1..]);
        WithoutAppend(annos[..k], [annos[k]] + annos[k + 1..], id);
        WithoutAppend([annos[k]], annos[k + 1..], id);
        WithoutSingle(annos[k], id);
      }
    }
  }

  // ---------------------------------------------------------------------
  // Style edits on the selected annotation
  // ---------------------------------------------------------------------

  /** The property/value pairs the settings toolbar sends to `handleSettingChange`. */
  datatype StyleEdit =
    | StrokeColorEdit(strokeColor: string)
    | StrokeWidthEdit(strokeWidth: int)
    | UseFillEdit(useFill: bool)
    | FillColorEdit(fillColor: string)
    | ColorEdit(color: string)
    | FontSizeEdit(fontSize: int)
    | FontFamilyEdit(fontFamily: string)
    | PixelSizeEdit(pixelSize: int)
    | HighlightColorEdit(highlightColor: string)

  /**
   * The edit applied to one annotation: the property is written where the
   * variant has it; `useFill` sets or clears the fill (to the current fill
   * colour), a stroke colour also becomes the `color` of text, arrows and
   * lines, and a highlight colour becomes a highlight's `color`.
   */
  function ApplyEdit(s: Shape, ed: StyleEdit, fill: string): Shape
  {
    match ed
    case StrokeColorEdit(c) =>
      (match s
       case Rectangle(_, f, w) => Rectangle(c, f, w)
       case Ellipse(cx, cy, rx, ry, _, f, w) => Ellipse(cx, cy, rx, ry, c, f, w)
       case Text(t, _, fs, ff) => Text(t, c, fs, ff)
       case Arrow(a, b, d, g, _, w) => Arrow(a, b, d, g, c, w)
       case Line(a, b, d, g, _, w) => Line(a, b, d, g, c, w)
       case _ => s)
    case StrokeWidthEdit(w) =>
      (match s
       case Rectangle(sc, f, _) => Rectangle(sc, f, w)
       case Ellipse(cx, cy, rx, ry, sc, f, _) => Ellipse(cx, cy, rx, ry, sc, f, w)
       case Arrow(a, b, d, g, c, _) => Arrow(a, b, d, g, c, w)
       case Line(a, b, d, g, c, _) => Line(a, b, d, g, c, w)
       case Highlight(c, _, ps) => Highlight(c, w, ps)
       case _ => s)
    case UseFillEdit(on) =>
      var f := if on then Some(fill) else None;
      (match s
       case Rectangle(sc, _, w) => Rectangle(sc, f, w)
       case Ellipse(cx, cy, rx, ry, sc, _, w) => Ellipse(cx, cy, rx, ry, sc, f, w)
       case _ => s)
    case FillColorEdit(c) =>
      (match s
       case Rectangle(sc, _, w) => Rectangle(sc, Some(c), w)
       case Ellipse(cx, cy, rx, ry, sc, _, w) => Ellipse(cx, cy, rx, ry, sc, Some(c), w)
       case _ => s)
    case ColorEdit(c) =>
      (match s
       case Text(t, _, fs, ff) => Text(t, c, fs, ff)
       case Arrow(a, b, d, g, _, w) => Arrow(a, b, d, g, c, w)
       case Line(a, b, d, g, _, w) => Line(a, b, d, g, c, w)
       case Highlight(_, w, ps) => Highlight(c, w, ps)
       case _ => s)
    case FontSizeEdit(n) =>
      (match s
       case Text(t, c, _, ff) => Text(t, c, n, ff)
       case _ => s)
    case FontFamilyEdit(n) =>
      (match s
       case Text(t, c, fs, _) => Text(t, c, fs, n)
       case _ => s)
    case PixelSizeEdit(n) =>
      (match s
       case PixelateArea(_) => PixelateArea(n)
       case _ => s)
    case HighlightColorEdit(c) =>
      (match s
       case Highlight(_, w, ps) => Highlight(c, w, ps)
       case _ => s)
  }

  /** `handleSettingChange`: only with the cursor and a selection, only on the selected annotation. */
  function SettingChange(e: Editor, ed: StyleEdit): Editor
  {
    if e.tool == Cursor && HasSelection(e) then
      var sel := e.selected.value;
      var annos := Annos(e);
      Commit(e, seq(|annos|, i requires 0 <= i < |annos| =>
        if annos[i].id == sel then annos[i].(shape := ApplyEdit(annos[i].shape, ed, e.style.fillColor))
        else annos[i]))
    else e
  }

  /** An edit leaves the geometry, kind and envelope of a shape alone. */
  lemma ApplyEditKeepsGeometry(a: Annotation, ed: StyleEdit, fill: string)
    ensures TypeOf(ApplyEdit(a.shape, ed, fill)) == TypeOf(a.shape)
    ensures Consistent(a) ==> Consistent(a.(shape := ApplyEdit(a.shape, ed, fill)))
  {
  }

  /**
   * The rules of a style edit: it applies only with the cursor and
   * a selection, touches only the selected annotation, turning fill off
   * clears the fill colour, and a stroke colour on text, arrows and lines is
   * written to their `color`.
   */
  lemma SettingChangeOutcome(e: Editor, ed: StyleEdit)
    ensures !(e.tool == Cursor && HasSelection(e)) ==> SettingChange(e, ed) == e
    ensures |Annos(SettingChange(e, ed))| == |Annos(e)|
    ensures forall i :: 0 <= i < |Annos(e)| ==>
      var a, b := Annos(e)[i], Annos(SettingChange(e, ed))[i];
      && b.id == a.id && b.x == a.x && b.y == a.y && b.width == a.width && b.height == a.height
      && b.hidden == a.hidden
      && (e.selected != Some(a.id) ==> b == a)
    ensures e.tool == Cursor && HasSelection(e) ==>
      forall i :: 0 <= i < |Annos(e)| && Annos(e)[i].id == e.selected.value ==>
        var a, b := Annos(e)[i].shape, Annos(SettingChange(e, ed))[i].shape;
        && (ed == UseFillEdit(false) && (a.Rectangle? || a.Ellipse?) ==> b.fillColor == None)
        && (ed.StrokeColorEdit? && (a.Text? || a.Arrow? || a.Line?) ==> b.color == ed.strokeColor)
  {
  }

  // ---------------------------------------------------------------------
  // Selecting loads the selected annotation's style into the toolbar
  // ---------------------------------------------------------------------

  /** `annos.find(a => a.id === id)`. */
  function FindById(annos: seq<Annotation>, id: string): (r: Option<nat>)
    ensures r.Some? ==> r.value < |annos| && annos[r.value].id == id
                        && forall j :: 0 <= j < r.value ==> annos[j].id != id
    ensures r.None? ==> forall j :: 0 <= j < |annos| ==> annos[j].id != id
  {
    if |annos| == 0 then None
    else if annos[0].id == id then Some(0)
    else match FindById(annos[1..], id)
         case Some(k) => Some(k + 1)
         case None => None
  }

  /** JavaScript truthiness of an optional colour. */
  predicate Filled(f: Option<string>)
  {
    f.Some? && f.value != ""
  }

  /** The toolbar settings after selecting an annotation of the given shape. */
  function Snapshot(s: Style, sh: Shape): Style
  {
    match sh
    case Rectangle(sc, f, w) =>
      s.(strokeColor := sc, strokeWidth := w, useFill := Filled(f),
         fillColor := if Filled(f) then f.value else Colors.DefaultFillColor)
    case Ellipse(_, _, _, _, sc, f, w) =>
      s.(strokeColor := sc, strokeWidth := w, useFill := Filled(f),
         fillColor := if Filled(f) then f.value else Colors.DefaultFillColor)
    case Text(_, c, fs, ff) => s.(strokeColor := c, fontSize := fs, fontFamily := ff)
    case Arrow(_, _, _, _, c, w) => s.(strokeColor := c, strokeWidth := w)
    case Line(_, _, _, _, c, w) => s.(strokeColor := c, strokeWidth := w)
    case Highlight(c, w, _) => s.(highlightColor := c, highlightStrokeWidth := w)
    case PixelateArea(n) => s.(pixelSize := n)
    case SpotlightArea => s
  }

  /** The selection effect: with the cursor and a selection found, the toolbar takes its style. */
  function SelectionSnapshot(e: Editor): Editor
  {
    if e.tool == Cursor && HasSelection(e) then
      match FindById(Annos(e), e.selected.value)
      case Some(i) => e.(style := Snapshot(e.style, Annos(e)[i].shape))
      case None => e
    else e
  }

  /** The rectangle and ellipse controls: stroke colour, width, the fill box, and the fill colour while it is ticked. */
  function BoxEchoes(s: Style): seq<StyleEdit>
  {
    [StrokeColorEdit(s.strokeColor), StrokeWidthEdit(s.strokeWidth), UseFillEdit(s.useFill)]
      + (if s.useFill then [FillColorEdit(s.fillColor)] else [])
  }

  /**
   * The edits the toolbar would send back with the values it just loaded
   * (what showing the selection and changing nothing amounts to), one per
   * control the toolbar shows for the shape's kind.
   */
  function EchoEdits(s: Style, sh: Shape): seq<StyleEdit>
  {
    match sh
    case Rectangle(_, _, _) => BoxEchoes(s)
    case Ellipse(_, _, _, _, _, _, _) => BoxEchoes(s)
    case Text(_, _, _, _) => [ColorEdit(s.strokeColor), FontSizeEdit(s.fontSize), FontFamilyEdit(s.fontFamily)]
    case Arrow(_, _, _, _, _, _) => [ColorEdit(s.strokeColor), StrokeWidthEdit(s.strokeWidth)]
    case Line(_, _, _, _, _, _) => [ColorEdit(s.strokeColor), StrokeWidthEdit(s.strokeWidth)]
    case Highlight(_, _, _) => [ColorEdit(s.highlightColor), StrokeWidthEdit(s.highlightStrokeWidth)]
    case PixelateArea(_) => [PixelSizeEdit(s.pixelSize)]
    case SpotlightArea => []
  }

  /**
   * Loading a shape's style and sending it straight back changes nothing,
   * except that an empty-string fill colour (falsy) is read as "no fill" and
   * so comes back as no fill at all.
   */
  lemma SnapshotEchoes(s: Style, sh: Shape, k: nat)
    requires k < |EchoEdits(Snapshot(s, sh), sh)|
    ensures var s2 := Snapshot(s, sh);
      (sh.Rectangle? || sh.Ellipse? ==> sh.fillColor != Some("")) ==>
        ApplyEdit(sh, EchoEdits(s2, sh)[k], s2.fillColor) == sh
  {
  }

  // ---------------------------------------------------------------------
  // Switching tools
  // ---------------------------------------------------------------------

  /** `switchTool`: any tool but the cursor drops the selection; leaving text closes its input. */
  function SwitchTool(e: Editor, t: Tool): Editor
  {
    var e1 := e.(tool := t, selected := if t != Cursor then None else e.selected);
    if e.textInput.Some? && t != TextTool then e1.(textInput := None, text := "") else e1
  }

  lemma SwitchToolOutcome(e: Editor, t: Tool)
    ensures SwitchTool(e, t).tool == t
    ensures Annos(SwitchTool(e, t)) == Annos(e)
    ensures t != Cursor ==> !HasSelection(SwitchTool(e, t))
    ensures t != TextTool ==> SwitchTool(e, t).textInput == None
    ensures SwitchTool(SwitchTool(e, t), t) == SwitchTool(e, t)
    ensures t != Cursor ==> forall ed :: SettingChange(SwitchTool(e, t), ed) == SwitchTool(e, t)
  {
  }

  // ---------------------------------------------------------------------
  // Clearing
  // ---------------------------------------------------------------------

  /** `clearAllAnnotations`: the history starts over from an empty list and nothing is selected. */
  function ClearAll(e: Editor): Editor
  {
    e.(history := History.Reset([]), selected := None)
  }

  /** Clearing leaves nothing drawn, selected, to undo or to redo, and keeps the editor well formed. */
  lemma ClearAllOutcome(e: Editor)
    ensures var r := ClearAll(e);
      && Annos(r) == [] && !HasSelection(r)
      && !History.CanUndo(r.history) && !History.CanRedo(r.history)
      && r.tool == e.tool && r.style == e.style
      && Wellformed(r)
  {
  }

  // ---------------------------------------------------------------------
  // Reachable states keep consistent geometry
  // ---------------------------------------------------------------------

  /** Every remembered annotation list is geometrically consistent. */
  predicate Wellformed(e: Editor)
  {
    History.Every(e.history, AllConsistent)
  }

  lemma CommitWellformed(e: Editor, annos: seq<Annotation>)
    requires Wellformed(e) && AllConsistent(annos)
    ensures Wellformed(Commit(e, annos))
  {
    History.EveryPreserved(e.history, annos, AllConsistent);
  }

  lemma AppendWellformed(e: Editor, a: Annotation)
    requires Wellformed(e) && Consistent(a)
    ensures Wellformed(Append(e, a))
  {
    var annos := Annos(e) + [a];
    assert forall i :: 0 <= i < |annos| ==> annos[i] == if i < |Annos(e)| then Annos(e)[i] else a;
    CommitWellformed(e, annos);
  }

  lemma MouseMoveWellformed(e: Editor, pos: Point)
    requires Wellformed(e)
    ensures Wellformed(MouseMove(e, pos))
  {
    if e.hasImage && e.dragging && HasSelection(e) && e.dragOffset.Some? && e.start.Some? {
      var t := DragTarget(pos, e.dragOffset.value);
      DragFrameConsistent(Annos(e), e.selected.value, t.x, t.y);
      CommitWellformed(e, DragFrame(Annos(e), e.selected.value, t.x, t.y));
    }
  }

  lemma MouseUpWellformed(e: Editor, id: string)
    requires Wellformed(e)
    ensures Wellformed(MouseUp(e, id))
  {
    if !e.dragging && e.tool != Cursor && e.tool != TextTool {
      if !e.drawing || !e.hasImage || e.start.None? || e.end.None? {
        if e.tool == HighlightTool && |e.points| > 1 {
          NewShapeConsistent(HighlightTool, Point(0.0, 0.0), Point(0.0, 0.0), e.points, e.style, id);
          AppendWellformed(e, HighlightOf(e.points, e.style, id));
        }
      } else {
        var p, q := e.start.value, e.end.value;
        var n := NewShape(e.tool, p, q, e.points, e.style, id);
        if n.Some? {
          NewShapeConsistent(e.tool, p, q, e.points, e.style, id);
          AppendWellformed(e, n.value);
        }
      }
    }
  }

  lemma TextSubmitWellformed(e: Editor, measured: Option<real>, id: string)
    requires Wellformed(e)
    ensures Wellformed(TextSubmit(e, measured, id))
  {
    if e.textInput.Some? && !Blank(e.text) && measured.Some? {
      var p := e.textInput.value;
      var a := Annotation(id, p.x, p.y, measured.value, e.style.fontSize as real, None,
                          Text(e.text, e.style.strokeColor, e.style.fontSize, e.style.fontFamily));
      AppendWellformed(e, a);
    }
  }

  lemma {:induction false} WithoutConsistent(annos: seq<Annotation>, id: string)
    requires AllConsistent(annos)
    ensures AllConsistent(Without(annos, id))
    decreases |annos|
  {
    if |annos| > 0 {
      WithoutConsistent(annos[1..], id);
      var rest := Without(annos[1..], id);
      if annos[0].id != id {
        var r := [annos[0]] + rest;
        assert forall i :: 0 <= i < |r| ==> r[i] == if i == 0 then annos[0] else rest[i - 1];
      }
    }
  }

  lemma DeleteSelectedWellformed(e: Editor)
    requires Wellformed(e)
    ensures Wellformed(DeleteSelected(e))
  {
    if HasSelection(e) {
      WithoutConsistent(Annos(e), e.selected.value);
      CommitWellformed(e, Without(Annos(e), e.selected.value));
    }
  }

  lemma SettingChangeWellformed(e: Editor, ed: StyleEdit)
    requires Wellformed(e)
    ensures Wellformed(SettingChange(e, ed))
  {
    if e.tool == Cursor && HasSelection(e) {
      var r := Annos(SettingChange(e, ed));
      forall i | 0 <= i < |r|
        ensures Consistent(r[i])
      {
        ApplyEditKeepsGeometry(Annos(e)[i], ed, e.style.fillColor);
      }
      CommitWellformed(e, r);
    }
  }

  /** Undo and redo of the annotation list keep every snapshot consistent. */
  lemma UndoRedoWellformed(e: Editor)
    requires Wellformed(e)
    ensures Wellformed(e.(history := History.Undo(e.history)))
    ensures Wellformed(e.(history := History.Redo(e.history)))
  {
    History.EveryPreserved(e.history, Annos(e), AllConsistent);
  }
}
