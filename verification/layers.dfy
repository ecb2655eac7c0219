/**
 * The logic of the layers panel, components/layers-sidebar.tsx: rows list
 * the annotations topmost first, each with a label and a colour swatch;
 * the keyboard moves a focus index over the rows and acts on the focused
 * row, and drag and drop asks for a reorder. The panel does not change the
 * annotations itself: it asks its owner to, so its handlers here return the
 * requests they make. Panel dragging, snapping and animation are not
 * modelled.
 */
module Layers {

  import opened Wrappers
  import opened Annotations
  import opened Seqs
  import Canvas

  // ---------------------------------------------------------------------
  // Rows
  // ---------------------------------------------------------------------

  /** The rows: `annotations.slice().reverse()`. */
  function Rows(annos: seq<Annotation>): seq<Annotation>
  {
    Reverse(annos)
  }

  /** The row showing the annotation at `j` of the drawing order. */
  function RowOf(annos: seq<Annotation>, j: nat): nat
    requires j < |annos|
  {
    |annos| - 1 - j
  }

  /** Row `i` is the annotation drawn `i`-th from the top, and `RowOf` finds each annotation's row. */
  lemma RowsOrder(annos: seq<Annotation>)
    ensures |Rows(annos)| == |annos|
    ensures forall i :: 0 <= i < |annos| ==> Rows(annos)[i] == annos[|annos| - 1 - i]
    ensures forall j :: 0 <= j < |annos| ==> RowOf(annos, j) < |annos| && Rows(annos)[RowOf(annos, j)] == annos[j]
    ensures |annos| > 0 ==> Rows(annos)[0] == annos[|annos| - 1]
  {
  }

  // ---------------------------------------------------------------------
  // Requests to the owner
  // ---------------------------------------------------------------------

  datatype Request =
    | Select(id: Option<string>)
    | DeleteLayer(layer: string)
    | ToggleVisibility(layer: string)
    | Reorder(from: nat, to: nat)

  /** `handleDeleteClick`: delete, and drop the selection when it was this annotation. */
  function DeleteClick(id: string, selected: Option<string>): seq<Request>
  {
    [DeleteLayer(id)] + (if selected == Some(id) then [Select(None)] else [])
  }

  /** Clicking a row (or Enter/space on it) toggles its selection. */
  function ToggleSelect(id: string, selected: Option<string>): Request
  {
    Select(if selected == Some(id) then None else Some(id))
  }

  /** A delete click always deletes, and clears the selection exactly when it deleted the selected annotation. */
  lemma DeleteClickSpec(id: string, selected: Option<string>)
    ensures DeleteLayer(id) in DeleteClick(id, selected)
    ensures Select(None) in DeleteClick(id, selected) <==> selected == Some(id)
    ensures forall r :: r in DeleteClick(id, selected) ==> r == DeleteLayer(id) || r == Select(None)
  {
  }

  /** Toggling selects the row unless it was the selected one, which it deselects. */
  lemma ToggleSelectSpec(id: string, selected: Option<string>)
    ensures ToggleSelect(id, selected).id == Some(id) <==> selected != Some(id)
    ensures ToggleSelect(id, selected).id.None? <==> selected == Some(id)
  {
  }

  // ---------------------------------------------------------------------
  // Keyboard
  // ---------------------------------------------------------------------

  datatype Key = ArrowDown | ArrowUp | Enter | Space | Delete | Backspace | KeyV | KeyH | OtherKey

  /** The focused row (-1 before any) and the requests a key press made. */
  datatype KeyOutcome = KeyOutcome(focus: int, requests: seq<Request>)

  /** The effect that focuses the first row once there are rows and nothing is focused. */
  function InitialFocus(n: nat, focus: int): int
  {
    if n > 0 && focus == -1 then 0 else focus
  }

  /**
   * `handleLayerKeyDown` on row `index`: arrows move the focus within the
   * rows, Enter/space toggles the row's selection, Delete/Backspace deletes
   * it (moving the focus up when it was the last of several rows), and v/h
   * toggle its visibility. Rows exist only for the annotations there are.
   */
  function KeyDown(annos: seq<Annotation>, selected: Option<string>, focus: int, index: nat, key: Key): KeyOutcome
    requires index < |annos|
  {
    var a := Rows(annos)[index];
    match key
    case ArrowDown => KeyOutcome(if index < |annos| - 1 then index + 1 else focus, [])
    case ArrowUp => KeyOutcome(if index > 0 then index - 1 else focus, [])
    case Enter => KeyOutcome(focus, [ToggleSelect(a.id, selected)])
    case Space => KeyOutcome(focus, [ToggleSelect(a.id, selected)])
    case Delete => KeyOutcome(DeleteFocus(|annos|, focus, index), DeleteClick(a.id, selected))
    case Backspace => KeyOutcome(DeleteFocus(|annos|, focus, index), DeleteClick(a.id, selected))
    case KeyV => KeyOutcome(focus, [ToggleVisibility(a.id)])
    case KeyH => KeyOutcome(focus, [ToggleVisibility(a.id)])
    case OtherKey => KeyOutcome(focus, [])
  }

  function DeleteFocus(n: nat, focus: int, index: nat): int
  {
    if index == n - 1 && index > 0 then index - 1 else focus
  }

  /** A focus index that names a row. */
  predicate OnRow(focus: int, n: nat)
  {
    0 <= focus < n
  }

  /**
   * The arrows keep the focus on a row: pressing one on a row moves the
   * focus to the next row in that direction when there is one and otherwise
   * leaves it; no other request is made.
   */
  lemma ArrowsStayOnRows(annos: seq<Annotation>, selected: Option<string>, focus: int, index: nat)
    requires index < |annos|
    ensures var down := KeyDown(annos, selected, focus, index, ArrowDown);
      && down.requests == []
      && (index + 1 < |annos| ==> down.focus == index + 1)
      && (index + 1 == |annos| ==> down.focus == focus)
      && (OnRow(focus, |annos|) ==> OnRow(down.focus, |annos|))
    ensures var up := KeyDown(annos, selected, focus, index, ArrowUp);
      && up.requests == []
      && (index > 0 ==> up.focus == index - 1)
      && (index == 0 ==> up.focus == focus)
      && (OnRow(focus, |annos|) ==> OnRow(up.focus, |annos|))
  {
  }

  /**
   * Deleting the focused row leaves the focus on a row of the shortened
   * list whenever one is left: the last row hands the focus to the row above,
   * any other row keeps it on the row that moves up into its place.
   */
  lemma DeleteKeepsFocusOnRow(annos: seq<Annotation>, selected: Option<string>, index: nat, key: Key)
    requires index < |annos| && |annos| > 1
    requires key == Delete || key == Backspace
    ensures var out := KeyDown(annos, selected, index, index, key);
      && OnRow(out.focus, |annos| - 1)
      && (index == |annos| - 1 ==> out.focus == index - 1)
      && (index < |annos| - 1 ==> out.focus == index)
      && DeleteLayer(annos[|annos| - 1 - index].id) in out.requests
  {
    RowIdentity(annos, index);
    DeleteClickSpec(Rows(annos)[index].id, selected);
  }

  /** Every request a key press makes is about the annotation on that row. */
  lemma KeyActsOnRow(annos: seq<Annotation>, selected: Option<string>, focus: int, index: nat, key: Key)
    requires index < |annos|
    ensures var id := annos[|annos| - 1 - index].id;
      forall r :: r in KeyDown(annos, selected, focus, index, key).requests ==>
        r == Select(None) || r == Select(Some(id)) || r == DeleteLayer(id) || r == ToggleVisibility(id)
  {
    RowIdentity(annos, index);
    var id := Rows(annos)[index].id;
    var reqs := KeyDown(annos, selected, focus, index, key).requests;
    match key
    case Delete =>
      DeleteClickSpec(id, selected);
    case Backspace =>
      DeleteClickSpec(id, selected);
    case Enter =>
      assert reqs == [ToggleSelect(id, selected)];
    case Space =>
      assert reqs == [ToggleSelect(id, selected)];
    case KeyV =>
      assert reqs == [ToggleVisibility(id)];
    case KeyH =>
      assert reqs == [ToggleVisibility(id)];
    case _ =>
      assert reqs == [];
  }

  /** The annotation on row `index`. */
  lemma RowIdentity(annos: seq<Annotation>, index: nat)
    requires index < |annos|
    ensures Rows(annos)[index] == annos[|annos| - 1 - index]
  {
    RowsOrder(annos);
  }

  /** The first row gets the focus once, and an existing focus is kept. */
  lemma InitialFocusSpec(n: nat, focus: int)
    ensures n > 0 && focus == -1 ==> OnRow(InitialFocus(n, focus), n)
    ensures focus != -1 ==> InitialFocus(n, focus) == focus
    ensures InitialFocus(n, InitialFocus(n, focus)) == InitialFocus(n, focus)
  {
  }

  // ---------------------------------------------------------------------
  // Drag and drop
  // ---------------------------------------------------------------------

  datatype DragRows = DragRows(dragged: Option<nat>, over: Option<nat>)

  /** `handleDrop` on row `target`. */
  function Drop(d: DragRows, target: nat): (DragRows, seq<Request>)
  {
    var reqs := if d.dragged.Some? && d.dragged.value != target then [Reorder(d.dragged.value, target)] else [];
    (DragRows(None, None), reqs)
  }

  /** `handleDragEnd`. */
  function DragEnd(d: DragRows): DragRows
  {
    DragRows(None, None)
  }

  /** A drop reorders only when a row is dragged onto another row, and always ends the drag. */
  lemma DropSpec(d: DragRows, target: nat)
    ensures Drop(d, target).0 == DragRows(None, None) == DragEnd(d)
    ensures |Drop(d, target).1| <= 1
    ensures |Drop(d, target).1| == 1 <==> d.dragged.Some? && d.dragged.value != target
    ensures |Drop(d, target).1| == 1 ==> Drop(d, target).1[0] == Reorder(d.dragged.value, target)
  {
  }

  // ---------------------------------------------------------------------
  // Labels and swatches
  // ---------------------------------------------------------------------

  /** A UTF-16 code unit: JavaScript strings are sequences of these. */
  newtype CodeUnit = x: int | 0 <= x < 0x1_0000

  /** A character outside the Basic Multilingual Plane, which takes two code units. */
  predicate Astral(c: char)
  {
    c as int >= 0x1_0000
  }

  predicate HighSurrogate(u: CodeUnit)
  {
    0xD800 <= u < 0xDC00
  }

  /** One character in UTF-16: itself, or a high surrogate then a low one. */
  function CharUnits(c: char): (r: seq<CodeUnit>)
    ensures |r| == if Astral(c) then 2 else 1
    ensures Astral(c) <==> HighSurrogate(r[0])
  {
    if !Astral(c) then [c as int as CodeUnit]
    else
      var v := c as int - 0x1_0000;
      [(0xD800 + v / 0x400) as CodeUnit, (0xDC00 + v % 0x400) as CodeUnit]
  }

  /** A string as JavaScript holds it: its UTF-16 code units. */
  function Utf16(s: string): seq<CodeUnit>
  {
    if |s| == 0 then [] else CharUnits(s[0]) + Utf16(s[1..])
  }

  /** A string of Basic Multilingual Plane characters in UTF-16, unit for character. */
  function BmpUnits(s: string): (r: seq<CodeUnit>)
    requires forall i :: 0 <= i < |s| ==> !Astral(s[i])
    ensures |r| == |s|
  {
    seq(|s|, i requires 0 <= i < |s| && !Astral(s[i]) => s[i] as int as CodeUnit)
  }

  lemma BmpUnitsAreUtf16(s: string)
    requires forall i :: 0 <= i < |s| ==> !Astral(s[i])
    ensures BmpUnits(s) == Utf16(s)
  {
    Utf16Bmp(s);
  }

  lemma {:induction false} Utf16Append(a: string, b: string)
    ensures Utf16(a + b) == Utf16(a) + Utf16(b)
    decreases |a|
  {
    if |a| > 0 {
      assert (a + b)[1..] == a[1..] + b;
      Utf16Append(a[1..], b);
    } else {
      assert a + b == b;
    }
  }

  /** Text within the Basic Multilingual Plane has one code unit per character, its own value. */
  lemma {:induction false} Utf16Bmp(s: string)
    requires forall i :: 0 <= i < |s| ==> !Astral(s[i])
    ensures |Utf16(s)| == |s|
    ensures forall i :: 0 <= i < |s| ==> Utf16(s)[i] as int == s[i] as int
    decreases |s|
  {
    if |s| > 0 {
      Utf16Bmp(s[1..]);
      assert forall i :: 1 <= i < |s| ==> Utf16(s)[i] == Utf16(s[1..])[i - 1];
    }
  }

  lemma CharUnitsInjective(c: char, d: char)
    requires CharUnits(c) == CharUnits(d)
    ensures c == d
  {
    if Astral(c) {
      var v, w := c as int - 0x1_0000, d as int - 0x1_0000;
      assert v / 0x400 == w / 0x400 && v % 0x400 == w % 0x400;
      assert v == 0x400 * (v / 0x400) + v % 0x400;
      assert w == 0x400 * (w / 0x400) + w % 0x400;
    }
  }

  /** Different texts are held as different code units. */
  lemma {:induction false} Utf16Injective(a: string, b: string)
    requires Utf16(a) == Utf16(b)
    ensures a == b
    decreases |a|
  {
    if |a| > 0 && |b| > 0 {
      var ua, ub := CharUnits(a[0]), CharUnits(b[0]);
      assert Utf16(a)[0] == ua[0] && Utf16(b)[0] == ub[0];
      assert |ua| == |ub|;
      assert Utf16(a)[..|ua|] == ua && Utf16(b)[..|ub|] == ub;
      CharUnitsInjective(a[0], b[0]);
      assert Utf16(a[1..]) == Utf16(a)[|ua|..] == Utf16(b)[|ub|..] == Utf16(b[1..]);
      Utf16Injective(a[1..], b[1..]);
      assert a == [a[0]] + a[1..] && b == [b[0]] + b[1..];
    }
  }

  const MaxLabelText: nat := 15

  /**
   * The text a text annotation's label shows: `text.length` and
   * `substring` count UTF-16 code units, so at most 15 of them, then `...`
   * when cut.
   */
  function Shown(text: string): seq<CodeUnit>
  {
    var u := Utf16(text);
    if |u| > MaxLabelText then u[..MaxLabelText] + BmpUnits("...") else u
  }

  /** `getAnnotationLabel`, in code units. */
  function Label(sh: Shape): seq<CodeUnit>
  {
    match sh
    case Rectangle(_, _, _) => BmpUnits("Rectangle")
    case Ellipse(_, _, _, _, _, _, _) => BmpUnits("Ellipse")
    case Text(t, _, _, _) => BmpUnits("Text: \"") + Shown(t) + BmpUnits("\"")
    case Arrow(_, _, _, _, _, _) => BmpUnits("Arrow")
    case Line(_, _, _, _, _, _) => BmpUnits("Line")
    case Highlight(_, _, _) => BmpUnits("Highlight")
    case SpotlightArea => BmpUnits("Spotlight")
    case PixelateArea(_) => BmpUnits("Pixelate")
  }

  /**
   * The shown text is the whole text when that has at most 15 code units,
   * and otherwise its first 15 followed by `...`, so never more than 18.
   * Within the Basic Multilingual Plane that is the first 15 characters.
   */
  lemma ShownSpec(text: string)
    ensures var s := Shown(text);
      && |s| <= MaxLabelText + 3
      && (|Utf16(text)| <= MaxLabelText ==> s == Utf16(text))
      && (|Utf16(text)| > MaxLabelText ==>
            |s| == MaxLabelText + 3 && s[..MaxLabelText] == Utf16(text)[..MaxLabelText]
            && s[MaxLabelText..] == BmpUnits("..."))
    ensures (forall i :: 0 <= i < |text| ==> !Astral(text[i])) ==>
      Shown(text) == Utf16(if |text| > MaxLabelText then text[..MaxLabelText] + "..." else text)
  {
    if forall i :: 0 <= i < |text| ==> !Astral(text[i]) {
      Utf16Bmp(text);
      if |text| > MaxLabelText {
        var head := text[..MaxLabelText];
        Utf16Bmp(head);
        assert text == head + text[MaxLabelText..];
        Utf16Append(head, text[MaxLabelText..]);
        Utf16Append(head, "...");
        BmpUnitsAreUtf16("...");
      }
    }
  }

  /** Equal labels around equal prefixes and suffixes have equal middles. */
  lemma Cancel(p: seq<CodeUnit>, x: seq<CodeUnit>, y: seq<CodeUnit>, q: seq<CodeUnit>)
    requires p + x + q == p + y + q
    ensures x == y
  {
    assert x == (p + x + q)[|p|..|p| + |x|];
    assert |x| == |y|;
    assert y == (p + y + q)[|p|..|p| + |y|];
  }

  /**
   * Labels tell apart texts of at most 15 code units; longer texts that
   * agree on their first 15 code units get the same label.
   */
  lemma LabelText(t1: string, t2: string, sh1: Shape, sh2: Shape)
    requires sh1.Text? && sh2.Text? && sh1.text == t1 && sh2.text == t2
    ensures |Utf16(t1)| <= MaxLabelText && |Utf16(t2)| <= MaxLabelText ==>
      (Label(sh1) == Label(sh2) <==> t1 == t2)
    ensures |Utf16(t1)| > MaxLabelText && |Utf16(t2)| > MaxLabelText
            && Utf16(t1)[..MaxLabelText] == Utf16(t2)[..MaxLabelText] ==>
      Label(sh1) == Label(sh2)
  {
    if |Utf16(t1)| <= MaxLabelText && |Utf16(t2)| <= MaxLabelText && Label(sh1) == Label(sh2) {
      Cancel(BmpUnits("Text: \""), Shown(t1), Shown(t2), BmpUnits("\""));
      Utf16Injective(t1, t2);
    }
  }

  /**
   * Cutting at 15 code units can split a character: when the 15th unit is
   * the high half of a pair, the label shows that half alone, and texts
   * whose 15th units agree get the same label though their next halves differ.
   */
  lemma LabelSplitsPair(p: string, c1: char, c2: char, sh1: Shape, sh2: Shape)
    requires |Utf16(p)| == MaxLabelText - 1
    requires Astral(c1) && CharUnits(c1)[0] == CharUnits(c2)[0]
    requires sh1.Text? && sh2.Text? && sh1.text == p + [c1] && sh2.text == p + [c2]
    ensures |Shown(p + [c1])| == MaxLabelText + 3 && HighSurrogate(Shown(p + [c1])[MaxLabelText - 1])
    ensures Label(sh1) == Label(sh2)
  {
    Utf16Append(p, [c1]);
    Utf16Append(p, [c2]);
    assert Utf16([c1]) == CharUnits(c1) + Utf16([]);
    assert Utf16([c2]) == CharUnits(c2) + Utf16([]);
    assert Utf16(p + [c1])[..MaxLabelText] == Utf16(p) + [CharUnits(c1)[0]];
    assert Utf16(p + [c2])[..MaxLabelText] == Utf16(p) + [CharUnits(c2)[0]];
  }

  /** Seven U+1F600 then U+1F600 or U+1F601: different texts, the same label. */
  lemma EmojiShareLabel()
    ensures var p := "\U{1F600}\U{1F600}\U{1F600}\U{1F600}\U{1F600}\U{1F600}\U{1F600}";
      && |Utf16(p)| == MaxLabelText - 1
      && Astral('\U{1F600}') && '\U{1F600}' != '\U{1F601}'
      && CharUnits('\U{1F600}')[0] == CharUnits('\U{1F601}')[0]
  {
    var p := "\U{1F600}\U{1F600}\U{1F600}\U{1F600}\U{1F600}\U{1F600}\U{1F600}";
    AllAstral(p);
  }

  lemma {:induction false} AllAstral(s: string)
    requires forall i :: 0 <= i < |s| ==> Astral(s[i])
    ensures |Utf16(s)| == 2 * |s|
    decreases |s|
  {
    if |s| > 0 {
      AllAstral(s[1..]);
    }
  }

  /** The label's first character tells the annotation type. */
  lemma LabelTellsType(sh1: Shape, sh2: Shape)
    ensures |Label(sh1)| > 0
    ensures Label(sh1)[0] == Label(sh2)[0] <==> TypeOf(sh1) == TypeOf(sh2)
  {
    LabelInitial(sh1);
    LabelInitial(sh2);
  }

  /** The first character of each label. */
  function Initial(sh: Shape): char
  {
    match sh
    case Rectangle(_, _, _) => 'R'
    case Ellipse(_, _, _, _, _, _, _) => 'E'
    case Text(_, _, _, _) => 'T'
    case Arrow(_, _, _, _, _, _) => 'A'
    case Line(_, _, _, _, _, _) => 'L'
    case Highlight(_, _, _) => 'H'
    case SpotlightArea => 'S'
    case PixelateArea(_) => 'P'
  }

  lemma LabelInitial(sh: Shape)
    ensures |Label(sh)| > 0 && Label(sh)[0] == Initial(sh) as int as CodeUnit
  {
  }

  /** The colour shown when an annotation has neither a stroke colour nor a colour. */
  const NeutralSwatch: string := "#94a3b8"

  /** `getAnnotationColor`: the stroke colour, else the colour, else neutral grey. */
  function SwatchColor(sh: Shape): string
  {
    match sh
    case Rectangle(sc, _, _) => sc
    case Ellipse(_, _, _, _, sc, _, _) => sc
    case Text(_, c, _, _) => c
    case Arrow(_, _, _, _, c, _) => c
    case Line(_, _, _, _, c, _) => c
    case Highlight(c, _, _) => c
    case SpotlightArea => NeutralSwatch
    case PixelateArea(_) => NeutralSwatch
  }

  /**
   * The swatch shows the colour the toolbar loads when the annotation is
   * selected: its stroke colour (the highlight colour for a highlight), and
   * neutral grey for the two areas, which have none.
   */
  lemma SwatchMatchesToolbar(s: Canvas.Style, sh: Shape)
    ensures !(sh.SpotlightArea? || sh.PixelateArea? || sh.Highlight?) ==>
      SwatchColor(sh) == Canvas.Snapshot(s, sh).strokeColor
    ensures sh.Highlight? ==> SwatchColor(sh) == Canvas.Snapshot(s, sh).highlightColor
    ensures sh.SpotlightArea? || sh.PixelateArea? ==> SwatchColor(sh) == NeutralSwatch
  {
  }

  /** A stroke-colour or colour edit on the selection repaints its swatch. */
  lemma SwatchFollowsEdit(sh: Shape, c: string, fill: string)
    ensures (sh.Rectangle? || sh.Ellipse? || sh.Text? || sh.Arrow? || sh.Line?) ==>
      SwatchColor(Canvas.ApplyEdit(sh, Canvas.StrokeColorEdit(c), fill)) == c
    ensures (sh.Text? || sh.Arrow? || sh.Line? || sh.Highlight?) ==>
      SwatchColor(Canvas.ApplyEdit(sh, Canvas.ColorEdit(c), fill)) == c
    ensures SwatchColor(Canvas.ApplyEdit(sh, Canvas.StrokeWidthEdit(0), fill)) == SwatchColor(sh)
  {
  }
}
