# Image annotator core, modelled in Dafny

This project models the logic of a browser image annotator. Users draw rectangles, ellipses, arrows, lines, text, freehand highlights, spotlight and pixelate areas over an image. Every change can be undone. Annotated images are kept as saved versions with thumbnails. The React components and hooks are restated as pure functions over immutable data:

- `History` (history.dfy): the past/present/future snapshot container behind undo and redo.
- `Annotations` (annotations.dfy): the eight annotation variants with their shared envelope, and translation of an annotation by a drag.
- `Colors` (colors.dfy): `hexToRgba` and `rgbaToHex`, character by character. This covers JavaScript's `parseInt`, `toString(16)`, `padStart` and the leftmost regular-expression match. It also holds the default colour constants.
- `Canvas` (canvas.dfy): the editor's event handlers. These are the hit test, dragging, committing a drawn shape or a text, deleting, style edits, the style loaded on selection, switching tools and clearing. `Wellformed` says every remembered list keeps its geometry consistent, and every handler keeps it.
- `VersionStore` (versionstore.dfy): the saved-version log. The blob store is a set of ids and the thumbnail cache is a map. It covers upsert, load, delete and thumbnail-cache synchronisation. `Valid` is the store invariant. Each operation keeps it, except an upload whose thumbnail fails (see Findings).
- `Thumbnail` (thumbnail.dfy): the thumbnail size computation, as written and corrected (see Findings).
- `Tray` (tray.dfy): paging of the seven-card history fan.
- `Layers` (layers.dfy): the layers panel. This covers row order, keyboard focus, delete, drop, labels and swatch colours.
- `Wrappers` and `Seqs`: `Option` and sequence reversal.

Things the browser supplies are parameters. These are the pointer position, the measured text width, fresh ids, the current time, object URLs, whether a blob was found, whether an image decodes, and whether a thumbnail could be made (its object URL, or none).

The version log is not re-sorted after an upsert: a saved entry replaces the old one where it stands, or a new one goes in front, so the log is newest-first only by construction. `createThumbnail` takes a `maxHeight` but never enforces it for landscape images, nor `maxWidth` for portrait ones: only the side chosen by orientation is bounded. `Thumbnail.ThumbnailSize` models that as written, and Findings records the gap.

## Model

| member | source | states |
|---|---|---|
| History.Init | hooks/use-history.ts:11-16 | a new history has nothing to undo or redo and holds the initial value |
| History.Set | hooks/use-history.ts:21-40 | setting a value equal to the present returns the history unchanged; otherwise the old present is pushed onto the past, the value becomes present, and the future is emptied |
| History.Undo | hooks/use-history.ts:42-58 | undo with an empty past is a no-op; otherwise the last past value becomes present and the old present goes to the front of the future; the total count is kept |
| History.Redo | hooks/use-history.ts:60-73 | redo with an empty future is a no-op; otherwise the first future value becomes present and the old present is pushed onto the past; the total count is kept |
| History.Reset | hooks/use-history.ts:75-81 | reset leaves only the given present, with nothing to undo or redo |
| History.RedoAfterUndo | hooks/use-history.ts:42-73 | a redo right after an undo restores the exact earlier history |
| History.UndoAfterRedo | hooks/use-history.ts:42-73 | an undo right after a redo restores the exact earlier history |
| History.UndoAfterSet | hooks/use-history.ts:21-58 | undoing a real change brings back the previous present and past, with the change as the only redo |
| History.SetClearsFuture | hooks/use-history.ts:28-39 | after a set, redo is possible exactly when the set was a no-op and redo was possible before |
| History.EveryPreserved | hooks/use-history.ts:21-73 | a property held by every remembered value still holds after set, undo and redo |
| Colors.HexToRgbaChannels | lib/annotations.ts:121-126 | for `#` plus six hex digits, the result is the `rgba(r, g, b, alpha)` template of the three hex-pair values, each at most 255 |
| Colors.RgbaToHexShape | lib/annotations.ts:128-135 | with no pattern match the result is `#000000`; otherwise it starts with `#`, is followed by lowercase hex digits when every channel is a finite double, exactly six when every channel is at most 255, and shows `Infinity` for a red channel too large for a double |
| Colors.RgbaToHexFallback | lib/annotations.ts:129-130 | a string that never mentions `rgb` converts to `#000000` |
| Colors.MatchRgbaString | lib/annotations.ts:125-129 | the pattern finds in a printed `rgba(...)` string exactly the three printed channel numbers |
| Colors.RoundTrip | lib/annotations.ts:121-135 | converting a well-formed hex colour to rgba and back gives the colour lowercased, for any alpha made of digits and dots |
| Colors.RoundTripExactIffLower | lib/annotations.ts:121-135 | the round trip returns the very same string exactly when its hex digits are already lowercase |
| Colors.AlphaIgnored | lib/annotations.ts:129-134 | two rgba strings that differ only in alpha convert to the same hex colour |
| Colors.ToDoubleNearest | lib/annotations.ts:131-133 | `parseInt` yields a double: a whole number of units with a significand of at most 2^53, within half a unit of the parsed integer |
| Colors.DroppedBitsFit | lib/annotations.ts:131-133 | the unit is the smallest power of two that leaves the significand below 2^53 |
| Colors.ToDoubleExact | lib/annotations.ts:131-133 | integers below 2^53 are parsed exactly |
| Colors.ToDoubleRounds | lib/annotations.ts:131-133 | 2^53 + 1 parses as 2^53, the even neighbour |
| Colors.HexPairShape | lib/annotations.ts:131-133 | a channel prints as at least two characters: hex digits of its double, exactly two up to 255, or `Infinity` |
| Colors.HexPairOfChannel | lib/annotations.ts:122-133 | a channel parsed from two hex digits prints back as the same two digits lowercased |
| Colors.DecString | lib/annotations.ts:125 | the decimal printing of a number is a non-empty digit string whose value is that number |
| Colors.PadStart2 | lib/annotations.ts:131-133 | padding keeps the string as its suffix and fills with zeros up to length two |
| Colors.DefaultFillIsStrokeColor | lib/annotations.ts:103-105 | the default fill colour is the default stroke colour at the default fill alpha |
| Colors.DefaultHighlightIsSwatch | lib/annotations.ts:107-119 | the default highlight colour is the third predefined swatch at the default highlight alpha |
| Colors.DefaultFillConvertsBack | lib/annotations.ts:103-105 | the default fill colour converts back to `#fca5a5`, the stroke colour lowercased |
| Colors.DefaultHighlightConvertsBack | lib/annotations.ts:107-119 | the default highlight colour converts back to `#fde047`, the swatch lowercased |
| Annotations.MinX | components/annotation-canvas.tsx:840-847 | the smallest x of the points is at most every point's x |
| Annotations.MinXAttained | components/annotation-canvas.tsx:840-847 | the smallest x is the x of one of the points |
| Annotations.MaxXAttained | components/annotation-canvas.tsx:843-845 | the largest x is the x of one of the points |
| Annotations.MinYAttained | components/annotation-canvas.tsx:841-847 | the smallest y is the y of one of the points |
| Annotations.MaxYAttained | components/annotation-canvas.tsx:846-847 | the largest y is the y of one of the points |
| Annotations.TypeOf | lib/annotations.ts:4-14 | no annotation has the cursor or crop tool as its type |
| Annotations.Translate | components/annotation-canvas.tsx:766-807 | moving an annotation sets its corner and keeps its id, size, visibility and type |
| Annotations.TranslateKeepsStyle | components/annotation-canvas.tsx:766-807 | moving keeps every colour, width, font and text |
| Annotations.TranslateConsistent | components/annotation-canvas.tsx:773-795 | moving keeps a segment's envelope the box of its endpoints, an ellipse's centre half a radius in, and a highlight's envelope the box of its points |
| Annotations.TranslateBack | components/annotation-canvas.tsx:766-807 | moving an annotation and moving it back gives it back unchanged |
| Annotations.TranslateTwice | components/annotation-canvas.tsx:766-807 | two moves amount to the last one |
| Annotations.PointsEnvelopeShift | components/annotation-canvas.tsx:785-795 | shifting all points by the corner's displacement keeps the envelope the points' bounding box |
| Canvas.Initial | components/annotation-canvas.tsx:85-94 | a fresh canvas has no annotations, the cursor tool, no selection and the default style |
| Canvas.Topmost | components/annotation-canvas.tsx:694-728 | the hit test returns the highest-index annotation whose envelope contains the point, edges included, or reports that none does |
| Canvas.TopmostUnique | components/annotation-canvas.tsx:714-728 | at most one index is the topmost hit |
| Canvas.HitTestIsTopmost | components/annotation-canvas.tsx:714-728 | the looping hit test and the declarative topmost agree |
| Canvas.MouseDownCursor | components/annotation-canvas.tsx:706-740 | a cursor click selects the topmost hit and starts a drag with the pointer's offset; a miss clears the selection and starts nothing |
| Canvas.DragFrameOnlySelected | components/annotation-canvas.tsx:766-807 | a drag frame changes only the selected annotation and keeps the list's length, order, ids and sizes |
| Canvas.DragFrameConsistent | components/annotation-canvas.tsx:766-807 | a drag frame keeps every annotation's geometry consistent |
| Canvas.DragFrameBack | components/annotation-canvas.tsx:766-807 | dragging an annotation back to where it was restores the list |
| Canvas.NewShapeEnvelope | components/annotation-canvas.tsx:858-956 | a box tool commits a shape whose envelope is the min corner and absolute extents of the gesture |
| Canvas.NewShapeConsistent | components/annotation-canvas.tsx:870-975 | every committed shape has consistent geometry |
| Canvas.NewShapeFill | components/annotation-canvas.tsx:872-884 | rectangles and ellipses get a fill colour exactly when fill is on, and then the current fill colour |
| Canvas.NewEllipse | components/annotation-canvas.tsx:922-940 | an ellipse's radii are half the envelope and its centre is the corner plus the radii |
| Canvas.NewHighlight | components/annotation-canvas.tsx:957-975 | a highlight is made exactly when there is more than one point, and its envelope holds every point |
| Canvas.ZeroSizeDiscarded | components/annotation-canvas.tsx:863-868 | a box gesture released where it started adds nothing and records no history |
| Canvas.NonZeroCommitted | components/annotation-canvas.tsx:858-982 | any other box gesture appends exactly its new shape on top |
| Canvas.HighlightCommitted | components/annotation-canvas.tsx:833-849 | a highlight gesture appends one highlight when it has more than one point, otherwise nothing, and ends the gesture |
| Canvas.TextSubmitOutcome | components/annotation-canvas.tsx:985-1012 | blank text or no input adds nothing and closes the input; otherwise a text annotation sized by the measured width and font size is appended |
| Canvas.DeleteSelectedOutcome | components/annotation-canvas.tsx:1019-1026 | deleting removes exactly the annotations with the selected id and clears the selection, keeping the others in order, each moved up by the number removed before it; with no selection nothing changes |
| Canvas.WithoutAppend | components/annotation-canvas.tsx:1021 | filtering a concatenation filters each part, so the filter keeps the order of what it keeps |
| Canvas.WithoutSingle | components/annotation-canvas.tsx:1021 | a single annotation is dropped exactly when it has the id |
| Canvas.SettingChangeOutcome | components/annotation-canvas.tsx:147-191 | an edit applies only with the cursor and a selection, touches only the selected annotation, clears the fill when fill is turned off, and writes a stroke colour to text, arrow and line colours |
| Canvas.ApplyEditKeepsGeometry | components/annotation-canvas.tsx:147-191 | a style edit never changes an annotation's type or geometry |
| Canvas.FindById | components/annotation-canvas.tsx:106-111 | the lookup returns the first annotation with the id, or reports that none has it |
| Canvas.SnapshotEchoes | components/annotation-canvas.tsx:113-145 | sending back the style just loaded from a selection, through every control the tool panel shows for it (the fill colour picker included while the fill box is ticked), changes nothing, except that an empty fill colour comes back as no fill |
| Canvas.SwitchToolOutcome | components/annotation-canvas.tsx:1028-1035 | a tool switch keeps the annotations, drops the selection for any tool but the cursor, closes a text input when leaving text, and repeating it changes nothing more |
| Canvas.ClearAllOutcome | components/annotation-canvas.tsx:1014-1017 | clearing leaves nothing drawn, selected, to undo or to redo |
| Canvas.MouseUpWellformed | components/annotation-canvas.tsx:821-983 | releasing the mouse keeps every remembered annotation list consistent |
| Canvas.MouseMoveWellformed | components/annotation-canvas.tsx:757-819 | moving the mouse keeps every remembered annotation list consistent |
| Canvas.TextSubmitWellformed | components/annotation-canvas.tsx:985-1012 | submitting text keeps every remembered annotation list consistent |
| Canvas.DeleteSelectedWellformed | components/annotation-canvas.tsx:1019-1026 | deleting keeps every remembered annotation list consistent |
| Canvas.SettingChangeWellformed | components/annotation-canvas.tsx:147-191 | style edits keep every remembered annotation list consistent |
| Canvas.UndoRedoWellformed | hooks/use-history.ts:42-73 | undo and redo of the annotation list keep every remembered list consistent |
| VersionStore.FindIndex | hooks/use-image-history.ts:214-217 | the lookup returns the first index with the id, or reports that the id is not logged |
| VersionStore.TrimLog | hooks/use-image-history.ts:310-314 | the pop loop keeps the first 100 entries and collects exactly the rest, last first |
| VersionStore.UpsertUnchanged | hooks/use-image-history.ts:212-230 | an annotation-only save with unchanged annotations returns the stored entry and changes nothing |
| VersionStore.UpsertNothing | hooks/use-image-history.ts:286-292 | a save with no image and no known id returns nothing and changes nothing |
| VersionStore.UpsertAnnotationsOnly | hooks/use-image-history.ts:280-308 | an annotation-only save keeps the entry's name and blobs, replaces it in place, and touches no blob or cache |
| VersionStore.UpsertImage | hooks/use-image-history.ts:239-308 | for any valid store, a full log included, an upload always stores `img_<id>` and saves an entry exactly when the thumbnail is made; then `thumb_<id>` is stored and cached, a known id is replaced at its index, and an unknown one goes in front of the log trimmed to 100 without losing its own blobs; a failed thumbnail leaves the log as it was |
| VersionStore.FrontSurvives | hooks/use-image-history.ts:310-313 | the pop loop removes entries from the back only, so with unique ids and named blobs the front entry's two blobs are never among the evicted ones |
| VersionStore.UpsertImageReplacesBlobs | hooks/use-image-history.ts:249-274 | replacing an entry's image deletes its old two blobs and cached thumbnail, stores `img_<id>`, stores and caches `thumb_<id>` only when the thumbnail is made, and leaves all other blobs and cache entries |
| VersionStore.UpsertThumbnailFails | hooks/use-image-history.ts:267-342 | when the thumbnail cannot be made the save returns nothing with log and active id unchanged; for an entry not yet logged the only change is the stored `img_<id>` |
| VersionStore.UpsertFailureBreaksValid | hooks/use-image-history.ts:253-342 | from any valid store, a failed thumbnail leaves the blob table out of step with the log: an orphan `img_<id>`, or a logged entry whose blobs were deleted |
| VersionStore.SafeUpsertValid | hooks/use-image-history.ts:206-342 | a save that makes the thumbnail before touching storage keeps the invariant for every outcome, and when it returns nothing it has changed nothing |
| VersionStore.UpsertTrims | hooks/use-image-history.ts:304-337 | the saved log is the first min(n, 100) entries of the placed log, and every entry cut off has both blobs and its cached thumbnail gone |
| VersionStore.UpsertValid | hooks/use-image-history.ts:206-342 | a save whose thumbnail is made keeps ids unique, blobs named after their entry, the blob set equal to the log's blobs, the log at most 100 long and the cache within the log |
| VersionStore.LoadSpec | hooks/use-image-history.ts:351-397 | loading succeeds exactly for a logged id whose image blob is stored and decodes; it returns that entry's annotations and name and makes it active; nothing else changes |
| VersionStore.LoadValid | hooks/use-image-history.ts:351-397 | loading keeps the store invariant |
| VersionStore.RemoveSplice | hooks/use-image-history.ts:404 | with unique ids, filtering out an id splices out its entry and keeps the others in order |
| VersionStore.DeleteSpec | hooks/use-image-history.ts:399-426 | deleting removes the entry keeping the others in order, deletes its two blobs and cached thumbnail, and clears the active id only when it was this one |
| VersionStore.DeleteValid | hooks/use-image-history.ts:399-426 | deleting keeps the store invariant |
| VersionStore.SyncCurrent | hooks/use-image-history.ts:52-119 | a completed sync caches exactly the logged thumbnails that were cached or fetched, keeping a cached URL over a fetched one |
| VersionStore.SyncKeys | hooks/use-image-history.ts:58-72 | after a sync the cache holds only thumbnails of logged entries |
| VersionStore.SyncStale | hooks/use-image-history.ts:120-125 | a sync overtaken by a later change only prunes and adds nothing |
| VersionStore.SyncIdle | hooks/use-image-history.ts:128-132 | with nothing logged and nothing stored, the sync leaves the cache alone |
| VersionStore.SyncValid | hooks/use-image-history.ts:52-132 | a sync keeps the store invariant |
| Thumbnail.RoundDivNearest | lib/image-utils.ts:19 | the rounded quotient is the integer nearest the exact quotient, halves going up |
| Thumbnail.RoundDivUnique | lib/image-utils.ts:19 | only one integer is that near, so the rounding is determined |
| Thumbnail.ThumbnailBounds | lib/image-utils.ts:14-27 | the thumbnail is never larger than the image, and the side chosen by orientation is within its maximum |
| Thumbnail.ThumbnailKeeps | lib/image-utils.ts:17-27 | an image keeps its size exactly when it is within the bound its orientation picks |
| Thumbnail.WidthScaled | lib/image-utils.ts:17-21 | a landscape image wider than the maximum takes the maximum width and a height rounded to keep the aspect ratio |
| Thumbnail.HeightScaled | lib/image-utils.ts:22-27 | any other image taller than the maximum takes the maximum height and a width rounded likewise |
| Thumbnail.ThumbnailOrientationOnly | lib/image-utils.ts:17-27 | a 100×90 image in a 100×75 box stays 100×90 |
| Thumbnail.ThumbnailOverflows | lib/image-utils.ts:17-21 | a 200×190 image gets a 100×95 thumbnail, taller than 75 |
| Thumbnail.FitBounds | lib/image-utils.ts:14-27 | the corrected thumbnail lies within the box and is never larger than the image |
| Thumbnail.FitWidthScales | lib/image-utils.ts:17-21 | when the width binds, the corrected thumbnail takes the box's width and a rounded proportional height |
| Thumbnail.FitHeightScales | lib/image-utils.ts:22-27 | when the height binds, it takes the box's height and a rounded proportional width |
| Thumbnail.FitKeepsSmall | lib/image-utils.ts:14-27 | an image that fits keeps its size, both as written and corrected |
| Tray.WindowSpec | components/image-history-tray.tsx:55-58 | the fan shows the log entries with index in `[start, start + 7)`, each once, highest index first |
| Tray.WindowFull | components/image-history-tray.tsx:55-58 | with the start in range the fan holds seven entries, or the whole log when shorter |
| Tray.PagingInRange | components/image-history-tray.tsx:64-78 | previous and next keep the start in range and move it by one when enabled; next is enabled exactly below the last start |
| Tray.PagingInverse | components/image-history-tray.tsx:64-78 | next and previous undo each other wherever enabled |
| Tray.ClampSpec | components/image-history-tray.tsx:44-53 | clamping brings an expanded fan's start into range, changes nothing else, and is idempotent |
| Tray.CollapseResets | components/image-history-tray.tsx:80-85 | collapsing the fan resets its start to zero |
| Tray.LabelCountsWindow | components/image-history-tray.tsx:208-216 | the range label appears exactly when the log overflows the fan, and it counts exactly the entries shown |
| Seqs.ReverseReverse | components/layers-sidebar.tsx:608-611 | reversing the rows twice gives the drawing order back |
| Layers.RowsOrder | components/layers-sidebar.tsx:608-611 | row `i` shows the annotation drawn `i`-th from the top, and every annotation has its row |
| Layers.DeleteClickSpec | components/layers-sidebar.tsx:517-525 | a delete click always asks for the deletion, and clears the selection exactly when the deleted annotation was selected |
| Layers.ToggleSelectSpec | components/layers-sidebar.tsx:546-551 | clicking a row selects it unless it was selected, which deselects it |
| Layers.ArrowsStayOnRows | components/layers-sidebar.tsx:533-544 | the arrow keys keep the focus on a row, moving it one row when there is one in that direction |
| Layers.DeleteKeepsFocusOnRow | components/layers-sidebar.tsx:552-559 | deleting the focused row keeps the focus on a row of the shortened list; the last row hands the focus up |
| Layers.KeyActsOnRow | components/layers-sidebar.tsx:527-575 | every request a key press makes concerns the annotation on the focused row |
| Layers.InitialFocusSpec | components/layers-sidebar.tsx:264-269 | the first row is focused once there are rows and nothing is focused; an existing focus is kept |
| Layers.DropSpec | components/layers-sidebar.tsx:391-403 | a drop asks for a reorder exactly when a row was dragged onto a different row, and always ends the drag |
| Layers.ShownSpec | components/layers-sidebar.tsx:73-77 | a text label shows the whole text up to 15 UTF-16 code units, else the first 15 followed by `...`; for text in the Basic Multilingual Plane that is the first 15 characters |
| Layers.LabelText | components/layers-sidebar.tsx:73-77 | labels tell apart texts of at most 15 code units, but not longer texts that agree on their first 15 code units |
| Layers.LabelSplitsPair | components/layers-sidebar.tsx:73-77 | a cut after 15 code units can leave the high half of a surrogate pair alone in the label, and two different texts then share a label |
| Layers.EmojiShareLabel | components/layers-sidebar.tsx:73-77 | seven U+1F600 then U+1F600 or U+1F601 take 14 code units before the last character, whose high halves agree |
| Layers.Utf16Injective | components/layers-sidebar.tsx:73-77 | the UTF-16 encoding of text is one-to-one |
| Layers.Utf16Append | components/layers-sidebar.tsx:73-77 | the encoding of a concatenation is the concatenation of the encodings |
| Layers.BmpUnitsAreUtf16 | components/layers-sidebar.tsx:67-92 | the fixed label words, all in the Basic Multilingual Plane, take one code unit per character |
| Layers.LabelTellsType | components/layers-sidebar.tsx:67-92 | a label's first character tells the annotation type |
| Layers.SwatchMatchesToolbar | components/layers-sidebar.tsx:94-102 | the swatch shows the colour the toolbar loads on selection, and neutral grey for the two area types |
| Layers.SwatchFollowsEdit | components/layers-sidebar.tsx:94-102 | a stroke-colour or colour edit repaints the swatch, and a width edit does not |

## Left out

- Canvas rendering: 2D drawing, arrowheads, pixelation and spotlight compositing, and theme placeholders. These are floating-point pixel work.
- Debounced autosave and the ordering of asynchronous saves and session switches. Each handler is one synchronous step.
- DOM plumbing: mapping pointer events to canvas coordinates, positioning the text card, focus and click-outside listeners, and keyboard wiring. The model receives the mapped position and an "on the text card" flag.
- IndexedDB, localStorage, object URLs and image decoding. The blob store is a set of ids. Fetch and decode results are parameters (`urls`, `decodes`). `Date.now()` and random ids are parameters. An upsert needs its generated id to be unused, which `UpsertValid` requires.
- Blob deletions and cache updates happen at once. The source runs them asynchronously. Object-URL revocation is not modelled.
- VersionStore.UpsertValid: holds only when an upload's thumbnail is made. As written, a failed thumbnail breaks the invariant (`UpsertFailureBreaksValid`, see Findings); `SafeUpsertValid` covers every outcome of the corrected save.
- Failures of IndexedDB itself (a rejected `storeBlob` or `deleteBlob`). Only the thumbnail failure is modelled; it is the one a user can cause by dropping a file that is not an image.
- Colors.RgbaToHex: a channel of more than 20 significant digits is rounded correctly to a double. ECMAScript also lets an engine replace every digit after the 20th significant one by 0 before rounding; the model does not cover that variant.
- Canvas.SettingChange: the source spreads the property name into any selected annotation. A text annotation given a stroke colour therefore also gains a `strokeColor` field. Stray fields like that are not modelled, because each variant keeps only its own fields.
- `parseInt` returning `NaN` for a non-numeric width or size. Widths and sizes are integers.
- The tool settings panel. It routes values to the setters and calls the colour conversions modelled in `Colors`.
- Layers-panel dragging, snapping and animation, and the tray's rotation and layout. These use window geometry and floating-point easing.
- Offline storage, the service worker, the theme toggle, the page shell and the clipboard helpers. These are I/O and UI wrappers.

## Findings

| source | as written | input that shows it | evidently intended | confidence | as-written member | corrected member |
|---|---|---|---|---|---|---|
| hooks/use-image-history.ts:253-274 | the old blobs are deleted and `img_<id>` stored before `createThumbnail` runs; when it rejects, the catch returns null with the log unchanged | dropping a file that is not an image on the canvas: `img_<id>` stays stored with no entry naming it, and is never deleted | the thumbnail is made before storage is touched, so a failed save changes nothing | medium, not executed | VersionStore.UpsertFailureBreaksValid | VersionStore.SafeUpsertValid |
| lib/image-utils.ts:17-27 | only the side picked by orientation is checked: a landscape image is bounded by width, any other image by height | a 200×190 image with a 100×75 box gives 100×95 | the thumbnail fits both bounds, scaled by the binding side, e.g. 79×75 | medium, not executed | Thumbnail.ThumbnailOverflows | Thumbnail.FitBounds |
