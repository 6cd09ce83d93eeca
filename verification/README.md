# Exam grader — a Dafny model of its core

The exam grader is a desktop application for marking scanned exam PDFs.
A grader opens a project (a roster CSV, one PDF per student, a grading
scheme) and marks each student's pages with annotations:
- check marks, crosses and tildes;
- lines, arrows, circles and rectcrosses;
- text boxes.

Scores per subquestion are typed into a grade sheet. At the end the
annotations are baked into annotated PDFs.

This project models the parts of that program that decide something:
- **Annotations and the viewer** (`Models`, `Geometry`, `Overlay`, `Drag`,
  `Viewer`, `Widgets`):
  - annotation records over page fractions;
  - the eraser's and the drag controller's hit tests with their handle
    priorities;
  - the drag state machine and its clamping;
  - two-click placement, tool shortcuts and Escape;
  - the inline text editor's commit/cancel flag;
  - zoom, page navigation, pointer fractions and the flow layout of the
    tool bar.
- **Persistence** (`Json`, `DataStore`):
  - annotation records to and from JSON;
  - grading settings, the grading scheme, the export template and preset
    texts in the project configuration;
  - roster rows, including the duplicate-number check.
- **Export** (`Exporter`, `Template`, `ExportLoop`):
  - which drawing commands each annotation bakes on which page;
  - `export_all`'s counting;
  - the main window's export loop, with its file names built by
    `str.format_map` and the `EMPTY` fallbacks.
- **Roster and grade sheet** (`StudentList`, `GradeBook`, `GradingPanel`,
  `SettingsDialog`, `MainWindow`):
  - the student list's search and selection;
  - the grade sheet's search modes, table layout and cell-edit policy;
  - the scheme editor of the settings dialog;
  - the main window's student navigation and grade storage.

Shared vocabulary lives in `Wrappers` (`Option`, `Result`), `Numeric`
(clamping, truncation, rounding), `Assoc` (insertion-ordered Python dicts
as association lists) and `Text` (`strip`, `lower`, `in`, `replace`,
`str(int)` and `float(str)`).

Conventions:
- Coordinates and points are `real`.
- `math.hypot`'s square root is a function parameter `sq`. Lemmas ask only
  that it be a genuine square root (`IsSqrt`).
- A comparison `hypot(..) <= tol` is stated on squared distances.
- Font metrics are a parameter too (`FontMetrics`).
- File existence, annotation loading and PDF baking are predicates given as
  parameters.

## Model

| member | source | states |
|---|---|---|
| Models.AllSubquestionsOrder | app/models.py:45-51 | `all_subquestions` lists exercise by exercise, subquestion by subquestion: subquestion j of exercise i sits at offset(i)+j and nothing else is listed |
| Models.AllSubquestionsLoop | app/models.py:45-51 | the nested loops of `all_subquestions` build the flattened list |
| Models.MaxTotalByExercise | app/models.py:53-54 | `max_total` is the sum over exercises of each exercise's maximum |
| Models.MaxTotalNonNegative | app/models.py:53-54 | with non-negative maxima the scheme's maximum is non-negative |
| Models.TotalPut | app/models.py:62-63 | setting one score moves `Grade.total` by exactly the new value minus the old one, absent scores counting zero |
| Models.TotalRemove | app/models.py:62-63 | removing a score lowers the total by that score |
| Models.TotalNonNegative | app/models.py:62-63 | non-negative scores give a non-negative total |
| Models.GradeOutOf20 | app/models.py:65-68 | 0 when the scheme has no points; otherwise within 0.005 of total/max·20 |
| Models.GradeOutOf20Bounds | app/models.py:65-68 | a total within the maximum gives a mark within 0..20 |
| Geometry.SegParam | app/annotation_overlay.py:253-260 | the projection parameter of `_pt_seg_dist` is clamped into [0, 1] |
| Geometry.PtSegDistSq | app/annotation_overlay.py:253-260 | the measured distance is non-negative, and for a degenerate segment it is the distance to its endpoint |
| Geometry.ClampedMinimum | app/annotation_overlay.py:256-259 | the quadratic at the clamped minimiser is no larger than at either end of the segment |
| Geometry.PtSegDistSqAtMostEndpoints | app/annotation_overlay.py:253-260 | the distance to the segment never exceeds the distance to either endpoint |
| Geometry.PtSegDistBounds | app/annotation_overlay.py:253-260 | `_pt_seg_dist` is non-negative and at most the distance to either endpoint |
| Overlay.TextBoxSize | app/annotation_overlay.py:140-164 | the box is at least 20 px wide; a stored width fraction fixes the width at max(int(frac·w), 20); otherwise the width is 20 or the widest line plus padding, whichever is larger, so every line fits; the height is the wrapped height plus twice a padding of at least 1 |
| Overlay.TextBoxRect | app/annotation_overlay.py:85-92 | there is a box exactly for a text annotation with non-empty text; it starts at (int(x·w), int(y·h)) and is at least 20 px wide |
| Overlay.EraserHitSquared | app/annotation_overlay.py:108-134 | lines and arrows are hit within tolerance of the segment; other non-circle, non-text shapes within tolerance of their anchor |
| Overlay.FindAnnotationAt | app/annotation_overlay.py:95-135 | the eraser target is the lowest index on the page that is hit, and -1 exactly when nothing on the page is hit |
| Exporter.ArrowHeadAgreement | app/annotation_overlay.py:231-236 | the baked arrow has a head exactly when its end points differ as fractions; an arrow whose fractions coincide has no head on screen either, and a head on screen always has one in the PDF |
| Exporter.SubPixelArrowHeadOnlyInPdf | app/pdf_exporter.py:123-126 | the converse fails: an arrow shorter than a screen pixel has no head on screen (its pixels coincide) but gets one in the PDF |
| Drag.DragTo | app/pdf_viewer.py:970-1017 | a drag never changes page, type or text, and only text-resize changes the width |
| Drag.DragToIdempotent | app/pdf_viewer.py:970-1017 | a drag step repeated at the same pointer position gives the same shape, since each step starts from the shape at the press |
| Drag.DragFrame | app/pdf_viewer.py:980-1017 | each drag kind writes only its own coordinates; every other coordinate keeps its value |
| Drag.DragStartPoint | app/pdf_viewer.py:975-1013 | every start coordinate a drag writes lies in [0, 1], and moves exactly by the pointer delta while the unclamped value stays on the page |
| Drag.DragEndPoint | app/pdf_viewer.py:985-1017 | the same for the end point; circle-edge puts x2 at the centre's x and y2 in [0, 1] |
| Drag.DragResize | app/pdf_viewer.py:1001-1002 | text-resize keeps the width fraction in [0.02, 1], follows the pointer inside that range and leaves x, y, x2 and y2 alone |
| Drag.ApplyDrag | app/pdf_viewer.py:970-1017 | only the grabbed annotation changes |
| Drag.CircleMoveKeepsHandleBelow | app/pdf_viewer.py:998-1000 | moving a circle whose edge point is below its centre keeps it there |
| Drag.CircleEdgeKeepsHandleBelow | app/pdf_viewer.py:991-997 | an edge drag keeps the edge point below the unmoved centre |
| Drag.CircleEdgeFollowsPointer | app/pdf_viewer.py:991-997 | after an edge drag the radius is the pointer's distance from the centre unless clamped at the page bottom, and the edge point never rises above the centre |
| Drag.DragAtPressIsIdentity | app/pdf_viewer.py:975-1017 | dragging back to the press position restores the shape: grabbing never makes it jump |
| Drag.TargetAt | app/pdf_viewer.py:1035-1096 | a grab records the index, press position and the annotation's geometry at press time |
| Drag.NearIsNearSq | app/pdf_viewer.py:1038-1040 | the `hypot <= tol` test agrees with the squared comparison |
| Drag.SegmentPriority | app/pdf_viewer.py:1035-1043 | on a line or arrow the start point beats the end point, which beats the shaft; nothing is grabbed when none is near |
| Drag.RectcrossPriority | app/pdf_viewer.py:1056-1077 | on a rectcross the corners tl, tr, bl, br are tried in that order before either diagonal |
| Drag.CirclePriority | app/pdf_viewer.py:1045-1054 | on a circle the handle below the centre beats the rim |
| Drag.TextPriority | app/pdf_viewer.py:1079-1092 | on a text box the resize zone beats the body, and a resize grab records the current width fraction |
| Drag.FindDragTarget | app/pdf_viewer.py:1021-1098 | the grabbed annotation is the highest index on the page with a handle under the pointer; nothing without a page |
| Drag.FindTextAt | app/pdf_viewer.py:1100-1107 | the text tool picks the lowest-index text box on the page under the pointer, or -1 |
| Drag.TextHitIsEraserHit | app/pdf_viewer.py:1100-1107 | on a text box the text tool and the eraser agree about what is under the pointer |
| Viewer.KindInjective | app/pdf_viewer.py:50-59 | different tools place different annotation types |
| Viewer.KeyForEveryTool | app/pdf_viewer.py:50-59 | every tool has exactly one shortcut key |
| Viewer.SetActiveTool | app/pdf_viewer.py:601-611 | changing tool drops a pending first click; choosing the current tool changes nothing |
| Viewer.ToggleTool | app/pdf_viewer.py:244-248 | a shortcut selects its tool, or deselects it when it is already active |
| Viewer.ToggleTwice | app/pdf_viewer.py:244-248 | pressing a shortcut twice returns to the starting tool |
| Viewer.Escape | app/pdf_viewer.py:256-263 | Escape first drops a pending click; with none pending it deselects the tool |
| Viewer.ResetInteraction | app/pdf_viewer.py:1346-1351 | the pending click, the drag and the inline editor are dropped and nothing else changes |
| Viewer.PrevPage | app/pdf_viewer.py:631-637 | moves back only from a page after the first, resetting the interaction |
| Viewer.NextPage | app/pdf_viewer.py:639-645 | moves forward only from a page before the last, resetting the interaction |
| Viewer.PageNavigationValid | app/pdf_viewer.py:631-645 | page navigation never leaves the document |
| Viewer.StartTextEdit | app/pdf_viewer.py:1111-1151 | an editor opens only when a page is shown |
| Viewer.PlacedShape | app/pdf_viewer.py:918-933 | the second click places the tool's type from the first click; a circle's end point is straight below its centre |
| Viewer.TwoClickPlacement | app/pdf_viewer.py:913-936 | the first click only records the start; the second appends exactly one shape from there, clears the start, deselects the tool and emits |
| Viewer.PointPlacement | app/pdf_viewer.py:941-949 | a point tool appends one marker at the click, deselects itself and emits |
| Viewer.EraserRemovesOne | app/pdf_viewer.py:890-899 | the eraser removes exactly the annotation `find_annotation_at` names, or changes nothing |
| Viewer.NoToolClickInert | app/pdf_viewer.py:886-888 | without a tool a click changes nothing |
| Viewer.CancelPending | app/pdf_viewer.py:256-263 | Escape or a tool change drops a pending click without placing anything |
| Viewer.Press | app/pdf_viewer.py:826-842 | a press resets the moved flag; a pan press only pans; without a tool a press on a handle starts the drag `FindDragTarget` finds and changes nothing else; otherwise it is the click `HandleClick` handles |
| Viewer.Move | app/pdf_viewer.py:844-857 | a move during a drag replaces the annotations by `ApplyDrag` at the pointer and marks the drag as moved; it never emits |
| Viewer.Release | app/pdf_viewer.py:871-882 | a release ends the pan or the drag, applies the drag at the release point, and emits exactly when the drag moved; with no drag it changes nothing |
| Viewer.ReleaseRepeatsLastMove | app/pdf_viewer.py:844-882 | releasing where the last move was leaves the annotations as that move left them |
| Viewer.PressReleaseWithoutMove | app/pdf_viewer.py:826-882 | a click without a move never reports a change from a drag |
| Viewer.PressMoveReleaseEmitsOnce | app/pdf_viewer.py:844-882 | press, move, release emits exactly once and ends the drag |
| Viewer.DragStepValid | app/pdf_viewer.py:970-1017 | a drag step keeps every annotation's end points paired |
| Viewer.HandleClickValid | app/pdf_viewer.py:886-949 | a click keeps the viewer's invariant |
| Viewer.PressValid | app/pdf_viewer.py:826-842 | a press keeps the viewer's invariant, and a drag it starts fits its annotation |
| Viewer.CommitText | app/pdf_viewer.py:1153-1174 | non-blank text, stripped, replaces the edited text and sets its width to the editor width over the page width (none on an empty page), keeping page, type and end point; or it becomes a new text annotation; blank text changes nothing; either way the tool is deselected |
| Viewer.CommittedWidthRedraws | app/pdf_viewer.py:1160-1163 | the width fraction recorded at commit redraws the box at the editor's width |
| Viewer.CancelText | app/pdf_viewer.py:1176-1180 | cancelling closes the editor and changes nothing else |
| Widgets.Frac | app/pdf_viewer.py:380-387 | pointer fractions are clamped into [0, 1], and are (0, 0) for a label of no size |
| Widgets.FracInverse | app/pdf_viewer.py:380-387 | inside the label, the fraction times the size gives back the pixel position |
| Widgets.ApplyZoom | app/pdf_viewer.py:1377-1381 | the clamped zoom is taken, and the page re-rendered, exactly when it differs by more than 0.005 |
| Widgets.ZoomStaysInRange | app/pdf_viewer.py:1377-1381 | zoom stays within [0.5, 3.0] |
| Widgets.ZoomIdempotent | app/pdf_viewer.py:1377-1381 | requesting the same zoom again does not re-render |
| Widgets.DoLayout | app/pdf_viewer.py:348-365 | every item after the first is placed from its predecessor by `FlowStep`: it wraps exactly when it would pass the right edge from past the left edge, to the left edge and below the previous row by that row's tallest item and the spacing; the height reaches the bottom of the tallest item of the last row |
| Widgets.TallestBounds | app/pdf_viewer.py:353-364 | a row's line height covers every item on the row and is one of their heights (or 0 for an empty row) |
| Widgets.OnEvent | app/pdf_viewer.py:183-207 | Escape cancels, Ctrl+Enter commits, focus-out commits non-blank and cancels blank text, each only before the editor is done |
| Widgets.AtMostOneSignal | app/pdf_viewer.py:183-207 | whatever the events, the editor emits at most one of committed and cancelled |
| Json.Float | app/data_store.py:168-170 | Python `float`: numbers as themselves, `True` as 1.0 and `False` as 0.0, strings by `float(str)`; null, arrays and objects are an error |
| Json.Truthy | app/data_store.py:171-175 | Python `bool`: false exactly for null, false, zero, the empty string, the empty list and the empty object |
| Json.TruthyIsNonZeroFloat | app/data_store.py:168-175 | on booleans and numbers `bool` and `float` agree: a value is true exactly when its float is not zero |
| Json.GetOptional | app/data_store.py:300-303 | a missing key and an explicit null both read as absent |
| DataStore.SaveItemLookup | app/data_store.py:316-326 | a saved record holds page, type, x and y, each optional field exactly when present, and nothing else |
| DataStore.SaveItemKeys | app/data_store.py:316-326 | an optional key is written exactly when the field is present; height is never written |
| DataStore.LoadItem | app/data_store.py:295-305 | page, type, x and y are required; text, x2, y2 and width are optional; other keys are ignored |
| DataStore.LoadItemFromFields | app/data_store.py:295-305 | any record whose fields read as an annotation loads as that annotation |
| DataStore.LoadSaveItem | app/data_store.py:295-326 | loading a saved record gives the annotation back, field for field |
| DataStore.PointRecordRoundTrip | app/data_store.py:294-326 | a stamp or mark is saved as exactly its page, type and position, and that four-key record loads back with no text, end point or width |
| DataStore.SaveAnnotations | app/data_store.py:314-326 | one record per annotation, in order |
| DataStore.AnnotationsRoundTrip | app/data_store.py:293-326 | saving and loading the annotations reproduces them exactly, in order |
| DataStore.LoadAnnotationsIterated | app/data_store.py:293-306 | a file holding an empty string or object loads no annotations; a non-empty string or object, whose characters or keys are not records, and any value that cannot be iterated fail the load |
| DataStore.SaveSettings | app/data_store.py:184-195 | only the settings section of the config is replaced |
| DataStore.SettingsDefaults | app/data_store.py:163-176 | without a settings section every field takes its default: 20.0, 0.5, no score total, debug off, hi-DPI on |
| DataStore.SettingsLookup | app/data_store.py:186-195 | every saved settings field reads back as written |
| DataStore.SettingsRoundTrip | app/data_store.py:163-195 | saving settings into any config and loading them back gives the same settings |
| DataStore.SaveScheme | app/data_store.py:208-219 | only the exercises list of the config is replaced |
| DataStore.LoadScheme | app/data_store.py:148-157 | a config without exercises loads an empty scheme |
| DataStore.Iterate | app/data_store.py:151-154 | the values a `for` loop visits in a JSON value: a list's items, a string's characters, an object's keys; a number, boolean or null cannot be iterated |
| DataStore.LoadSchemeEmptyContainer | app/data_store.py:148-157 | an empty string or object stored as the exercises loads as an empty scheme, as the `for` loop visits nothing |
| DataStore.LoadExerciseEmptyContainer | app/data_store.py:152-156 | an empty string or object stored as an exercise's subquestions loads as an exercise without subquestions |
| DataStore.SchemeRoundTrip | app/data_store.py:208-219 | saving a scheme and loading it back with `load_grading_scheme_from_config` keeps every name, order and maximum |
| DataStore.GetExportTemplate | app/data_store.py:198-200 | the stored template, or `{student_number}_annotated` when none is stored |
| DataStore.TemplateRoundTrip | app/data_store.py:198-205 | a saved template is the one read back, whatever else the config holds |
| DataStore.PresetsRoundTrip | app/data_store.py:222-229 | saved preset texts read back unchanged and in order |
| DataStore.PresetsFromString | app/data_store.py:222-224 | `list(...)` of a stored string gives its characters as the preset texts |
| DataStore.ExtraFields | app/data_store.py:248 | the extra fields are the non-core columns, with stripped values |
| DataStore.ExtraFieldsAppend | app/data_store.py:248 | the extra fields keep column order: the extras of two runs of columns are the extras of the first followed by those of the second |
| DataStore.ExtraFieldsSingle | app/data_store.py:248 | one column is an extra field, with its value stripped, exactly when it is not a core column |
| DataStore.RowStudent | app/data_store.py:242-254 | a student read from a row carries the row's stripped number and the other columns as extras, and a row that does not read fails only for a missing column (names and the column order: RowStudentCells) |
| DataStore.RowStudentCells | app/data_store.py:242-254 | a row reads exactly when it has all three core columns, number, last and first name being the stripped cells; otherwise the error names the first missing one in the order number, last, first |
| DataStore.LoadFromDuplicate | app/data_store.py:242-247 | a load fails on a duplicate only for a stripped number seen in an earlier row |
| DataStore.LoadFromMissing | app/data_store.py:242-252 | a load fails on a missing column only when some row lacks a core column |
| DataStore.LoadStudents | app/data_store.py:234-256 | every row becomes a student in file order, numbers all distinct; a missing core column or a repeated number fails the whole load |
| DataStore.LoadStudentsSucceeds | app/data_store.py:234-256 | a roster with all core columns and distinct numbers always loads |
| Exporter.Checkmark | app/pdf_exporter.py:92-96 | the tick is two joined green strokes, down then up, spanning the mark's width |
| Exporter.Cross | app/pdf_exporter.py:99-103 | the cross is the two red diagonals of the square of half-size 12 around the anchor, each the other's mirror image |
| Exporter.TextBoxWidth | app/pdf_exporter.py:108-111 | a stored width gives max(width·pw, 10) points; otherwise max(5.5 per character, 20) |
| Exporter.LineCountFits | app/pdf_exporter.py:114-115 | the estimated line count is the least number of lines of `chars_per_line` characters that holds the text, and at least 1 |
| Exporter.DrawText | app/pdf_exporter.py:106-120 | the text box is anchored at the annotation, as wide as `TextBoxWidth`, and max(14, 11 per estimated line + 6) points high |
| Exporter.DrawTextHoldsText | app/pdf_exporter.py:114-116 | the box is high enough for its line estimate, and that estimate is the least number of lines of `chars_per_line` characters that holds the text |
| Exporter.DrawAnnotation | app/pdf_exporter.py:64-85 | check marks, crosses, non-empty texts and complete lines, arrows and circles are drawn; tildes, rectcrosses and the rest draw nothing |
| Exporter.CircleThroughEndPoint | app/pdf_exporter.py:80-85 | a baked circle is centred on the anchor and passes through the end point |
| Exporter.PageDrawsNone | app/pdf_exporter.py:59-61 | a page none of whose annotations is on it gets no drawing |
| Exporter.BakeIgnoresMissingPage | app/pdf_exporter.py:57-59 | an annotation on a page the document lacks is never drawn |
| Exporter.BakeLeavesBarePages | app/pdf_exporter.py:59-61 | a page without annotations is left as it was |
| Exporter.ExportableMembers | app/pdf_exporter.py:37-43 | an output is written exactly for a student whose source file exists, named `<number>_annotated.pdf` |
| Exporter.ExportAll | app/pdf_exporter.py:20-47 | exported + skipped = number of students; progress (i, total) before each student and (total, total) at the end; the batch finishes exactly when every student with a source bakes, and otherwise stops at the first failing bake with the outputs before it written |
| Template.SpecTo | app/main.py:521-522 | a format spec runs to the `}` that balances its field's `{`; without one the template is an error |
| Template.ParseUnparse | app/main.py:521-522 | parsing a template loses nothing: its pieces written back are the template |
| Template.ParsePlain | app/main.py:521-522 | a template without braces is one piece of literal text |
| Template.BraceInFieldName | app/main.py:521-524 | a `{` inside a field name is the `ValueError` "unexpected '{' in field name" |
| Template.BraceInNameExample | app/main.py:521-524 | `{a{b}}` is that error, so the export falls back to `<number>_annotated` |
| Template.Layout | app/main.py:521-522 | a formatted value is cut to the precision and filled out to the width: fill before it for `>`, half before and the rest after for `^`, after it otherwise |
| Template.FormatStr | app/main.py:521-522 | `format` on a string: an empty spec gives the value; an unparsable spec is an error; an accepted spec has type `s`, no sign, `z`, `#` or `=` alignment, and lays the value out |
| Template.FormatStrTypeOnly | app/main.py:521-522 | a one-letter spec is a type: `s` gives the value, any other is "Unknown format code" |
| Template.FormatStrAlignWidth | app/main.py:521-522 | an align and a width pad with spaces after, before or around the value |
| Template.FormatStrPrecision | app/main.py:521-522 | a precision cuts the value to that many characters |
| Template.Build | app/main.py:521-524 | at recursion depth 0 building is "Max string recursion exceeded"; a template that does not parse does not build |
| Template.RenderPiecesOk | app/main.py:521-522 | a parsed template renders exactly when every field in it renders |
| Template.RenderField | app/main.py:521-524 | a numbered or auto-numbered field is an error under `format_map`; an unknown conversion is an error; otherwise the looked-up value, formatted by a brace-free spec |
| Template.FormatPlain | app/main.py:521-522 | text without braces formats to itself |
| Template.RenderPlainKey | app/main.py:521-522 | a plain field renders as its key's value |
| Template.FormatFieldThenText | app/main.py:521-522 | `{key}` followed by plain text formats to the key's value followed by the text |
| Template.FormatFieldSpec | app/main.py:521-522 | `{key:spec}` with a brace-free spec formats the key's value by the spec |
| Template.UnknownCodeField | app/main.py:521-524 | a spec that is a type letter other than `s` makes the whole template an error |
| Template.UnknownCodeExample | app/main.py:521-524 | `{a:x}` is "Unknown format code 'x' for object of type 'str'", so the export falls back to `<number>_annotated` |
| Template.FormatNestedSpec | app/main.py:521-522 | `{key:{inner}}` formats the key's value by the inner key's value |
| Template.FormatSpecTooDeep | app/main.py:521-524 | a field nested two specs deep is "Max string recursion exceeded" |
| ExportLoop.OrEmpty | app/main.py:515-520 | an empty value becomes "EMPTY"; any other value is kept |
| ExportLoop.ExtraValuesGet | app/main.py:515 | each extra column reads as its value, or "EMPTY" when that is empty |
| ExportLoop.StemFieldsLookup | app/main.py:515-520 | student number, last and first name always come from the record and override extra columns of the same name; any other key is its extra column; empty or missing values read "EMPTY" |
| ExportLoop.LookupNeverEmpty | app/main.py:515-520 | no field the template can name is empty, a key missing from the mapping included |
| ExportLoop.StemMalformed | app/main.py:521-524 | a template that raises falls back to `<number>_annotated` |
| ExportLoop.StemDefaultTemplate | app/main.py:515-522 | the default template gives the student number (or EMPTY) followed by `_annotated` |
| ExportLoop.CountsPartition | app/main.py:508-551 | every student reached is exactly one of exported, skipped and failed |
| ExportLoop.Export | app/main.py:497-551 | cancellation is checked before each student; a missing source is skipped; a failing bake counts as neither and the loop goes on; a failing annotation load ends the export |
| ExportLoop.AsWrittenStepFails | app/main.py:532-539 | as written, a student with a source PDF fails, where a bake that accepts the call exports `<stem>.pdf` |
| ExportLoop.ExportAsWritten | app/main.py:532-551 | as written, no run exports anything: every student reached with a source PDF fails and every other one is skipped |
| StudentList.Filter | app/student_list.py:49-55 | the filtered list is never longer than the roster |
| StudentList.FilterMembers | app/student_list.py:49-55 | a student is listed exactly when it is on the roster and its last name, first name or number contains the query |
| StudentList.FilterAppend | app/student_list.py:49-55 | filtering keeps roster order |
| StudentList.FilterEmptyQuery | app/student_list.py:49-55 | an empty search lists the whole roster |
| StudentList.CurrentStudent | app/student_list.py:95-99 | a student is returned exactly when the row is inside the list |
| StudentList.RowChanged | app/student_list.py:84-86 | a row inside the list emits its student, any other row nothing |
| StudentList.IndexOf | app/student_list.py:68-76 | the first row holding the number, or -1 when none does |
| StudentList.AsWrittenKeepEmits | app/student_list.py:56-78 | as written, keeping the previous student still emits it once |
| StudentList.AsWrittenFallbackEmitsTwice | app/student_list.py:56-82 | as written, falling back to the first row emits that student twice |
| StudentList.ApplyFilter | app/student_list.py:46-82 | after filtering the list shows the filter of the roster by the new query and the row is valid |
| StudentList.ApplyFilterOutcome | app/student_list.py:63-82 | no match emits None; a surviving selection stays selected silently; otherwise row 0 is selected and announced once |
| StudentList.ApplyFilterSameQueryKeeps | app/student_list.py:46-82 | re-applying the shown query changes nothing and emits nothing |
| StudentList.SetStudents | app/student_list.py:42-44 | a new roster is shown filtered by the current query |
| StudentList.SelectStudent | app/student_list.py:88-93 | a student not listed changes nothing; a listed one becomes current, and any emission carries that student |
| GradeBook.SetScoreGet | app/main.py:348-351 | storing a score sets exactly that (student, subquestion) pair |
| GradeBook.SetScoreKeys | app/main.py:348-351 | a student without grades is added at the end; others keep their place |
| GradeBook.ClearScore | app/grading_panel.py:609-611 | a student with no grades is left alone |
| GradeBook.ClearScoreGet | app/grading_panel.py:609-611 | clearing removes exactly that pair and adds or drops no student |
| GradingPanel.FilteredStudents | app/grading_panel.py:276-279 | a blank stripped query lists everybody |
| GradingPanel.KeepMembers | app/grading_panel.py:280-300 | with a non-blank query a student is listed exactly when it matches in the chosen mode |
| GradingPanel.KeepAppend | app/grading_panel.py:280-300 | filtering keeps roster order |
| GradingPanel.NameAndIdWidest | app/grading_panel.py:283-295 | "Name + ID" finds whatever "Name" or "ID" finds, and whatever the student list's search finds |
| GradingPanel.ColumnLayout | app/grading_panel.py:345-348 | name, number, subquestions from column 2, total, grade and extras form a one-to-one layout over the column count |
| GradingPanel.RowLayout | app/grading_panel.py:349-350 | three header rows, the students, and two average rows form a one-to-one layout over the row count |
| GradingPanel.ParseCell | app/grading_panel.py:607-625 | blank exactly when the stripped text is empty; a stored value is never negative |
| GradingPanel.ParseCellDecimalComma | app/grading_panel.py:606-607 | `a,b` reads as `a.b`, the number a + b/10^len(b) |
| GradingPanel.ParseCellNegative | app/grading_panel.py:622-625 | a negative number is rejected |
| GradingPanel.OnItemChangedIgnored | app/grading_panel.py:588-602 | edits outside the student rows and subquestion columns, or while rebuilding, change nothing |
| GradingPanel.OnItemChangedBlank | app/grading_panel.py:609-620 | a blank cell removes exactly that grade, emits nothing and remembers no focus |
| GradingPanel.OnItemChangedInvalid | app/grading_panel.py:622-633 | rejected text leaves the grades alone and restores the previous value |
| GradingPanel.OnItemChangedStore | app/grading_panel.py:635-640 | a valid value is stored for that pair only, becomes the student's remembered cell and is announced |
| GradingPanel.SubquestionIndex | app/grading_panel.py:260-262 | the first subquestion with that name, or -1 |
| GradingPanel.FocusStudentCellTarget | app/grading_panel.py:242-264 | the cell is on the student's row, in the remembered subquestion's column while it exists, else the first grade column; nothing when the student is not shown or there are no subquestions |
| GradingPanel.AddNew | app/grading_panel.py:229-231 | keys not yet present are appended once each, in order, after the existing ones |
| GradingPanel.ExtraFieldNames | app/grading_panel.py:226-232 | no column name is listed twice |
| GradingPanel.ExtraFieldNamesMembers | app/grading_panel.py:226-232 | a name is listed exactly when some student has an extra column of that name |
| GradingPanel.ExtraFieldNamesPrefix | app/grading_panel.py:226-232 | names appear in first-occurrence order: a prefix of the roster gives a prefix of the names |
| SettingsDialog.Swap | app/settings_dialog.py:357-359 | taking an item out and reinserting it one place away exchanges two neighbours and nothing else |
| SettingsDialog.SwapPermutes | app/settings_dialog.py:357-359 | the exchange keeps the same items |
| SettingsDialog.MoveUp | app/settings_dialog.py:353-369 | the moved item stays current |
| SettingsDialog.MoveDown | app/settings_dialog.py:371-387 | the moved item stays current |
| SettingsDialog.MoveUpDownInverse | app/settings_dialog.py:353-387 | up moves exactly when the item is not first, down exactly when it is not last, and each undoes the other |
| SettingsDialog.MoveUpPermutes | app/settings_dialog.py:353-369 | moving up keeps the siblings as a multiset and leaves the other exercises alone |
| SettingsDialog.MoveDownPermutes | app/settings_dialog.py:371-387 | moving down keeps the siblings as a multiset and leaves the other exercises alone |
| SettingsDialog.Delete | app/settings_dialog.py:334-351 | a subquestion is removed alone; an exercise is removed with its subquestions, but one with subquestions needs confirmation |
| SettingsDialog.AddExercise | app/settings_dialog.py:313-316 | a new empty "New Exercise" is appended and made current |
| SettingsDialog.AddSubquestion | app/settings_dialog.py:304-331 | "new" worth 1.0 is appended to the selected exercise, or the last one, and made current; with no exercise nothing changes |
| SettingsDialog.GetGradingScheme | app/settings_dialog.py:405-420 | one exercise per tree row, one subquestion per child, in tree order |
| SettingsDialog.ReadSubquestionDefaults | app/settings_dialog.py:413-418 | a blank name becomes "q{i+1}.{j+1}", and points that do not parse become 1.0 |
| SettingsDialog.GetGradingSchemeNamed | app/settings_dialog.py:409-413 | every name read from the tree is non-blank; a blank exercise name becomes "Exercise {i+1}" |
| SettingsDialog.MoveUpReordersScheme | app/settings_dialog.py:353-369 | as `get_grading_scheme` reads the tree, with every row named, moving an exercise up only exchanges two exercises of the returned scheme |
| SettingsDialog.GetExportTemplate | app/settings_dialog.py:402-403 | the stripped text, or the default template when blank; never empty, never padded |
| SettingsDialog.GetExportTemplateIdempotent | app/settings_dialog.py:402-403 | reading the template back from its own text gives the same template |
| SettingsDialog.GetSettings | app/settings_dialog.py:391-400 | score total absent exactly when the automatic box is ticked; the other fields not on the dialog keep their defaults |
| MainWindow.SelectStudent | app/main.py:324-334 | selecting the current student by number does nothing; another student becomes current and its PDF is loaded |
| MainWindow.SelectStudentIdempotent | app/main.py:324-327 | selecting the same student twice loads its PDF once |
| MainWindow.OnStudentSelected | app/main.py:336-339 | the list's None signal is ignored |
| MainWindow.PrevTarget | app/main.py:580-590 | previous only with a roster and a current student listed below the top row |
| MainWindow.NextTarget | app/main.py:592-602 | next only with a roster and a current student listed above the bottom row |
| MainWindow.SelectPrev | app/main.py:580-590 | steps to the previous visible student, or changes nothing |
| MainWindow.SelectNext | app/main.py:592-602 | steps to the next visible student, or changes nothing |
| MainWindow.PrevNextInverse | app/main.py:580-602 | with distinct numbers, previous then next (or next then previous) returns to the starting student |
| MainWindow.OnGradeChanged | app/main.py:348-352 | the score is stored for that pair only, the student's map being created when missing |
| MainWindow.ExtraFieldNames | app/main.py:367-376 | the loop with a seen-set computes the ordered union of extra column names |
| Text.StripIdempotent | app/settings_dialog.py:402-403 | stripping twice is stripping once |
| Text.ParseFloat | app/settings_dialog.py:414-417 | `float(str)` on decimal literals: whitespace around, optional sign, digits, optional fraction |
| Text.ParseFloatDecimal | app/grading_panel.py:622-623 | `a.b` reads as a + b/10^len(b) |

## Left out

- Qt widgets, painting, pixmaps, cursors and the hover cursor are left out. Colours, fonts and the macOS splitter workaround are left out too. They are presentation only.
- The stamp-popup wiring and the preset picker are left out; they are widget plumbing.
- PyMuPDF rendering and saving, and the pre-render cache, are left out. Baking is modelled as a list of drawing commands per page. Writing it is a parameter (`bakes`).
- Font metrics (advance width, word-wrap height) are parameters. They come from Qt.
- Trigonometric arrowheads are left out; only the guard that suppresses a head on a zero-length arrow is modelled. They are floating-point trigonometry.
- Floating-point grade rounding, averages, grade colours and preview texts are left out. These are `_compute_grade`, `_fill_average_row`, `_grade_color` and `_compute_student_grade`. They rely on round-half-even on binary floats.
- File-system and JSON/CSV I/O is left out. Loaders take parsed values; file existence and annotation loading are predicates. The `restkey` column of an over-long CSV row is not modelled.
- Panning pixel arithmetic is left out; it depends on scroll bars and the global cursor position.
- Progress-dialog events and debug logging are left out. `processEvents` is represented only by the cancel index.
- `Text.ParseFloat` reads plain decimal literals. Python's `float` also accepts exponents, `inf`, `nan` and underscores; these are not modelled.
- `Template.RenderField` looks the whole field name up as one key. Python resolves `{a.b}` and `{a[0]}` by attribute and index access on the looked-up value; on a string these raise `AttributeError` or `IndexError` (or succeed, for an index within the string). The export loop catches only `ValueError`, so such a template ends the export; the model does not follow it there.
- `Template.RenderField` checks a `!r`, `!s` or `!a` conversion but does not apply it. `!s` leaves a string unchanged; `!r` and `!a` would add quotes and escapes.
- `Template.FormatMap` parses the whole template before rendering any field. Python's `format_map` renders as it parses, so for a template with two faults the message can differ; whether it fails does not.
- `Template.IsDigit` and `Template.AllDigits` are ASCII digits; Python also takes other Unicode decimal digits in a field name and a spec. A width past available memory raises `MemoryError` in Python; the model builds the string. The format-spec rules are those of CPython 3.11 to 3.13.
- `GradingPanel.FilteredStudents` gets the "Annotations" search mode's saved annotations as a parameter. In the program they are loaded from disk.
- `SettingsDialog.GetSettings`: the fields the dialog does not show are taken from the loader's defaults (`DataStore.DefaultSettings`). `get_settings` (app/settings_dialog.py:392-400) leaves them to the `GradingSettings` dataclass defaults, which are not part of this model; the two are assumed to agree.
- `SettingsDialog.Delete`: the current item after a deletion is left to Qt and is not modelled.
- Spin-box ranges of the settings dialog are not modelled. A subquestion's points are shown as `str(float)`; the model keeps the text as typed.
- `MainWindow.SelectNext`: when the next row repeats the current student's number, nothing happens. This is what `_select_student` does, so the contract states it as a separate case.
- `MainWindow.PrevNextInverse` needs distinct numbers in the visible list. With repeated numbers the first row with a number stands for all of them.
- `ExportLoop.Export` takes each student's bake outcome as the `bakes` parameter. As written, the loop's call cannot succeed (see Findings); `ExportLoop.ExportAsWritten` is that case.
- `Exporter.ExportAll` models `export_all`, where a bake error propagates. The export loop in the main window catches it instead (`ExportLoop.Export`).
- Integer pixel sizes are unbounded; Qt's 32-bit widths are not modelled.
- `Text.Lower` and `Text.IsSpace` are ASCII-only. Python's `lower()` also maps other letters ('É' to 'é'), and `strip()` also removes other Unicode white space (no-break space, em space). The members that inherit this are `StudentList.Matches`, `StudentList.FilterMembers`, `GradingPanel.FilteredStudents`, `GradingPanel.Keep`, `GradingPanel.KeepMembers`, `DataStore.RowStudent` (stripped cells), the grade-cell parser and the scheme editor's names.
- `FilterMembers`: a query and a name that differ only in non-ASCII case do not match here; in Python they do.
- `KeepMembers`: the same ASCII-only case folding applies to the grade sheet's search modes.
- `LoadItem`: a record field of the wrong JSON type (a string page, a number text) is an error here. `load_annotations` (app/data_store.py:295-305) copies the values through without checking them.
- `GetExportTemplate`: a stored template that is not a string (say `null`) is an error here; `get_export_filename_template` (app/data_store.py:198-200) returns it as it is, and the export loop then fails on it.
- `LoadScheme`: exercise and subquestion names of the wrong JSON type are an error here; `load_grading_scheme` (app/data_store.py:148-157) reads them unchecked.
- `LoadPresets`: an item of the stored preset list that is not a string is an error here; `list(...)` (app/data_store.py:222-224) copies it through. A stored string or object is iterated as Python does (`DataStore.PresetsFromString`).
- `TargetAt`, `FindDragTarget` and `Valid` require every two-point shape to carry both `x2` and `y2` or neither (`EndPointsPaired`). `DataStore.LoadItem` accepts a record with only one of them; the drag hit test then raises `TypeError` at app/pdf_viewer.py:1035-1037. That error is not modelled.

## Findings

| source | as written | input that shows it | evidently intended | confidence | as-written member | corrected member |
|---|---|---|---|---|---|---|
| app/main.py:534-539 | `bake_annotations` is called with `log_path`, `debug`, `student`, `grades`, `scheme` and `settings`, which its definition (app/pdf_exporter.py:50) does not take, so the call raises `TypeError` | any student whose source PDF exists | the student's annotated PDF is written and counted as exported | high, not executed | ExportLoop.ExportAsWritten (ExportLoop.AsWrittenStepFails) | ExportLoop.Export (ExportLoop.CountsPartition) |
| app/student_list.py:56-82 | the list is cleared with signals blocked, which leaves no current row, then `setCurrentRow` runs with signals connected | a selected student who still matches the new query; or a query that drops the selected student | a kept selection emits nothing (the comment at the keep path says so), and the fallback emits the first student once | medium, not executed; depends on Qt resetting the current row on `clear()` | StudentList.ApplyFilterAsWritten (StudentList.AsWrittenKeepEmits, StudentList.AsWrittenFallbackEmitsTwice) | StudentList.ApplyFilter (StudentList.ApplyFilterOutcome) |
