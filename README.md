# pymerdoc in Dafny

This project models the logic of pymerdoc, a PyQt6 Markdown editor with a
Mermaid diagram preview and a "PNG to animated GIF" dialog. It covers two
parts of the program.

- **The GIF maker dialog** (`pymerdoc/gm.py`):
  - the ordered list of frame paths, with the list widget's rows and the selected row;
  - adding, removing and reordering frames;
  - the background colour and its palette buttons;
  - the frame delay;
  - the normalization geometry: the common canvas, the aspect-preserving scale, the truncation, and the centring offsets;
  - the path from "Create GIF" to the encoder request.
- **The editor window** (`pymerdoc/main.py`):
  - the rewriting of fenced mermaid blocks into `<div class="mermaid">` elements before the Markdown conversion;
  - the colour scheme of the HTML preview for each preview theme;
  - the "save your changes?" decision taken before closing, opening or starting a new document.

Modules:

- `Wrappers` holds `Option` and `Result`.
- `Geometry` holds frame sizes, the canvas, scaling, centring and normalized frames. Arithmetic is exact: the floating-point ratios of the program are compared by cross-multiplication, and `int()` truncation is an integer quotient.
- `GifMaker` holds the palette and the delay bounds. Its class `GifMakerDialog` has the fields the dialog updates in place: the path list, the display rows, the current row, the delay, the background colour and the button states. `Valid()` ties these fields together:
  - each row shows its path's base name;
  - paths are unique;
  - the current row is -1 or a valid row;
  - the delay is in 100..10000;
  - exactly the palette buttons of the background colour are checked.
- `Mermaid` holds the fence rewriter as a scanner over the text. `Parse` splits the text into the pieces the scanner sees: copied characters and matched blocks. `Source` and `Render` write those pieces back as the original text and as the rewritten text.
- `Editor` holds the preview colours, the `maybe_save` decision and the outcome of `save_file`.

What the geometry code does:

- Frames are scaled by `min(canvas_w / w, canvas_h / h)`. The factor is at least 1 because the canvas is the per-axis maximum, so frames are enlarged and never shrunk (`Geometry.NeverShrinks`).
- Scaled sides are truncated with `int()`, not rounded.
- The centring offsets use floor division. Any odd leftover pixel therefore goes to the right or bottom margin.

Some values come from the environment and are parameters of the model:

- the file dialogs' results (the chosen paths and the destination, where an empty string means the dialog was dismissed);
- the delay dialog's OK or Cancel and its value;
- the row the user clicks in the list widget (`GifMaker.GifMakerDialog.SelectRow`);
- the user's answer to the save question;
- for `save_file`: the current file name (empty while the document is untitled), the name chosen in the Save As dialog (empty when it is dismissed), and whether the write succeeds;
- the image decoder, a function from path to an optional frame size. `None` means `Image.open` or `convert` raised.

## Model

| member | source | states |
|---|---|---|
| Geometry.Max | pymerdoc/gm.py:270-271 | the maximum of a non-empty sequence is an element of it and is no smaller than any element |
| Geometry.Canvas | pymerdoc/gm.py:270-271 | every frame fits in the canvas, and each canvas side is the side of some frame (per-axis maxima) |
| Geometry.QuotientBounds | pymerdoc/gm.py:281-282 | the truncated quotient q of n by d is the largest q with q*d <= n |
| Geometry.ScaledSize | pymerdoc/gm.py:276-282 | the scaled frame fits in the canvas and touches it on at least one axis |
| Geometry.ScaledSizeExact | pymerdoc/gm.py:276-282 | along the axis with the smaller ratio the scaled side equals the canvas side; the other side is the exact proportional length truncated to whole pixels |
| Geometry.NeverShrinks | pymerdoc/gm.py:276-282 | a frame that fits in the canvas is scaled to a size at least as large as itself on both axes |
| Geometry.Offset | pymerdoc/gm.py:289-290 | the floor-division offset leaves a trailing margin equal to the leading one or one pixel more, and keeps a side that fits inside the canvas |
| Geometry.Frame.Left | pymerdoc/gm.py:289 | the pasted frame lies inside the canvas horizontally, and the right margin equals the left one or is one pixel wider |
| Geometry.Frame.Top | pymerdoc/gm.py:290 | the pasted frame lies inside the canvas vertically, and the bottom margin equals the top one or is one pixel taller |
| Geometry.Normalized | pymerdoc/gm.py:273-296 | one frame per input, in input order, on the common canvas and chosen background, each scaled to at least its own size |
| Geometry.SingleFrameUnchanged | pymerdoc/gm.py:270-293 | a single frame is its own canvas: no scaling and offsets (0, 0) |
| Geometry.TwoFrameExample | pymerdoc/gm.py:270-293 | 100x50 and 60x120 share a 100x120 canvas; both keep their size; top offset 35 for the first, left offset 20 for the second |
| GifMaker.CheckedFor | pymerdoc/gm.py:259-264 | a button is checked iff its colour is the background; never two buttons at once; some button is checked iff the colour is in the palette |
| GifMaker.SpinBoxValue | pymerdoc/gm.py:344-352 | the delay dialog returns a value in 100..10000, the entered value when it is in range, and the nearer bound otherwise |
| GifMaker.Basename | pymerdoc/gm.py:313 | the displayed name is a suffix of the path and contains no '/' |
| GifMaker.BasenameIsLastComponent | pymerdoc/gm.py:313 | the displayed name is the whole path or follows a '/', so it is the whole last component |
| GifMaker.BasenameAfterSlash | pymerdoc/gm.py:313 | the base name of dir + "/" + name is name when name has no '/' |
| GifMaker.AddAll | pymerdoc/gm.py:310-313 | the old list is kept as a prefix, and a path is in the result iff it was in the list or was chosen |
| GifMaker.AddAllAppends | pymerdoc/gm.py:310-313 | the appended paths come from the chosen files in their order, and duplicates are never introduced |
| GifMaker.AddAllKnown | pymerdoc/gm.py:310-313 | choosing only paths already in the list leaves it unchanged |
| GifMaker.RemoveAt | pymerdoc/gm.py:320 | pop(i) leaves a list one shorter, with the elements before i in place and those after it moved down by one |
| GifMaker.RemoveAtShifts | pymerdoc/gm.py:320 | pop(i) drops exactly one occurrence of the path (as a multiset), and a unique list stays unique and no longer holds it |
| GifMaker.Swap | pymerdoc/gm.py:329-330 | the tuple swap moves each of the two elements to the other's index and leaves every other element in place |
| GifMaker.SwapPermutes | pymerdoc/gm.py:329-330 | a swap keeps the multiset and uniqueness, and undoes itself |
| GifMaker.SwapKeepsRows | pymerdoc/gm.py:326-330 | moving a row and swapping the same two paths keeps every row showing its path's base name |
| GifMaker.RemoveKeepsRows | pymerdoc/gm.py:319-320 | taking out a row and popping the same path keeps every row showing its path's base name |
| GifMaker.RowAfterRemoval | pymerdoc/gm.py:317-319 | after removing a row the selection is a valid row of the shorter list, or -1 exactly when the list became empty |
| GifMaker.LoadAll | pymerdoc/gm.py:374-378 | on success one size per path in order, each the decoder's result; otherwise the error is the first path that fails, and it fails iff some path fails |
| GifMaker.GifMakerDialog.constructor | pymerdoc/gm.py:48-50 | empty list, no selection, delay 1000 ms, white background with the white button checked |
| GifMaker.GifMakerDialog.SetBgColor | pymerdoc/gm.py:259-264 | the background becomes the colour, and a button is checked iff its colour equals it; nothing else changes |
| GifMaker.AppendKeepsRows | pymerdoc/gm.py:311-313 | appending a path to the list and its base name to the widget keeps every row showing its path's base name |
| GifMaker.AppendKeepsDistinct | pymerdoc/gm.py:310-311 | appending a path that the `not in` test found absent keeps the path list free of duplicates |
| GifMaker.GifMakerDialog.AddFile | pymerdoc/gm.py:310-312 | one pass of the loop: a path already in the list changes nothing, any other path is appended with its row; the other state is unchanged |
| GifMaker.GifMakerDialog.AddFiles | pymerdoc/gm.py:301-313 | the path list becomes AddAll of the old list and the chosen files, rows stay in step, and the other state is unchanged |
| GifMaker.GifMakerDialog.SelectRow | pymerdoc/gm.py:317 | a click makes the row current (currentRow then returns it) and changes nothing else |
| GifMaker.GifMakerDialog.RemoveSelected | pymerdoc/gm.py:315-320 | without a selection nothing changes; otherwise the selected row leaves both lists, and the row that followed it (or, for the last row, the one before it) becomes current |
| GifMaker.GifMakerDialog.MoveUp | pymerdoc/gm.py:322-330 | with a row below the first selected, it swaps with the row above and stays selected; otherwise nothing changes |
| GifMaker.GifMakerDialog.MoveDown | pymerdoc/gm.py:332-340 | with a selected row above the last, it swaps with the row below and stays selected; otherwise nothing changes (corrected guard, see Findings) |
| GifMaker.GifMakerDialog.SetDelay | pymerdoc/gm.py:342-354 | on OK the delay becomes the dialog's clamped value; on Cancel it is unchanged; the delay stays in 100..10000 |
| GifMaker.GifMakerDialog.NormalizeImages | pymerdoc/gm.py:266-299 | None exactly when the list is empty or a frame has a zero side; otherwise the normalized frames on the dialog's background |
| GifMaker.GifMakerDialog.ConvertToGif | pymerdoc/gm.py:356-392 | an empty list warns; a dismissed save dialog stops; the first frame that fails to open aborts with its path; otherwise the encoder receives the normalized frames in list order, the dialog's delay and an endless loop |
| GifMaker.MoveDownAsWritten | pymerdoc/gm.py:332-340 | move_down as written: with a row above the last selected it swaps both lists; with no selection and two or more frames it swaps the last and first paths but not the rows; either way row + 1 becomes current |
| GifMaker.MoveDownWithoutSelectionDesyncs | pymerdoc/gm.py:332-340 | a concrete two-frame list on which move_down as written leaves row 0 showing a name that is not its path's base name |
| Mermaid.FindClose | pymerdoc/main.py:97 | the non-greedy capture ends at the first closing fence at or after the start position, or there is none |
| Mermaid.RewriteRendersPieces | pymerdoc/main.py:94-105 | the substitution outputs the pieces of the input in order: characters unchanged, each matched block as the wrapped captured text |
| Mermaid.ParseReadsInput | pymerdoc/main.py:94-105 | writing the pieces back as fence, captured text, fence yields the input: text outside matches is kept in order |
| Mermaid.ParsedBlocksClosed | pymerdoc/main.py:97 | no captured diagram contains a closing fence |
| Mermaid.NoFenceUnchanged | pymerdoc/main.py:104 | text without an opening fence is returned unchanged |
| Mermaid.UnclosedUnchanged | pymerdoc/main.py:97-104 | text with no closing fence starting after the first 11 characters (the opening fence's length) is returned unchanged |
| Mermaid.PrefixCopied | pymerdoc/main.py:104 | text in which no opening fence starts is copied unchanged, and the rewriting goes on after it |
| Mermaid.UnclosedAfterPrefix | pymerdoc/main.py:97-104 | an opening fence with no closing fence after it, wherever the scan reaches it, is left as it is with the text before it |
| Mermaid.BlockRewritten | pymerdoc/main.py:97-104 | a complete block at the front becomes a mermaid div around exactly its captured text, possibly several lines, followed by the rewritten rest |
| Mermaid.BlockAfterPrefix | pymerdoc/main.py:97-104 | a complete block after fence-free text becomes a mermaid div; the text before it is copied and the rest is rewritten |
| Mermaid.DiagramExample | tests/test_markdown.py:43-54 | the two-line "graph TD" block of the test becomes a `<div class="mermaid">` around the same lines |
| Editor.PreviewColoursFor | pymerdoc/main.py:345-387 | the light scheme is chosen iff the preview theme is "light"; every other theme gets the dark scheme |
| Editor.ThemeSelectsScheme | pymerdoc/main.py:345-346 | "light" gives background #ffffff and any other name #1e1e1e; the system ("default") and dark themes get the dark scheme; the schemes differ in every colour |
| Editor.MaybeSave | pymerdoc/main.py:269-287 | the question is asked iff the document is modified; a save starts iff the answer is Save; the caller is stopped iff the answer is Cancel |
| Editor.ProceedOnlyAfterSaveOrDiscard | pymerdoc/main.py:269-287 | going on with a modified document means the user chose Discard, or chose Save and a save was started |
| Editor.SaveFile | pymerdoc/main.py:242-267 | a file is written iff there is a current file or a chosen name and the write succeeds; it is the current file when there is one, else the chosen name |
| Editor.ProceedsAfterFailedSave | pymerdoc/main.py:269-287 | maybe_save as written lets the caller go on after Save even when save_file wrote nothing |
| Editor.UntitledSaveDismissedProceeds | pymerdoc/main.py:269-287 | an untitled modified document, Save pressed and the Save As dialog dismissed: nothing is written, yet maybe_save returns True |
| Editor.MaybeSaveChecked | pymerdoc/main.py:269-287 | corrected decision: asks iff modified; the caller goes on iff the document is unmodified, Discard was chosen, or Save was chosen and the file was written |

## Left out

- Pixel work is not modelled: resampling with Lanczos, filling the canvas, pasting and the RGB conversion of each frame. A normalized frame is described by its canvas, background, source size, scaled size and offsets.
- Geometry.ScaledSizeExact: the sizes are computed in exact arithmetic. The program multiplies by a floating-point ratio before `int()`, and a product that is a whole number in exact arithmetic can fall just below it in IEEE doubles. The program's size may then be one pixel smaller.
- GifMaker.LoadAll: the decoder is a parameter returning an optional size. Which files Pillow can open, and the error message it raises, are not modelled.
- GifMaker.GifMakerDialog.ConvertToGif:
  - it stops at the encoder request;
  - the GIF encoding itself and a failure while writing the file (the `except` at gm.py:397-398) are left out;
  - the success message and the preview dialog (`preview_gif`) that follow are left out.
- GifMaker.GifMakerDialog.NormalizeImages:
  - the two failures that make `normalize_images` return None (an empty list, and a frame with a zero side) are checked before the loop rather than raised part-way;
  - either way the result is None and no frame is kept;
  - the error message box is not modelled.
- GifMaker.GifMakerDialog.RemoveSelected: the new current row after `takeItem` is the list widget's own behaviour, not code of this program. The model follows Qt's handling for a single-selection view such as QListWidget, in QAbstractItemView::rowsAboutToBeRemoved: the following row becomes current, or the preceding one when the last row is removed, or none when no row is left. Only the bounds in `RowAfterRemoval`'s contract hold whichever neighbour Qt picks.
- GifMaker.GifMakerDialog.SelectRow: keyboard navigation and other ways Qt can change the current row are not modelled separately; each is a call of SelectRow.
- GifMaker.SpinBoxValue: `QInputDialog.getInt` keeps its value within 100..10000, which the model states as a clamp. The step of 100 only affects the arrow buttons and is not modelled.
- The palette names and the button styling (`ColorButton`, `apply_theme`) only affect appearance. Only the colours are modelled.
- `preview_gif` and the dialog's playback controls, `mc.py` (the diagram converter window), `theme_manager.py` (except the three preview theme names it sets), the Markdown-to-HTML conversion after the mermaid step, the web view, file reading and writing, menus and timers are outside this model.
- Editor.PreviewColoursFor: only the colours chosen from the theme name are modelled. The remaining fixed style sheet text and the mermaid `theme` setting are not. The mermaid setting is the theme name itself.
- Editor.MaybeSave: it models the code as written, which ignores what `save_file` did. `Editor.SaveFile` models that outcome, and the Findings table covers the consequence. `_save_file` never clears the document's modified flag; that flag is an input here.
- The window's title, the list widget's other display state and the message boxes are not modelled.

## Findings

| source | as written | input that shows it | evidently intended | confidence | as-written member | corrected member |
|---|---|---|---|---|---|---|
| pymerdoc/gm.py:332-340 | `move_down` runs whenever `current < count - 1`, including with no selection (`current == -1`): `takeItem(-1)` moves no row, row 0 becomes selected, and `image_list[-1], image_list[0]` swaps the last and first paths | paths `frames/a.png`, `frames/b.png` with no row selected: the paths become `frames/b.png`, `frames/a.png` while the rows still read `a.png`, `b.png`, so the GIF's frame order no longer matches the list | do nothing without a selection, as `move_up` (guard `current > 0`) and `remove_selected` do | not executed | GifMaker.MoveDownWithoutSelectionDesyncs | GifMaker.GifMakerDialog.MoveDown |
| pymerdoc/main.py:269-287 | after Save, `maybe_save` returns True whatever `save_file` did. `save_file` writes nothing when an untitled document's Save As dialog is dismissed (main.py:249-256), or when the write raises (main.py:265-267) | an untitled modified document; close the window, press Save, dismiss the Save As dialog: the window closes and the text is lost (New and Open likewise go on) | go on only when the file was written, and otherwise stay as for Cancel | not executed | Editor.UntitledSaveDismissedProceeds | Editor.MaybeSaveChecked |
