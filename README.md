# PDF image extractor, modelled in Dafny

The program shows the pages of a PDF one at a time, scaled to fit the screen.
The user drags a rectangle over the shown page with the mouse. On release, the
program crops the selected region out of the full-resolution page, saves it as
`Im<n>.jpg` and reports the region's box rescaled to a 595 x 842 reference frame.
The Left and Right arrow keys change the page.

The model has three modules:

- `Geometry` (geometry.dfy) holds the coordinate arithmetic as pure functions with lemmas:
  - Python's truncating `int()` as `Trunc`;
  - the fit-to-screen scale and display size;
  - the map from a display selection to a page-pixel box, with per-axis scales, min/max ordering and truncation;
  - the rescaling into the reference frame.
- `Navigation` (navigation.dfy) holds the page-index arithmetic of the two arrow keys, alone and over any sequence of key presses.
- `Extractor` (extractor.dfy) holds the class `PdfImageExtractor`:
  - it has the instance fields of the original class;
  - its methods change exactly the fields the original handlers assign;
  - the commit of a selection is specified by the pure function `Commit`.

Pages are opaque images of which only the `(width, height)` size is kept. Python floats are exact reals. Truncation toward zero is written out, because it differs from `.Floor` on negative coordinates.

Modelling choices:

- **Canvas handles.** The canvas gives handles to the items it creates. The model keeps a counter `nextItem` for this:
  - a press creates a rectangle only when none exists;
  - showing a page creates an image item and replaces an existing rectangle with a new one.
- **Saved files.** Saving the crop is recorded as an `Extract` (number, page, crop box, reference box) appended to `extracted`.
- **Errors.** A commit can stop early, on a guard or an exception in the original. Each such case is an `Outcome` that changes no state, taken in the order the steps would fail:
  - `NoImage`: no page was ever shown (the guard on the current image);
  - `MissingPage`: the shown page is not in the loaded list, which happens after loading an empty document (an `IndexError`);
  - `ZeroDisplay`: the display image has a zero side (a `ZeroDivisionError`).
- **Zero-area selections.** The code passes a zero-area selection to crop and save like any other, and the model records it. It does not reject degenerate selections.
- **Screen size.** It is fixed when the extractor is constructed; the original reads it from the root window on every redisplay.

## Model

| member | source | states |
|---|---|---|
| `Geometry.Trunc` | test.py:119-122 | `int()` truncates toward zero: for r >= 0 the result is the largest integer not above r, for r < 0 the smallest integer not below r |
| `Geometry.TruncOdd` | test.py:119-122 | truncation is odd, Trunc(-r) == -Trunc(r), which floor is not |
| `Geometry.FitScale` | test.py:68 | the scale is positive, keeps both scaled sides within the screen and makes one of them equal to the screen side |
| `Geometry.FitScaleIsLargest` | test.py:68 | no scale larger than the chosen one keeps the page on the screen |
| `Geometry.FitScaleChoice` | test.py:68 | the min picks the width ratio exactly when sw * ih <= sh * iw, else the height ratio |
| `Geometry.FitSize` | test.py:69-70 | the truncated display size never exceeds the screen on either axis and equals it on at least one |
| `Geometry.FitSizeExact` | test.py:68-70 | the display size equals an integer-only reference: the limiting side is the screen side, the other is scaled with integer division |
| `Geometry.FitKeepsAspect` | test.py:68-70 | the display image keeps the page's aspect ratio up to truncation: the cross products w * H and h * W differ by less than one page side |
| `Geometry.SourceBox` | test.py:110-122 | the page-pixel box is normalised: left <= right and top <= bottom |
| `Geometry.SourceBoxSymmetric` | test.py:113-116 | swapping the start and current corners gives the identical box |
| `Geometry.SourceBoxWithinPage` | test.py:110-122 | a selection inside the display image gives a box inside the page |
| `Geometry.SourceBoxWidth` | test.py:110-122 | for non-negative corners, the box width is the horizontal drag times the x scale, to within one pixel |
| `Geometry.SourceBoxHeight` | test.py:110-122 | for non-negative corners, the box height is the vertical drag times the y scale, to within one pixel |
| `Geometry.RefFrame` | test.py:130-136 | from 0 <= left <= right <= page width follows 0 <= bbox_left <= bbox_right <= 595, and likewise vertically with 842 |
| `Geometry.RefFrameLinear` | test.py:133-136 | the reference box sides are the pixel box sides times 595 / width and 842 / height |
| `Geometry.RefFrameRoundTrip` | test.py:133-136 | the pixel box is recovered exactly from the reference box and the page size |
| `Geometry.LetterPageExample` | test.py:64-136 | a 2550 x 3300 page on a 1275 x 1650 screen is shown at scale 0.5, and a drag from (100, 100) to (300, 400) crops (200, 200, 600, 800) |
| `Navigation.PrevIndex` | test.py:143-146 | Left moves back exactly one page when the page is above 0 and stays put exactly at page 0 |
| `Navigation.NextIndex` | test.py:148-151 | Right moves forward exactly one page below len(images) - 1 and stays put otherwise; a valid index stays valid |
| `Navigation.NavigateStaysOnPages` | test.py:143-151 | any sequence of arrow keys keeps 0 <= current_page < len(images) |
| `Navigation.RightRepeated` | test.py:148-151 | k presses of Right move to min(page + k, len(images) - 1) |
| `Navigation.LeftRepeated` | test.py:143-146 | k presses of Left move to max(page - k, 0) |
| `Navigation.NextThenPrev` | test.py:143-151 | Right then Left returns to the same page when not on the last page |
| `Navigation.PrevThenNext` | test.py:143-151 | Left then Right returns to the same page when not on the first page |
| `Extractor.Commit` | test.py:104-141 | a commit fails with NoImage exactly when no image was shown, with MissingPage exactly when the page is not loaded, and with ZeroDisplay exactly when the display has a zero side; otherwise it carries the current number and page and a normalised box |
| `Extractor.CommitSymmetric` | test.py:113-116 | the committed extract does not depend on the drag direction |
| `Extractor.CommitWithinPage` | test.py:110-136 | a selection on the display image commits a crop inside the page and a reference box inside 595 x 842 |
| `Extractor.CopyPages` | test.py:55 | the copied list has the same length and the same page sizes as the original list |
| `Extractor.PdfImageExtractor.constructor` | test.py:22-33 | the initial state: no rectangle or corners, no pages, page 0, counter 1, scale 1.0 |
| `Extractor.PdfImageExtractor.LoadImages` | test.py:52-57 | both page lists become the given pages and the page resets to 0, which is then shown with an existing rectangle recreated as a new item; the counter and the extracts are kept |
| `Extractor.PdfImageExtractor.ShowImage` | test.py:59-79 | with no pages nothing changes; otherwise the current page is shown at FitScale and FitSize, one image item is created, and an existing rectangle is replaced by a new one |
| `Extractor.PdfImageExtractor.RedrawRect` | test.py:81-84 | an existing rectangle is replaced by a new canvas item; with none, nothing changes |
| `Extractor.PdfImageExtractor.OnButtonPress` | test.py:86-90 | the start corner becomes the press point; a rectangle is created only when none exists, otherwise the same handle is kept |
| `Extractor.PdfImageExtractor.OnMovePress` | test.py:92-95 | the current corner becomes the pointer position |
| `Extractor.PdfImageExtractor.OnButtonRelease` | test.py:97-102 | without a rectangle nothing changes; with one, the current corner moves to the release point and the selection is committed |
| `Extractor.PdfImageExtractor.SaveImageBbox` | test.py:104-141 | the outcome is Commit of the current state; a successful commit appends its extract and increments the counter by exactly one, any other outcome changes nothing |
| `Extractor.PdfImageExtractor.PrevPage` | test.py:143-146 | the page becomes PrevIndex of the old one; at page 0 nothing changes and nothing is redrawn, otherwise the new page is shown |
| `Extractor.PdfImageExtractor.NextPage` | test.py:148-151 | the page becomes NextIndex of the old one; on the last page nothing changes, otherwise the new page is shown |
| `Extractor.PdfImageExtractor.OnKey` | test.py:39-40 | the Left and Right keys move the page exactly as Navigation's Step; when the page does not move nothing changes, otherwise the page is redrawn and an existing rectangle recreated |
| `Extractor.TwoSelections` | test.py:86-141 | on a fresh extractor with a loaded document, two drags commit Im1 and Im2 from the first page, and the second press reuses the first rectangle |

The class invariant `Valid` of `PdfImageExtractor` is kept by every method. It states:

- both page lists are equal and hold positive sizes;
- the current page is a valid index whenever pages are loaded, and the shown image is that page;
- the display size and scale factor are FitSize and FitScale of the shown image;
- every rectangle handle was issued by the canvas;
- a rectangle implies a start corner;
- the counter is one more than the number of extracts, and the extracts are numbered 1, 2, 3, … in order.

From this invariant, `imageCounter` starts at 1, grows by exactly one per commit, and `LoadImages` never resets it.

## Left out

- The Tk window, menu, canvas drawing, window geometry, event binding and `canvasx`/`canvasy`. Events are method calls that take canvas coordinates as reals.
- The screen size is a constructor parameter; nothing models where the window system gets it from.
- `open_pdf`, the file dialog and the message box.
- Rasterisation by `convert_from_path`, the DPI and the poppler path. `LoadImages` takes the sequence of page sizes; its precondition that every page has positive size stands for what the rasteriser produces.
- The pixel work of PIL: the LANCZOS resize, the crop and the JPEG save. A crop is modelled only as the integer box passed to it. A save is the `Extract` recorded in `extracted`. A save that fails (a filesystem error, for instance) would skip the report and the counter increment; the model does not have that failure, and every crop that reaches the save commits.
- Whether PIL can resize to, or save, an image with a zero side. The model records such crops, and gives a zero-sided display image the ZeroDisplay outcome when a selection is committed.
- Creating the `image` output folder, and the file path string.
- `print` and the float formatting of the report line. The report is modelled by the number and the reference box it carries.
- The coordinates of the drawn rectangle (`create_rectangle`, `coords`), and the Tk error when the rectangle is drawn before a current corner exists.
- IEEE floating-point rounding. All arithmetic is exact.
- Extractor.PdfImageExtractor.SaveImageBbox: requires both corners to be set. Its only caller, the release handler, sets the current corner first, and a rectangle exists only after a press has set the start corner.
- Navigation.Navigate: describes a sequence of arrow keys by the page index alone, without the redisplay that each move causes.
