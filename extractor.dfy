/** The PDF image extractor: its instance state, the mouse and arrow-key
    handlers, page display and the commit of a selection as a cropped
    image plus a report of its box in the reference frame.

    Pages are opaque images of which only the size matters. The canvas
    hands out item handles from a counter (`nextItem`); the file written
    for a commit is recorded as an `Extract` in `extracted`. */
module Extractor {
  import opened Geometry
  import opened Navigation

  datatype Option<T> = None | Some(value: T)

  /** One committed selection: the file number n of "Im<n>.jpg", the page
      it was cropped from, the crop box in page pixels and the reported box
      in the reference frame. */
  datatype Extract = Extract(number: nat, page: nat, box: Box, ref: RefBox)

  /** What a mouse release leads to. Apart from NoSelection (no rectangle
      yet) and Committed, these are the ways a commit stops without an
      effect: no page shown, the shown page missing from the loaded list
      (an IndexError), or a display image with a zero side (a
      ZeroDivisionError). */
  datatype Outcome =
    | NoSelection
    | NoImage
    | MissingPage
    | ZeroDisplay
    | Committed(e: Extract)

  /** The point lies on the display image. */
  predicate InDisplay(p: Point, display: Size)
  {
    0.0 <= p.x <= display.width as real && 0.0 <= p.y <= display.height as real
  }

  predicate AllPositive(pages: seq<Size>)
  {
    forall i :: 0 <= i < |pages| ==> Positive(pages[i])
  }

  /** The commit of a selection from `start` to `cur`, numbered `number`, on
      page `page`, with the given shown image and display size, checked in
      the order the steps would fail. */
  function Commit(number: nat, page: nat, start: Point, cur: Point,
                  currentImage: Option<Size>, display: Option<Size>, originals: seq<Size>): (o: Outcome)
    requires currentImage.Some? <==> display.Some?
    requires AllPositive(originals)
    ensures o != NoSelection
    ensures o == NoImage <==> currentImage.None?
    ensures o == MissingPage <==> currentImage.Some? && |originals| <= page
    ensures o == ZeroDisplay <==> currentImage.Some? && page < |originals| && !Positive(display.value)
    ensures o.Committed? ==>
      o.e.number == number && o.e.page == page
      && o.e.box.left <= o.e.box.right && o.e.box.top <= o.e.box.bottom
  {
    if currentImage.None? then NoImage
    else if |originals| <= page then MissingPage
    else if !Positive(display.value) then ZeroDisplay
    else
      var box := SourceBox(start, cur, display.value, originals[page]);
      Committed(Extract(number, page, box, RefFrame(box, originals[page])))
  }

  /** Swapping the two corners of a selection commits the same extract. */
  lemma CommitSymmetric(number: nat, page: nat, start: Point, cur: Point,
                        currentImage: Option<Size>, display: Option<Size>, originals: seq<Size>)
    requires currentImage.Some? <==> display.Some?
    requires AllPositive(originals)
    ensures Commit(number, page, start, cur, currentImage, display, originals)
         == Commit(number, page, cur, start, currentImage, display, originals)
  {
    if currentImage.Some? && page < |originals| && Positive(display.value) {
      SourceBoxSymmetric(start, cur, display.value, originals[page]);
    }
  }

  /** A selection drawn on the display image yields a crop box inside the
      page and a reported box inside the 595 x 842 frame. */
  lemma CommitWithinPage(number: nat, page: nat, start: Point, cur: Point,
                         currentImage: Option<Size>, display: Option<Size>, originals: seq<Size>)
    requires currentImage.Some? <==> display.Some?
    requires AllPositive(originals)
    requires display.Some? && InDisplay(start, display.value) && InDisplay(cur, display.value)
    ensures var o := Commit(number, page, start, cur, currentImage, display, originals);
      o.Committed? ==>
        && 0 <= o.e.box.left <= o.e.box.right <= originals[page].width
        && 0 <= o.e.box.top <= o.e.box.bottom <= originals[page].height
        && 0.0 <= o.e.ref.left <= o.e.ref.right <= RefWidth as real
        && 0.0 <= o.e.ref.top <= o.e.ref.bottom <= RefHeight as real
  {
    if currentImage.Some? && page < |originals| && Positive(display.value) {
      SourceBoxWithinPage(start, cur, display.value, originals[page]);
    }
  }

  /** The loaded pages are copied one by one into a fresh list. */
  method CopyPages(pages: seq<Size>) returns (copies: seq<Size>)
    ensures copies == pages
  {
    copies := [];
    var i := 0;
    while i < |pages|
      invariant i <= |pages|
      invariant copies == pages[..i]
    {
      copies := copies + [pages[i]];
      i := i + 1;
    }
  }

  class PdfImageExtractor {
    /** The screen the root window is on. */
    const screen: Size

    var rect: Option<nat>
    var start: Option<Point>
    var cur: Option<Point>
    var images: seq<Size>
    var originalImages: seq<Size>
    var currentImage: Option<Size>
    /** The size of the display image shown for currentImage. */
    var display: Option<Size>
    var currentPage: nat
    var imageCounter: nat
    var scaleFactor: real
    /** The handle the canvas gives to the next item it creates. */
    var nextItem: nat
    var extracted: seq<Extract>

    /** The invariant that holds between any two steps of a handler. */
    ghost predicate Wellformed()
      reads this
    {
      && Positive(screen)
      && images == originalImages
      && AllPositive(originalImages)
      && (|images| == 0 ==> currentPage == 0)
      && (0 < |images| ==> currentPage < |images|)
      && (currentImage.Some? <==> display.Some?)
      && (currentImage.Some? ==>
            && Positive(currentImage.value)
            && display.value == FitSize(currentImage.value, screen)
            && scaleFactor == FitScale(currentImage.value, screen))
      && 1 <= nextItem
      && (rect.Some? ==> 1 <= rect.value < nextItem && start.Some?)
      && imageCounter == |extracted| + 1
      && (forall i :: 0 <= i < |extracted| ==> extracted[i].number == i + 1)
    }

    /** Between events, the shown image is the current page whenever pages
        are loaded. */
    ghost predicate Valid()
      reads this
    {
      Wellformed() && (0 < |images| ==> currentImage == Some(images[currentPage]))
    }

    constructor(screen: Size)
      requires Positive(screen)
      ensures Valid()
      ensures this.screen == screen
      ensures rect.None? && start.None? && cur.None?
      ensures images == [] && originalImages == [] && currentImage.None? && display.None?
      ensures currentPage == 0 && imageCounter == 1 && scaleFactor == 1.0
      ensures nextItem == 1 && extracted == []
    {
      this.screen := screen;
      rect := None;
      start := None;
      cur := None;
      images := [];
      originalImages := [];
      currentImage := None;
      display := None;
      currentPage := 0;
      imageCounter := 1;
      scaleFactor := 1.0;
      nextItem := 1;
      extracted := [];
    }

    /** Replace the document by the rasterised `pages` and show the first
        one. The image counter and the extracts are kept. */
    method LoadImages(pages: seq<Size>)
      requires Valid()
      requires AllPositive(pages)
      modifies this`images, this`originalImages, this`currentPage
      modifies this`currentImage, this`display, this`scaleFactor, this`nextItem, this`rect
      ensures Valid()
      ensures originalImages == pages && images == pages && currentPage == 0
      ensures imageCounter == old(imageCounter) && extracted == old(extracted)
      ensures |pages| == 0 ==>
        currentImage == old(currentImage) && display == old(display) && scaleFactor == old(scaleFactor)
        && rect == old(rect) && nextItem == old(nextItem)
      ensures 0 < |pages| ==>
        && currentImage == Some(pages[0]) && display == Some(FitSize(pages[0], screen))
        && rect == (if old(rect).Some? then Some(old(nextItem) + 1) else None)
        && nextItem == old(nextItem) + (if old(rect).Some? then 2 else 1)
    {
      originalImages := pages;
      images := CopyPages(originalImages);
      currentPage := 0;
      ShowImage();
    }

    /** Show the current page scaled to fit the screen, then redraw the
        selection rectangle on top of it. With no pages loaded nothing
        happens. */
    method ShowImage()
      requires Wellformed()
      modifies this`currentImage, this`display, this`scaleFactor, this`nextItem, this`rect
      ensures Valid()
      ensures |images| == 0 ==>
        currentImage == old(currentImage) && display == old(display) && scaleFactor == old(scaleFactor)
        && nextItem == old(nextItem) && rect == old(rect)
      ensures 0 < |images| ==>
        && currentImage == Some(images[currentPage])
        && display == Some(FitSize(images[currentPage], screen))
        && scaleFactor == FitScale(images[currentPage], screen)
        && rect == (if old(rect).Some? then Some(old(nextItem) + 1) else None)
        && nextItem == old(nextItem) + (if old(rect).Some? then 2 else 1)
    {
      if |images| == 0 {
        return;
      }
      var image := images[currentPage];
      currentImage := Some(image);
      // scale_factor = min(screen / image) per axis, sides truncated with int()
      scaleFactor := FitScale(image, screen);
      display := Some(FitSize(image, screen));
      // the display image is a new canvas item
      nextItem := nextItem + 1;
      RedrawRect();
    }

    /** Replace an existing selection rectangle by a new canvas item. */
    method RedrawRect()
      requires Wellformed()
      modifies this`rect, this`nextItem
      ensures Wellformed()
      ensures old(rect).None? ==> rect.None? && nextItem == old(nextItem)
      ensures old(rect).Some? ==> rect == Some(old(nextItem)) && nextItem == old(nextItem) + 1
    {
      if rect.Some? {
        rect := Some(nextItem);
        nextItem := nextItem + 1;
      }
    }

    /** Mouse button pressed at (x, y): the start corner moves there, and a
        rectangle is created only if there is none yet. */
    method OnButtonPress(x: real, y: real)
      requires Valid()
      modifies this`start, this`rect, this`nextItem
      ensures Valid()
      ensures start == Some(Point(x, y))
      ensures old(rect).None? ==> rect == Some(old(nextItem)) && nextItem == old(nextItem) + 1
      ensures old(rect).Some? ==> rect == old(rect) && nextItem == old(nextItem)
    {
      start := Some(Point(x, y));
      if rect.None? {
        rect := Some(nextItem);
        nextItem := nextItem + 1;
      }
    }

    /** Pointer dragged to (x, y): the current corner follows it. */
    method OnMovePress(x: real, y: real)
      requires Valid()
      modifies this`cur
      ensures Valid()
      ensures cur == Some(Point(x, y))
    {
      cur := Some(Point(x, y));
    }

    /** Mouse button released at (x, y): with a rectangle on the canvas, the
        current corner moves there and the selection is committed. */
    method OnButtonRelease(x: real, y: real) returns (o: Outcome)
      requires Valid()
      modifies this`cur, this`imageCounter, this`extracted
      ensures Valid()
      ensures rect.None? ==> o == NoSelection && unchanged(this)
      ensures rect.Some? ==>
        && cur == Some(Point(x, y))
        && o == Commit(old(imageCounter), currentPage, start.value, Point(x, y), currentImage, display, originalImages)
      ensures o.Committed? ==> imageCounter == old(imageCounter) + 1 && extracted == old(extracted) + [o.e]
      ensures !o.Committed? ==> imageCounter == old(imageCounter) && extracted == old(extracted)
    {
      if rect.None? {
        return NoSelection;
      }
      cur := Some(Point(x, y));
      o := SaveImageBbox();
    }

    /** Crop the selection out of the shown page at full resolution, record
        it under the current image number together with its box in the
        reference frame, and advance the number. */
    method SaveImageBbox() returns (o: Outcome)
      requires Valid() && start.Some? && cur.Some?
      modifies this`imageCounter, this`extracted
      ensures Valid()
      ensures o == Commit(old(imageCounter), currentPage, start.value, cur.value, currentImage, display, originalImages)
      ensures o.Committed? ==> imageCounter == old(imageCounter) + 1 && extracted == old(extracted) + [o.e]
      ensures !o.Committed? ==> imageCounter == old(imageCounter) && extracted == old(extracted)
    {
      if currentImage.None? {
        return NoImage;
      }
      var canvasWidth, canvasHeight := display.value.width, display.value.height;
      if |originalImages| <= currentPage {
        return MissingPage;
      }
      var original := originalImages[currentPage];
      if canvasWidth == 0 || canvasHeight == 0 {
        return ZeroDisplay;
      }
      // per-axis scale back to page pixels, min/max ordering, int() truncation
      var box := SourceBox(start.value, cur.value, display.value, original);
      // the same box rescaled into the 595 x 842 reference frame
      var ref := RefFrame(box, original);

      var e := Extract(imageCounter, currentPage, box, ref);
      extracted := extracted + [e];
      imageCounter := imageCounter + 1;
      o := Committed(e);
    }

    /** Left arrow: go back one page and show it, unless on the first page. */
    method PrevPage()
      requires Valid()
      modifies this`currentPage, this`currentImage, this`display, this`scaleFactor, this`nextItem, this`rect
      ensures Valid()
      ensures currentPage == PrevIndex(old(currentPage))
      ensures old(currentPage) == 0 ==> unchanged(this)
      ensures 0 < old(currentPage) ==>
        nextItem == old(nextItem) + (if old(rect).Some? then 2 else 1)
        && rect == (if old(rect).Some? then Some(old(nextItem) + 1) else None)
    {
      if currentPage > 0 {
        currentPage := currentPage - 1;
        ShowImage();
      }
    }

    /** Right arrow: go forward one page and show it, unless on the last page. */
    method NextPage()
      requires Valid()
      modifies this`currentPage, this`currentImage, this`display, this`scaleFactor, this`nextItem, this`rect
      ensures Valid()
      ensures currentPage == NextIndex(old(currentPage), |images|)
      ensures old(currentPage) as int >= |images| - 1 ==> unchanged(this)
      ensures old(currentPage) < |images| - 1 ==>
        nextItem == old(nextItem) + (if old(rect).Some? then 2 else 1)
        && rect == (if old(rect).Some? then Some(old(nextItem) + 1) else None)
    {
      if currentPage < |images| - 1 {
        currentPage := currentPage + 1;
        ShowImage();
      }
    }

    /** The arrow-key bindings of the root window. */
    method OnKey(key: Key)
      requires Valid()
      modifies this`currentPage, this`currentImage, this`display, this`scaleFactor, this`nextItem, this`rect
      ensures Valid()
      ensures currentPage == Step(old(currentPage), |images|, key)
      ensures currentPage == old(currentPage) ==> unchanged(this)
      ensures currentPage != old(currentPage) ==>
        nextItem == old(nextItem) + (if old(rect).Some? then 2 else 1)
        && rect == (if old(rect).Some? then Some(old(nextItem) + 1) else None)
    {
      match key {
        case Left => PrevPage();
        case Right => NextPage();
      }
    }
  }

  /** A session on a fresh extractor: load a document, drag from a to b,
      then from c to d. The two extracts are numbered 1 and 2, both come
      from the first page at the display scale, and the second drag reuses
      the first rectangle. */
  method TwoSelections(screen: Size, pages: seq<Size>, a: Point, b: Point, c: Point, d: Point)
    returns (first: Outcome, second: Outcome, sameRect: bool)
    requires Positive(screen) && 0 < |pages| && AllPositive(pages)
    requires Positive(FitSize(pages[0], screen))
    ensures var shown := FitSize(pages[0], screen);
      var box1 := SourceBox(a, b, shown, pages[0]);
      var box2 := SourceBox(c, d, shown, pages[0]);
      && first == Committed(Extract(1, 0, box1, RefFrame(box1, pages[0])))
      && second == Committed(Extract(2, 0, box2, RefFrame(box2, pages[0])))
    ensures sameRect
  {
    var app := new PdfImageExtractor(screen);
    app.LoadImages(pages);
    app.OnButtonPress(a.x, a.y);
    var handle := app.rect;
    app.OnMovePress(b.x, b.y);
    first := app.OnButtonRelease(b.x, b.y);
    app.OnButtonPress(c.x, c.y);
    sameRect := app.rect == handle;
    second := app.OnButtonRelease(d.x, d.y);
  }
}
