# PDF reader: navigation, fitting and thumbnails

A model of the logic inside the PDF reader `pdf_reader.py`, a PyQt5 window that shows a
PyMuPDF document one page at a time, with a thumbnail panel and an optional presenter
window. The model covers four parts of it.

- **Fitting a page into a label** (module `Scaling`). There are two fit policies:
  - the main view's shrink-only fit, which returns a bitmap that already fits unchanged;
  - the presenter view's always-fit, which also enlarges a small bitmap.
  
  Both scale by the smaller of the two axis ratios and truncate the products to integers.
  The ratios are exact reals. Python's `int()` is truncation toward zero, and its `min` keeps
  the first argument on ties. A bitmap with a zero side that has to be scaled divides by zero.
  The model keeps that as the `ZeroDivision` outcome.
- **The thumbnail panel** (module `Thumbnails`, class `ThumbnailWidget`).
  - The loading loop appends one frame per page that rasterizes, in page order, and skips a
    page that raises.
  - The highlighting loop highlights the frame whose *list position* equals the current page
    and gives every other frame the plain style.
  - Frames are values in a sequence field that the methods reassign.
- **Page loading and navigation** (module `Viewer`, class `PdfViewer`).
  - `load_page` stores the page number before it tries anything.
  - It then goes through these steps in the program's order:
    1. it renders the page and keeps the bitmap;
    2. it fits and shows the bitmap in the main label, whose margin is 20;
    3. if the presenter window is visible, it fits and shows the bitmap there, with margin 10;
    4. it updates the page indicator;
    5. it moves the panel's highlight.
  - An exception at any step ends the load, so the state keeps what was done before that step.
  - The previous and next buttons, a thumbnail click, the presenter toggle and the redraw on
    resize or show are all calls of `load_page`.
  - Each method of `PdfViewer` is proved equal to a pure state function:
    - `LoadPage` to `Load`;
    - `PreviousPage` to `Previous`;
    - `NextPage` to `Next`;
    - `TogglePresenterMode` to `TogglePresenter`.
  
  The properties are proved as lemmas about these state functions.
- **Shared values** (module `Pixmaps`): sizes, and the rasterizer's outcome for a page,
  which is `Rendered(width, height)` or `RenderFailed`.

The rasterizer is an oracle: one outcome per page, for the main document (`pages`) and for
the panel's own copy of it (`thumbRenders`). Label sizes are parameters of each call,
because the layout decides them.

Behaviours of the code that a reader might not expect, each stated by the model as written:
- **Highlighting.** The panel's highlighting method is documented as highlighting the
  current page (pdf_reader.py:106). Its loop compares the frame's *list position* with the
  current page (pdf_reader.py:107-108). Once a thumbnail has failed, later positions and
  page numbers no longer agree, so the highlight lands on another page's frame.
  `ShowsOwnPage`, `HighlightShowsCurrentPage`, `HighlightMismatchExample` and
  `ClickHighlightsClickedFrame` state when this happens.
- **Labels not laid out yet.** `load_page` subtracts the margins from the label sizes and
  fits into the result even when it is zero or negative (pdf_reader.py:324-328). There is
  no check for a positive size. `FitEmptyBox` states what comes out.
- **A failing page.** `load_page` stores the new page number before its `try`
  (pdf_reader.py:307), and stores the bitmap only once the page has rendered
  (pdf_reader.py:321). A page that fails to render raises before line 321: the current page
  has moved, but the stored bitmap is the old one. A fit that divides by zero raises after
  line 321: the current page has moved and the bitmap has been replaced. In both cases the
  indicator and the panel stay on the old page. `Load` and `LoadKeepsSyncedIff` state this.
- **Empty document.** The page index starts at 0 (pdf_reader.py:123-124) and every load of a
  document without pages is out of range. `PageInRange` therefore allows 0 for an empty
  document.

## Model

| member | source | states |
|---|---|---|
| Scaling.Min | pdf_reader.py:261 | The result is at most both arguments and is one of them. |
| Scaling.Trunc | pdf_reader.py:264-265 | Truncation toward zero: the result lies within one unit of the argument, on the side of zero. |
| Scaling.MinRatio | pdf_reader.py:257-261 | The scale factor is at most both axis ratios and equals one of them. |
| Scaling.ScaleBy | pdf_reader.py:264-265 | For a non-negative factor, each side is the integer part of the original side times the factor. |
| Scaling.FitShrinkOnly | pdf_reader.py:246-275 | A bitmap that fits is returned at its own size. A bitmap that does not fit gets exactly the presenter fit: the minimum-ratio scaling, truncated. Division by zero happens exactly when it does not fit and has a zero side. |
| Scaling.FitShrinkOnlyTouchesBox | pdf_reader.py:253-265 | A positive bitmap too large for the box is shrunk until it reaches the box on at least one axis, in exact arithmetic. |
| Scaling.FitExact | pdf_reader.py:277-302 | Division by zero happens exactly when the bitmap has a zero side. |
| Scaling.FitWithinBox | pdf_reader.py:257-265 | For a positive bitmap and a box with non-negative sides, both policies give a size with 0 <= width <= box width and 0 <= height <= box height. |
| Scaling.FitExactTouchesBox | pdf_reader.py:283-292 | In exact arithmetic the presenter fit reaches the box exactly on at least one axis. |
| Scaling.FitExactEnlargesSmallImage | pdf_reader.py:277-292 | A bitmap smaller than the box on both axes is not shrunk by the presenter fit. |
| Scaling.FitShrinkOnlyNeverEnlarges | pdf_reader.py:253-265 | The main-view fit never produces a side larger than the original. |
| Scaling.FitKeepsAspectRatio | pdf_reader.py:257-265 | Both policies keep the aspect ratio up to truncation: the cross products of the result and the original differ by less than one side. |
| Scaling.FitEmptyBox | pdf_reader.py:327-328 | A box with a side of zero or less, from a label smaller than its margins, gives a size with no positive side under both policies. |
| Scaling.FitExamples | pdf_reader.py:246-302 | 2400x1800 into 800x600 gives 800x600 under the presenter fit; 400x300 is left alone by the main fit. |
| Scaling.ScaleByBounds | pdf_reader.py:264-265 | A factor of zero or less gives no positive side; a factor of at least one does not shrink; a factor below one does not grow. |
| Scaling.ScaleByKeepsAspect | pdf_reader.py:264-265 | Both sides truncated after a common non-negative factor keep the cross-product bound. |
| Scaling.ScaleByWithinBox | pdf_reader.py:257-265 | A factor no larger than either axis ratio stays inside a box with non-negative sides. |
| Thumbnails.Appended | pdf_reader.py:67-94 | One loop iteration adds at most one frame. It adds one exactly when the page rendered, and that frame carries the page number, the bitmap size and no style. |
| Thumbnails.Built | pdf_reader.py:64-97 | Every frame is for a page that rendered and carries that page's bitmap size and no style. Frames are in strictly increasing page order, and there are at most as many frames as pages. |
| Thumbnails.BuiltStep | pdf_reader.py:66-94 | One more loop iteration appends that page's frame, if it has one, to the frames built so far. |
| Thumbnails.BuiltCoversRendered | pdf_reader.py:66-97 | Every page that renders has a frame, so a failure drops only its own page. |
| Thumbnails.BuiltComplete | pdf_reader.py:66-97 | There is one frame per page exactly when no page failed. |
| Thumbnails.BuiltCountsRendered | pdf_reader.py:66-97 | The number of frames plus the number of failed pages is the number of pages. |
| Thumbnails.FailedPageExample | pdf_reader.py:66-97 | In a five-page document whose third page fails, there are four frames, for pages 0, 1, 3 and 4. |
| Thumbnails.StyleFor | pdf_reader.py:108-111 | A frame gets the highlight exactly when its list position is the current page, and the plain style exactly otherwise. |
| Thumbnails.Restyle | pdf_reader.py:105-111 | Pages and bitmaps are unchanged. A frame is highlighted exactly when its list position is the current page, and plain exactly otherwise. |
| Thumbnails.RestyleLastWins | pdf_reader.py:105-116 | Highlighting again erases the earlier highlight: only the last current page matters. |
| Thumbnails.RestyleHighlightsOne | pdf_reader.py:105-111 | Exactly one frame is highlighted when the current page is a valid list position; otherwise none is. |
| Thumbnails.ShowsOwnPage | pdf_reader.py:66-97 | The frame at position p shows page p exactly when every page up to p rendered. |
| Thumbnails.HighlightShowsCurrentPage | pdf_reader.py:105-111 | Some highlighted frame shows the current page exactly when no page up to it failed. |
| Thumbnails.HighlightMismatchExample | pdf_reader.py:105-111 | With page 1 of 3 failing, the highlight for page 1 is on the frame of page 2, and no frame shows page 1. |
| Thumbnails.ThumbnailWidget.constructor | pdf_reader.py:43-50 | The panel starts at page 0 with the frames of the whole document, highlighted for page 0. |
| Thumbnails.ThumbnailWidget.LoadThumbnails | pdf_reader.py:64-99 | The frames become the old ones plus `Built(renders)`, all restyled for the unchanged current page. |
| Thumbnails.ThumbnailWidget.HighlightCurrentPage | pdf_reader.py:105-111 | The frames become `Restyle` of the old frames for the current page, which is unchanged. |
| Thumbnails.ThumbnailWidget.SetCurrentPage | pdf_reader.py:113-116 | The current page is stored and the frames are restyled for it. |
| Viewer.Initial | pdf_reader.py:119-130 | Before the first load, the page is 0, the indicator and panel follow it, nothing is shown, the presenter is hidden and the panel holds all thumbnails highlighted for page 0. |
| Viewer.MainBox | pdf_reader.py:327-328 | The main box is the main label with 20 pixels taken off each side. |
| Viewer.PresenterBox | pdf_reader.py:339-340 | The presenter box is the presenter label with 10 pixels taken off each side. |
| Viewer.Sync | pdf_reader.py:350-354 | The indicator shows page n + 1 and the panel is restyled for n. Nothing else changes, and the state is in step when n is the current page. |
| Viewer.Load | pdf_reader.py:304-358 | Out of range, nothing changes. In range, the current page becomes n. The stored bitmap is replaced exactly when the page renders. The main label gets the shrink-only fit exactly when the page renders and that fit succeeds, and otherwise keeps its bitmap. The presenter label gets the exact fit exactly when the window is visible and the load completes, and otherwise keeps its bitmap. The indicator and panel move to n exactly when the load completes, and otherwise stay. The presenter visibility and the page-range invariant are kept. |
| Viewer.Previous | pdf_reader.py:384-387 | It is a no-op at page 0. Otherwise it is a full load of the page before, so the render, the label updates and the sync all happen as in `Load`. It never leaves the page range. |
| Viewer.Next | pdf_reader.py:389-392 | It is a no-op on the last page. Otherwise it is a full load of the page after, so the render, the label updates and the sync all happen as in `Load`. It never leaves the page range. |
| Viewer.TogglePresenter | pdf_reader.py:398-408 | Visibility always flips. Hiding changes nothing else. Showing keeps the current page. |
| Viewer.ClosePresenter | pdf_reader.py:212-216 | Closing the presenter window through its title bar hides it and changes nothing else. |
| Viewer.CompletesIff | pdf_reader.py:309-354 | A rendered page loads to its end exactly when its bitmap has no zero side, or when the presenter is hidden and the bitmap fits the main box unscaled. |
| Viewer.LoadIdempotent | pdf_reader.py:360-373 | Loading the same page again with unchanged label sizes, as a resize or show event does, changes nothing further. |
| Viewer.NextThenPrevious | pdf_reader.py:384-392 | Next and then previous returns to the same page, whether or not the pages render. |
| Viewer.ToggleTwice | pdf_reader.py:398-408 | Toggling the presenter twice restores its visibility and the current page. |
| Viewer.LoadKeepsSyncedIff | pdf_reader.py:306-358 | From a synced state, loading another page keeps the indicator and panel in step with the current page exactly when the load completes. |
| Viewer.MainViewFits | pdf_reader.py:324-332 | After a complete load into a laid-out label, the main label shows the page's shrink-only fit into the main box. That bitmap fits the box and is no larger than the page bitmap. |
| Viewer.PresenterViewFills | pdf_reader.py:335-348 | After a complete load with the presenter shown, its label shows the page's exact fit into the presenter box. That bitmap fits the box and reaches it on one axis. |
| Viewer.ShowPresenterFills | pdf_reader.py:403-408 | Pressing the button while the presenter is hidden shows it and reloads the current page. When that load completes, the presenter label shows the page's exact fit, and the indicator and panel follow the page. |
| Viewer.ToggleAfterCloseShows | pdf_reader.py:400-408 | After the presenter window is closed through its title bar, the button shows it again and reloads the current page, because it reads the window's visibility. |
| Viewer.ClickHighlightsClickedFrame | pdf_reader.py:85 | Clicking frame k loads that frame's page. If the load completes, frame k is highlighted exactly when no thumbnail up to that page failed. |
| Viewer.NavigationExample | pdf_reader.py:384-387 | In a five-page document, previous from page 2 gives page 1, and previous on page 0 is a no-op. |
| Viewer.PdfViewer.constructor | pdf_reader.py:119-130 | The panel is a new object, and the state is `Load` of the initial state for page 0. The initial state is page 0, nothing shown, indicator 1, presenter hidden, and a loaded panel. |
| Viewer.PdfViewer.UpdatePageInfo | pdf_reader.py:375-377 | The indicator shows the current page plus one, and nothing else changes. |
| Viewer.PdfViewer.LoadPage | pdf_reader.py:304-358 | The new state is `Load` of the old state. |
| Viewer.PdfViewer.Redraw | pdf_reader.py:360-373 | The new state is `Load` of the current page with the new label sizes. |
| Viewer.PdfViewer.PreviousPage | pdf_reader.py:384-387 | The new state is `Previous` of the old state. |
| Viewer.PdfViewer.NextPage | pdf_reader.py:389-392 | The new state is `Next` of the old state. |
| Viewer.PdfViewer.OnThumbnailClick | pdf_reader.py:394-396 | The new state is `Load` of the clicked page. |
| Viewer.PdfViewer.ClosePresenterWindow | pdf_reader.py:212-216 | The new state is `ClosePresenter` of the old state. |
| Viewer.PdfViewer.TogglePresenterMode | pdf_reader.py:398-408 | The new state is `TogglePresenter` of the old state. |

## Left out

- **Rasterizing and converting pages.** This covers `fitz` page loading and `get_pixmap`, the PPM and `QImage`/`QPixmap` conversion, and `pixmap.scaled`. All are foreign calls. The outcome of rasterizing is an oracle per page, and the scaled bitmap is taken to have the requested size. With `KeepAspectRatio`, Qt may make one side smaller, and for a size of zero or less it returns a null pixmap.
- **Floating point.** Ratios are exact reals. `FitExactTouchesBox` holds in exact arithmetic only: with IEEE doubles, a truncated product can land one pixel short.
- **Qt widgets and styles.** This covers widget construction, layouts, the style sheets' text, the frames' fixed height, the 0.2 thumbnail zoom and the 3x page zoom. Styles are the three values `Unstyled`, `Highlighted` and `Plain`. The indicator's text is reduced to the page number it shows. The signal between the panel and the viewer is a direct call with the frame's page.
- **Events.** `resizeEvent`, `showEvent` and the presenter window's resize event are all `PdfViewer.Redraw`. Closing the presenter window through its title bar is `PdfViewer.ClosePresenterWindow`. The `hasattr` guard is always true once the window exists, and `processEvents` is left out.
- **Presenter window placement.** Moving the window to a second screen, removing its frame and maximizing it are display geometry, so they are left out.
- **Process plumbing.** `main`, the Windows plugin-path setup, the file dialog and existence checks, error printing and `closeEvent` are I/O.
- **No-op and text-only updates.** `update_presenter_page_info` does nothing. The button label changes in `toggle_presenter_mode` are text only.
- **Aliasing.** The Qt layout also holds references to the frames. That aliasing is not modelled, because frames are values in the panel's list.
