/** The main window of the PDF reader: page navigation, the main and presenter views,
    the page indicator and the thumbnail panel kept in step with the current page. */
module Viewer {
  import opened Pixmaps
  import opened Scaling
  import opened Thumbnails

  /** Whether the presenter window is shown. */
  datatype Visibility = Hidden | Visible

  /** Pixels subtracted from each side of the main label before fitting. */
  const MainMargin: int := 20

  /** Pixels subtracted from each side of the presenter label before fitting. */
  const PresenterMargin: int := 10

  /** Everything a page load can change: the current page, the stored full-size bitmap,
      the bitmaps shown in the main and presenter labels, the presenter visibility, the
      page number shown by the page indicator, and the thumbnail panel. */
  datatype ViewerState = ViewerState(
    currentPage: int,
    photo: Option<Size>,
    mainPixmap: Option<Size>,
    presenterPixmap: Option<Size>,
    presenter: Visibility,
    pageInfo: int,
    thumbCurrent: int,
    thumbnails: seq<Thumbnail>)

  /** The state right before the first page load: page 0, nothing displayed, the
      indicator showing page 1, the presenter window hidden and the panel loaded. */
  function Initial(thumbRenders: seq<Render>): (r: ViewerState)
    ensures Synced(r) && r.presenter == Hidden
    ensures forall total: nat :: PageInRange(r, total)
    ensures r.photo == None && r.mainPixmap == None && r.presenterPixmap == None
    ensures r.thumbnails == Restyle(Built(thumbRenders), r.currentPage)
  {
    ViewerState(0, None, None, None, Hidden, 1, 0, Restyle(Built(thumbRenders), 0))
  }

  /** The current page is a page of the document, or 0 for a document without pages. */
  predicate PageInRange(s: ViewerState, total: nat)
  {
    0 <= s.currentPage && (s.currentPage < total || s.currentPage == 0)
  }

  /** The page indicator and the thumbnail panel both follow the current page. */
  predicate Synced(s: ViewerState)
  {
    s.pageInfo == s.currentPage + 1 && s.thumbCurrent == s.currentPage
  }

  /** The box the main view fits into. */
  function MainBox(labelSize: Size): (r: Size)
    ensures r.width + MainMargin == labelSize.width && r.height + MainMargin == labelSize.height
  {
    Size(labelSize.width - MainMargin, labelSize.height - MainMargin)
  }

  /** The box the presenter view fits into. */
  function PresenterBox(labelSize: Size): (r: Size)
    ensures r.width + PresenterMargin == labelSize.width
            && r.height + PresenterMargin == labelSize.height
  {
    Size(labelSize.width - PresenterMargin, labelSize.height - PresenterMargin)
  }

  /** A load of page `n` gets as far as showing a bitmap in the main label: the page is
      in range, it renders, and the main fit does not divide by zero. */
  predicate MainShown(pages: seq<Render>, n: int, mainLabel: Size)
  {
    0 <= n < |pages| && pages[n].Rendered?
    && FitShrinkOnly(pages[n].width, pages[n].height,
                     MainBox(mainLabel).width, MainBox(mainLabel).height).Fitted?
  }

  /** A load of page `n` runs to its end: the main label is shown, and the presenter fit
      does not divide by zero either when that window is visible. */
  predicate Completes(pages: seq<Render>, n: int, presenter: Visibility, mainLabel: Size,
                      presenterLabel: Size)
  {
    MainShown(pages, n, mainLabel)
    && (presenter == Visible ==>
          FitExact(pages[n].width, pages[n].height,
                   PresenterBox(presenterLabel).width, PresenterBox(presenterLabel).height).Fitted?)
  }

  /** The last two steps of a complete load: the indicator and the panel move to page `n`. */
  function Sync(s: ViewerState, n: int): (r: ViewerState)
    ensures r.pageInfo == n + 1 && r.thumbCurrent == n && r.thumbnails == Restyle(s.thumbnails, n)
    ensures r.(pageInfo := s.pageInfo, thumbCurrent := s.thumbCurrent, thumbnails := s.thumbnails) == s
    ensures s.currentPage == n ==> Synced(r)
  {
    s.(pageInfo := n + 1, thumbCurrent := n, thumbnails := Restyle(s.thumbnails, n))
  }

  /** Loading page `n` of a document whose pages rasterize as `pages` says, with the two
      labels at the given sizes. Out of range: nothing happens. In range: the page number
      is stored first; then, in order, the page is rendered and kept, fitted into the main
      label, fitted into the presenter label if that window is visible, and the indicator
      and panel follow. The first step that raises ends the load, keeping what was done. */
  function Load(s: ViewerState, pages: seq<Render>, n: int, mainLabel: Size,
                presenterLabel: Size): (r: ViewerState)
    ensures !(0 <= n < |pages|) ==> r == s
    ensures 0 <= n < |pages| ==> r.currentPage == n
    ensures r.presenter == s.presenter
    ensures PageInRange(s, |pages|) ==> PageInRange(r, |pages|)
    ensures Completes(pages, n, s.presenter, mainLabel, presenterLabel) ==>
              r.pageInfo == n + 1 && r.thumbCurrent == n && r.thumbnails == Restyle(s.thumbnails, n)
    ensures !Completes(pages, n, s.presenter, mainLabel, presenterLabel) ==>
              r.pageInfo == s.pageInfo && r.thumbCurrent == s.thumbCurrent
              && r.thumbnails == s.thumbnails
    ensures 0 <= n < |pages| && pages[n].Rendered? ==>
              r.photo == Some(Size(pages[n].width, pages[n].height))
    ensures !(0 <= n < |pages| && pages[n].Rendered?) ==> r.photo == s.photo
    ensures MainShown(pages, n, mainLabel) ==>
              r.mainPixmap == Some(FitShrinkOnly(pages[n].width, pages[n].height,
                                                 MainBox(mainLabel).width,
                                                 MainBox(mainLabel).height).size)
    ensures !MainShown(pages, n, mainLabel) ==> r.mainPixmap == s.mainPixmap
    ensures s.presenter == Visible && Completes(pages, n, s.presenter, mainLabel, presenterLabel) ==>
              r.presenterPixmap == Some(FitExact(pages[n].width, pages[n].height,
                                                 PresenterBox(presenterLabel).width,
                                                 PresenterBox(presenterLabel).height).size)
    ensures !(s.presenter == Visible && Completes(pages, n, s.presenter, mainLabel, presenterLabel))
            ==> r.presenterPixmap == s.presenterPixmap
  {
    if !(0 <= n < |pages|) then s
    else
      var moved := s.(currentPage := n);
      match pages[n]
      case RenderFailed => moved
      case Rendered(w, h) =>
        var kept := moved.(photo := Some(Size(w, h)));
        match FitShrinkOnly(w, h, MainBox(mainLabel).width, MainBox(mainLabel).height)
        case ZeroDivision => kept
        case Fitted(m) =>
          var shown := kept.(mainPixmap := Some(m));
          if s.presenter == Visible then
            match FitExact(w, h, PresenterBox(presenterLabel).width, PresenterBox(presenterLabel).height)
            case ZeroDivision => shown
            case Fitted(p) => Sync(shown.(presenterPixmap := Some(p)), n)
          else Sync(shown, n)
  }

  /** The previous-page button: a no-op on the first page. */
  function Previous(s: ViewerState, pages: seq<Render>, mainLabel: Size,
                    presenterLabel: Size): (r: ViewerState)
    ensures PageInRange(s, |pages|) ==> PageInRange(r, |pages|)
    ensures PageInRange(s, |pages|) ==>
              r.currentPage == if s.currentPage > 0 then s.currentPage - 1 else s.currentPage
    ensures s.currentPage <= 0 ==> r == s
    ensures s.currentPage > 0 ==> r == Load(s, pages, s.currentPage - 1, mainLabel, presenterLabel)
  {
    if s.currentPage > 0 then Load(s, pages, s.currentPage - 1, mainLabel, presenterLabel)
    else s
  }

  /** The next-page button: a no-op on the last page. */
  function Next(s: ViewerState, pages: seq<Render>, mainLabel: Size,
                presenterLabel: Size): (r: ViewerState)
    ensures PageInRange(s, |pages|) ==> PageInRange(r, |pages|)
    ensures PageInRange(s, |pages|) ==>
              r.currentPage == if s.currentPage < |pages| - 1 then s.currentPage + 1 else s.currentPage
    ensures s.currentPage >= |pages| - 1 ==> r == s
    ensures s.currentPage < |pages| - 1 ==>
              r == Load(s, pages, s.currentPage + 1, mainLabel, presenterLabel)
  {
    if s.currentPage < |pages| - 1 then Load(s, pages, s.currentPage + 1, mainLabel, presenterLabel)
    else s
  }

  /** The presenter button: hiding only hides; showing also reloads the current page so
      that the presenter label gets its bitmap. */
  function TogglePresenter(s: ViewerState, pages: seq<Render>, mainLabel: Size,
                           presenterLabel: Size): (r: ViewerState)
    ensures r.presenter != s.presenter
    ensures s.presenter == Visible ==> r == s.(presenter := Hidden)
    ensures PageInRange(s, |pages|) ==> PageInRange(r, |pages|) && r.currentPage == s.currentPage
  {
    if s.presenter == Visible then s.(presenter := Hidden)
    else Load(s.(presenter := Visible), pages, s.currentPage, mainLabel, presenterLabel)
  }

  /** The presenter window closed through its own title bar: the window is hidden and
      nothing else changes. The presenter button reads the window's visibility, so its
      next press shows the window again. */
  function ClosePresenter(s: ViewerState): (r: ViewerState)
    ensures r.presenter == Hidden
    ensures r.(presenter := s.presenter) == s
  {
    s.(presenter := Hidden)
  }

  /** When a load completes depends only on the bitmap of the page and the boxes: a
      bitmap with a zero side can only be shown unscaled in the main view, and never in
      the presenter view. */
  lemma CompletesIff(pages: seq<Render>, n: int, presenter: Visibility, mainLabel: Size,
                     presenterLabel: Size)
    requires 0 <= n < |pages| && pages[n].Rendered?
    ensures var w, h := pages[n].width, pages[n].height;
            Completes(pages, n, presenter, mainLabel, presenterLabel)
            <==> (0 < w && 0 < h)
                 || (presenter == Hidden
                     && w <= MainBox(mainLabel).width && h <= MainBox(mainLabel).height)
  {
  }

  /** A redraw with unchanged label sizes (after a resize or show event that did not
      change the layout) changes nothing further. */
  lemma LoadIdempotent(s: ViewerState, pages: seq<Render>, n: int, mainLabel: Size,
                       presenterLabel: Size)
    ensures var r := Load(s, pages, n, mainLabel, presenterLabel);
            Load(r, pages, n, mainLabel, presenterLabel) == r
  {
    if Completes(pages, n, s.presenter, mainLabel, presenterLabel) {
      RestyleLastWins(s.thumbnails, n, n);
    }
  }

  /** Going forward and then back returns to the same page, whether or not the pages
      render. */
  lemma NextThenPrevious(s: ViewerState, pages: seq<Render>, mainLabel: Size,
                         presenterLabel: Size)
    requires PageInRange(s, |pages|) && s.currentPage < |pages| - 1
    ensures Previous(Next(s, pages, mainLabel, presenterLabel), pages, mainLabel,
                     presenterLabel).currentPage == s.currentPage
  {
  }

  /** Showing and then hiding the presenter window brings back its visibility and the
      page; the main view may have been redrawn on the way. */
  lemma ToggleTwice(s: ViewerState, pages: seq<Render>, mainLabel: Size, presenterLabel: Size)
    requires PageInRange(s, |pages|)
    ensures var r := TogglePresenter(TogglePresenter(s, pages, mainLabel, presenterLabel),
                                     pages, mainLabel, presenterLabel);
            r.presenter == s.presenter && r.currentPage == s.currentPage
  {
  }

  /** Starting from a state where the indicator and the panel follow the page, a load of
      another page keeps them in step exactly when it runs to its end: a page that fails
      to render moves the current page but leaves the indicator and the panel behind. */
  lemma LoadKeepsSyncedIff(s: ViewerState, pages: seq<Render>, n: int, mainLabel: Size,
                           presenterLabel: Size)
    requires Synced(s) && 0 <= n < |pages| && n != s.currentPage
    ensures Synced(Load(s, pages, n, mainLabel, presenterLabel))
            <==> Completes(pages, n, s.presenter, mainLabel, presenterLabel)
  {
  }

  /** After a complete load into a laid-out main label, the main view shows a bitmap that
      fits the label's box and is no larger than the page's bitmap. */
  lemma MainViewFits(s: ViewerState, pages: seq<Render>, n: int, mainLabel: Size,
                     presenterLabel: Size)
    requires Completes(pages, n, s.presenter, mainLabel, presenterLabel)
    requires MainMargin <= mainLabel.width && MainMargin <= mainLabel.height
    ensures var r := Load(s, pages, n, mainLabel, presenterLabel);
            r.mainPixmap == Some(FitShrinkOnly(pages[n].width, pages[n].height,
                                               MainBox(mainLabel).width,
                                               MainBox(mainLabel).height).size)
            && 0 <= r.mainPixmap.value.width <= MainBox(mainLabel).width
            && 0 <= r.mainPixmap.value.height <= MainBox(mainLabel).height
            && r.mainPixmap.value.width <= pages[n].width
            && r.mainPixmap.value.height <= pages[n].height
  {
    var w, h := pages[n].width, pages[n].height;
    var box := MainBox(mainLabel);
    FitShrinkOnlyNeverEnlarges(w, h, box.width, box.height);
    if 0 < w && 0 < h {
      FitWithinBox(w, h, box.width, box.height);
    }
  }

  /** After a complete load with the presenter window shown, its label shows a bitmap that
      fits the label's box and reaches it on at least one axis. */
  lemma PresenterViewFills(s: ViewerState, pages: seq<Render>, n: int, mainLabel: Size,
                           presenterLabel: Size)
    requires s.presenter == Visible
    requires Completes(pages, n, s.presenter, mainLabel, presenterLabel)
    requires PresenterMargin <= presenterLabel.width && PresenterMargin <= presenterLabel.height
    ensures var r := Load(s, pages, n, mainLabel, presenterLabel);
            var box := PresenterBox(presenterLabel);
            r.presenterPixmap == Some(FitExact(pages[n].width, pages[n].height,
                                               box.width, box.height).size)
            && 0 <= r.presenterPixmap.value.width <= box.width
            && 0 <= r.presenterPixmap.value.height <= box.height
            && (r.presenterPixmap.value.width == box.width
                || r.presenterPixmap.value.height == box.height)
  {
    var w, h := pages[n].width, pages[n].height;
    var box := PresenterBox(presenterLabel);
    FitWithinBox(w, h, box.width, box.height);
    FitExactTouchesBox(w, h, box.width, box.height);
  }

  /** Pressing the presenter button while the window is hidden shows it and reloads the
      current page: when that load completes, the presenter label shows the page fitted to
      its box, and the indicator and the panel follow the page. */
  lemma ShowPresenterFills(s: ViewerState, pages: seq<Render>, mainLabel: Size,
                           presenterLabel: Size)
    requires s.presenter == Hidden
    requires Completes(pages, s.currentPage, Visible, mainLabel, presenterLabel)
    ensures var r := TogglePresenter(s, pages, mainLabel, presenterLabel);
            r.presenter == Visible && r.currentPage == s.currentPage && Synced(r)
            && r.presenterPixmap == Some(FitExact(pages[s.currentPage].width,
                                                  pages[s.currentPage].height,
                                                  PresenterBox(presenterLabel).width,
                                                  PresenterBox(presenterLabel).height).size)
  {
  }

  /** After the presenter window is closed through its title bar, the presenter button
      shows it again instead of hiding it, and reloads the current page. */
  lemma ToggleAfterCloseShows(s: ViewerState, pages: seq<Render>, mainLabel: Size,
                              presenterLabel: Size)
    requires s.presenter == Visible && PageInRange(s, |pages|)
    ensures var r := TogglePresenter(ClosePresenter(s), pages, mainLabel, presenterLabel);
            r.presenter == Visible && r.currentPage == s.currentPage
            && r == Load(s, pages, s.currentPage, mainLabel, presenterLabel)
  {
  }

  /** Clicking the frame at list position `k` loads the page that frame shows; when that
      load completes, the highlight lands on the clicked frame exactly when no thumbnail
      up to that page failed. */
  lemma ClickHighlightsClickedFrame(s: ViewerState, thumbRenders: seq<Render>, c: int,
                                    k: nat, pages: seq<Render>, mainLabel: Size,
                                    presenterLabel: Size)
    requires s.thumbnails == Restyle(Built(thumbRenders), c)
    requires k < |Built(thumbRenders)|
    requires Completes(pages, Built(thumbRenders)[k].page, s.presenter, mainLabel, presenterLabel)
    ensures var p := Built(thumbRenders)[k].page;
            var r := Load(s, pages, p, mainLabel, presenterLabel);
            r.thumbnails[k].style == Highlighted
            <==> forall j :: 0 <= j <= p ==> thumbRenders[j].Rendered?
  {
    var ts := Built(thumbRenders);
    var p := ts[k].page;
    RestyleLastWins(ts, c, p);
    ShowsOwnPage(thumbRenders, p);
  }

  /** A five-page document: from page 2 the previous button goes to page 1, and on the
      first page it does nothing. */
  lemma NavigationExample(s: ViewerState, mainLabel: Size, presenterLabel: Size)
    requires s.currentPage == 2
    ensures var pages := seq(5, _ => Rendered(1785, 2526));
            Previous(s, pages, mainLabel, presenterLabel).currentPage == 1
            && Previous(s.(currentPage := 0), pages, mainLabel, presenterLabel) == s.(currentPage := 0)
  {
  }

  /** The main window. */
  class PdfViewer {
    const pages: seq<Render>
    var currentPage: int
    var photo: Option<Size>
    var mainPixmap: Option<Size>
    var presenterPixmap: Option<Size>
    var presenter: Visibility
    var pageInfo: int
    const thumbnailWidget: ThumbnailWidget

    /** The viewer's fields together with the panel's. */
    ghost function State(): ViewerState
      reads this, thumbnailWidget
    {
      ViewerState(currentPage, photo, mainPixmap, presenterPixmap, presenter, pageInfo,
                  thumbnailWidget.currentPage, thumbnailWidget.thumbnails)
    }

    /** Opens the document (`pages` for the main view, `thumbRenders` for the panel, which
        opens it separately), builds the window with the presenter hidden, and loads page 0. */
    constructor(pages: seq<Render>, thumbRenders: seq<Render>, mainLabel: Size,
                presenterLabel: Size)
      ensures this.pages == pages
      ensures fresh(thumbnailWidget)
      ensures State() == Load(Initial(thumbRenders), pages, 0, mainLabel, presenterLabel)
    {
      this.pages := pages;
      currentPage := 0;
      photo := None;
      mainPixmap := None;
      presenterPixmap := None;
      presenter := Hidden;
      pageInfo := 1;
      thumbnailWidget := new ThumbnailWidget(thumbRenders);
      new;
      LoadPage(0, mainLabel, presenterLabel);
    }

    /** Shows the current page number in the indicator. */
    method UpdatePageInfo()
      modifies this
      ensures State() == old(State()).(pageInfo := old(currentPage) + 1)
    {
      pageInfo := currentPage + 1;
    }

    /** Loads and shows page `pageNum`. */
    method LoadPage(pageNum: int, mainLabel: Size, presenterLabel: Size)
      modifies this, thumbnailWidget
      ensures State() == Load(old(State()), pages, pageNum, mainLabel, presenterLabel)
    {
      if 0 <= pageNum < |pages| {
        currentPage := pageNum;
        match pages[pageNum] {
          case RenderFailed =>
          case Rendered(w, h) =>
            photo := Some(Size(w, h));
            var mainFit := FitShrinkOnly(w, h, MainBox(mainLabel).width, MainBox(mainLabel).height);
            if mainFit.ZeroDivision? {
              return;
            }
            mainPixmap := Some(mainFit.size);
            if presenter == Visible {
              var presenterFit := FitExact(w, h, PresenterBox(presenterLabel).width,
                                           PresenterBox(presenterLabel).height);
              if presenterFit.ZeroDivision? {
                return;
              }
              presenterPixmap := Some(presenterFit.size);
            }
            UpdatePageInfo();
            thumbnailWidget.SetCurrentPage(pageNum);
        }
      }
    }

    /** Reloads the current page with the labels' new sizes: what the window's resize and
        show events and the presenter window's resize event do. */
    method Redraw(mainLabel: Size, presenterLabel: Size)
      modifies this, thumbnailWidget
      ensures State() == Load(old(State()), pages, old(currentPage), mainLabel, presenterLabel)
    {
      LoadPage(currentPage, mainLabel, presenterLabel);
    }

    method PreviousPage(mainLabel: Size, presenterLabel: Size)
      modifies this, thumbnailWidget
      ensures State() == Previous(old(State()), pages, mainLabel, presenterLabel)
    {
      if currentPage > 0 {
        LoadPage(currentPage - 1, mainLabel, presenterLabel);
      }
    }

    method NextPage(mainLabel: Size, presenterLabel: Size)
      modifies this, thumbnailWidget
      ensures State() == Next(old(State()), pages, mainLabel, presenterLabel)
    {
      if currentPage < |pages| - 1 {
        LoadPage(currentPage + 1, mainLabel, presenterLabel);
      }
    }

    /** The panel reports the page of the clicked frame; the viewer loads it. */
    method OnThumbnailClick(pageNum: int, mainLabel: Size, presenterLabel: Size)
      modifies this, thumbnailWidget
      ensures State() == Load(old(State()), pages, pageNum, mainLabel, presenterLabel)
    {
      LoadPage(pageNum, mainLabel, presenterLabel);
    }

    /** The presenter window's own close button. */
    method ClosePresenterWindow()
      modifies this
      ensures State() == ClosePresenter(old(State()))
    {
      presenter := Hidden;
    }

    method TogglePresenterMode(mainLabel: Size, presenterLabel: Size)
      modifies this, thumbnailWidget
      ensures State() == TogglePresenter(old(State()), pages, mainLabel, presenterLabel)
    {
      if presenter == Visible {
        presenter := Hidden;
      } else {
        presenter := Visible;
        LoadPage(currentPage, mainLabel, presenterLabel);
      }
    }
  }
}
