/** The thumbnail side panel: one framed thumbnail per page that could be rendered, with the
    frame at the current list position highlighted. */
module Thumbnails {
  import opened Pixmaps

  /** The style sheet of a frame: none yet (a frame just built), the highlight, or the
      plain style every other frame gets. */
  datatype Style = Unstyled | Highlighted | Plain

  /** One frame of the panel: the page its caption names and its click handler reports,
      the size of its thumbnail bitmap, and its style. */
  datatype Thumbnail = Thumbnail(page: nat, image: Size, style: Style)

  /** The frame the loading loop appends for page `n`: one when the page rendered,
      none when it raised. */
  function Appended(render: Render, n: nat): (r: seq<Thumbnail>)
    ensures |r| <= 1 && (|r| == 1 <==> render.Rendered?)
    ensures forall k :: 0 <= k < |r| ==>
              render.Rendered? && r[k] == Thumbnail(n, Size(render.width, render.height), Unstyled)
  {
    match render
    case Rendered(w, h) => [Thumbnail(n, Size(w, h), Unstyled)]
    case RenderFailed => []
  }

  /** The frames the loading loop appends for a document whose pages rasterize as
      `renders` says: one per page that rendered, in page order, each with the size of
      its page's bitmap. */
  function Built(renders: seq<Render>): (r: seq<Thumbnail>)
    ensures |r| <= |renders|
    ensures forall k :: 0 <= k < |r| ==>
              r[k].page < |renders| && renders[r[k].page].Rendered?
              && r[k].image == Size(renders[r[k].page].width, renders[r[k].page].height)
              && r[k].style == Unstyled
    ensures forall j, k :: 0 <= j < k < |r| ==> r[j].page < r[k].page
    decreases |renders|
  {
    if |renders| == 0 then []
    else
      var n := |renders| - 1;
      assert forall p :: 0 <= p < n ==> renders[..n][p] == renders[p];
      Built(renders[..n]) + Appended(renders[n], n)
  }

  /** Loading one more page appends that page's frame, if any, to the frames so far. */
  lemma BuiltStep(renders: seq<Render>, i: nat)
    requires i < |renders|
    ensures Built(renders[..i + 1]) == Built(renders[..i]) + Appended(renders[i], i)
  {
    assert renders[..i + 1][..i] == renders[..i];
  }

  /** A page that renders gets a frame: a failure only ever drops its own page. */
  lemma {:induction false} BuiltCoversRendered(renders: seq<Render>, p: nat)
    requires p < |renders| && renders[p].Rendered?
    ensures exists k :: 0 <= k < |Built(renders)| && Built(renders)[k].page == p
    decreases |renders|
  {
    var n := |renders| - 1;
    var prefix := Built(renders[..n]);
    assert Built(renders) == prefix + Appended(renders[n], n);
    if p < n {
      assert renders[..n][p] == renders[p];
      BuiltCoversRendered(renders[..n], p);
      var k :| 0 <= k < |prefix| && prefix[k].page == p;
      assert Built(renders)[k] == prefix[k];
    } else {
      assert Built(renders)[|prefix|] == Appended(renders[n], n)[0];
    }
  }

  /** Every page has a frame exactly when no page failed. */
  lemma {:induction false} BuiltComplete(renders: seq<Render>)
    ensures |Built(renders)| == |renders|
            <==> forall p :: 0 <= p < |renders| ==> renders[p].Rendered?
    decreases |renders|
  {
    if |renders| > 0 {
      var n := |renders| - 1;
      assert forall p :: 0 <= p < n ==> renders[..n][p] == renders[p];
      BuiltComplete(renders[..n]);
    }
  }

  /** The number of pages that fail to rasterize. */
  function Failed(renders: seq<Render>): nat
    decreases |renders|
  {
    if |renders| == 0 then 0
    else Failed(renders[..|renders| - 1]) + if renders[|renders| - 1].RenderFailed? then 1 else 0
  }

  /** The panel is short by exactly one frame per failed page. */
  lemma {:induction false} BuiltCountsRendered(renders: seq<Render>)
    ensures |Built(renders)| + Failed(renders) == |renders|
    decreases |renders|
  {
    if |renders| > 0 {
      BuiltCountsRendered(renders[..|renders| - 1]);
    }
  }

  /** A five-page document whose third page fails gets four frames, for pages 0, 1, 3
      and 4. */
  lemma FailedPageExample()
    ensures var ts := Built([Rendered(120, 160), Rendered(120, 160), RenderFailed,
                             Rendered(120, 160), Rendered(120, 160)]);
            |ts| == 4 && ts[0].page == 0 && ts[1].page == 1 && ts[2].page == 3 && ts[3].page == 4
  {
    var rs := [Rendered(120, 160), Rendered(120, 160), RenderFailed,
               Rendered(120, 160), Rendered(120, 160)];
    var t := Thumbnail(0, Size(120, 160), Unstyled);
    assert Built(rs) == [t, t.(page := 1), t.(page := 3), t.(page := 4)] by {
      BuiltStep(rs, 0);
      BuiltStep(rs, 1);
      BuiltStep(rs, 2);
      BuiltStep(rs, 3);
      BuiltStep(rs, 4);
      assert rs[..5] == rs;
    }
  }

  /** The style the highlighting loop gives the frame at list position `k`. */
  function StyleFor(k: int, current: int): (r: Style)
    ensures r == Highlighted <==> k == current
    ensures r == Plain <==> k != current
  {
    if k == current then Highlighted else Plain
  }

  /** The frames after the highlighting loop: the one whose list position equals the
      current page is highlighted and every other one is plain. */
  function Restyle(ts: seq<Thumbnail>, current: int): (r: seq<Thumbnail>)
    ensures |r| == |ts|
    ensures forall k :: 0 <= k < |r| ==> r[k].page == ts[k].page && r[k].image == ts[k].image
    ensures forall k :: 0 <= k < |r| ==> (r[k].style == Highlighted <==> k == current)
    ensures forall k :: 0 <= k < |r| ==> (r[k].style == Plain <==> k != current)
  {
    seq(|ts|, k requires 0 <= k < |ts| => ts[k].(style := StyleFor(k, current)))
  }

  /** Highlighting again replaces the previous highlight entirely: only the last current
      page matters. */
  lemma RestyleLastWins(ts: seq<Thumbnail>, a: int, b: int)
    ensures Restyle(Restyle(ts, a), b) == Restyle(ts, b)
  {
    var x, y := Restyle(Restyle(ts, a), b), Restyle(ts, b);
    assert |x| == |y|;
    forall k | 0 <= k < |x|
      ensures x[k] == y[k]
    {
      assert x[k].page == y[k].page && x[k].image == y[k].image && x[k].style == y[k].style;
    }
  }

  /** Exactly one frame is highlighted when the current page is a valid list position,
      and none otherwise. */
  lemma RestyleHighlightsOne(ts: seq<Thumbnail>, current: int)
    ensures 0 <= current < |ts| ==>
              Restyle(ts, current)[current].style == Highlighted
              && forall k :: 0 <= k < |ts| && k != current ==> Restyle(ts, current)[k].style == Plain
    ensures !(0 <= current < |ts|) ==>
              forall k :: 0 <= k < |ts| ==> Restyle(ts, current)[k].style == Plain
  {
  }

  /** The frame at list position `p` shows page `p` exactly when every page up to `p`
      rendered: one failed page earlier in the document shifts every later frame. */
  lemma {:induction false} ShowsOwnPage(renders: seq<Render>, p: nat)
    requires p < |renders|
    ensures (p < |Built(renders)| && Built(renders)[p].page == p)
            <==> forall j :: 0 <= j <= p ==> renders[j].Rendered?
    decreases |renders|
  {
    var n := |renders| - 1;
    var prefix := Built(renders[..n]);
    assert forall j :: 0 <= j < n ==> renders[..n][j] == renders[j];
    BuiltComplete(renders[..n]);
    if p < n {
      ShowsOwnPage(renders[..n], p);
      if p < |prefix| {
        assert Built(renders)[p] == prefix[p];
      }
    }
  }

  /** The highlighted frame shows the current page exactly when no page up to it failed. */
  lemma HighlightShowsCurrentPage(renders: seq<Render>, current: nat)
    requires current < |renders|
    ensures (exists k :: 0 <= k < |Built(renders)|
               && Restyle(Built(renders), current)[k].style == Highlighted
               && Restyle(Built(renders), current)[k].page == current)
            <==> forall j :: 0 <= j <= current ==> renders[j].Rendered?
  {
    ShowsOwnPage(renders, current);
    if forall j :: 0 <= j <= current ==> renders[j].Rendered? {
      assert Restyle(Built(renders), current)[current].style == Highlighted;
    }
  }

  /** A document whose second page fails: the highlight for page 1 falls on the frame of
      page 2, and no frame shows page 1. */
  lemma HighlightMismatchExample()
    ensures var ts := Restyle(Built([Rendered(120, 160), RenderFailed, Rendered(120, 160)]), 1);
            |ts| == 2 && ts[1].style == Highlighted && ts[1].page == 2
            && forall k :: 0 <= k < |ts| ==> ts[k].page != 1
  {
    var rs := [Rendered(120, 160), RenderFailed, Rendered(120, 160)];
    var t0, t2 := Thumbnail(0, Size(120, 160), Unstyled), Thumbnail(2, Size(120, 160), Unstyled);
    assert Built(rs) == [t0, t2] by {
      BuiltStep(rs, 0);
      BuiltStep(rs, 1);
      BuiltStep(rs, 2);
      assert rs[..3] == rs;
    }
    var ts := Restyle([t0, t2], 1);
    assert ts[0].page == 0 && ts[1].page == 2;
  }

  /** The panel widget: its current page and its list of frames. */
  class ThumbnailWidget {
    var currentPage: int
    var thumbnails: seq<Thumbnail>

    /** A new panel starts at page 0 and loads the thumbnails of the whole document. */
    constructor(renders: seq<Render>)
      ensures currentPage == 0
      ensures thumbnails == Restyle(Built(renders), 0)
    {
      currentPage := 0;
      thumbnails := [];
      new;
      LoadThumbnails(renders);
      assert [] + Built(renders) == Built(renders);
    }

    /** Appends one frame per page that renders, in page order, then highlights. */
    method LoadThumbnails(renders: seq<Render>)
      modifies this
      ensures currentPage == old(currentPage)
      ensures thumbnails == Restyle(old(thumbnails) + Built(renders), currentPage)
    {
      for i := 0 to |renders|
        invariant currentPage == old(currentPage)
        invariant thumbnails == old(thumbnails) + Built(renders[..i])
      {
        BuiltStep(renders, i);
        match renders[i] {
          case Rendered(w, h) =>
            thumbnails := thumbnails + [Thumbnail(i, Size(w, h), Unstyled)];
          case RenderFailed =>
        }
      }
      assert renders[..|renders|] == renders;
      HighlightCurrentPage();
    }

    /** Gives every frame its style: the highlight at the list position equal to the
        current page, the plain style everywhere else. */
    method HighlightCurrentPage()
      modifies this
      ensures currentPage == old(currentPage)
      ensures thumbnails == Restyle(old(thumbnails), currentPage)
    {
      ghost var target := Restyle(thumbnails, currentPage);
      for i := 0 to |thumbnails|
        invariant currentPage == old(currentPage)
        invariant |thumbnails| == |target|
        invariant forall k :: 0 <= k < i ==> thumbnails[k] == target[k]
        invariant forall k :: i <= k < |thumbnails| ==> thumbnails[k] == old(thumbnails)[k]
      {
        if i == currentPage {
          thumbnails := thumbnails[i := thumbnails[i].(style := Highlighted)];
        } else {
          thumbnails := thumbnails[i := thumbnails[i].(style := Plain)];
        }
      }
    }

    /** Stores the new current page and re-highlights. */
    method SetCurrentPage(pageNum: int)
      modifies this
      ensures currentPage == pageNum
      ensures thumbnails == Restyle(old(thumbnails), pageNum)
    {
      currentPage := pageNum;
      HighlightCurrentPage();
    }
  }
}
