/** `create_print_ready_pdf`: stacks the saved screenshots, binarised and
    shrunk to the printable width, down US-letter pages, under an optional
    title; and the guard of `save_as_pdf`. Lengths are PostScript points. */
module Layout {
  import opened Basics
  import opened Grids

  /** reportlab's `letter`: 8.5 by 11 inches. */
  const PageWidth: real := 612.0
  const PageHeight: real := 792.0
  /** Half an inch on every side. */
  const Margin: real := 36.0
  /** The room the title takes above the first image. */
  const TitleGap: real := 24.0
  /** The gap left under every image. */
  const LineSpacing: real := 0.72
  /** Pixels below this become black, the others white. */
  const BwThreshold: int := 180

  /** The printable width, `page_width - 2 * margin`. */
  const MaxWidth: real := PageWidth - 2.0 * Margin
  /** Where the cursor stands on a fresh page, `page_height - margin`. */
  const PageTop: real := PageHeight - Margin

  /** An image file as PIL opens it in grayscale (`convert("L")`): its size
      and its pixels. */
  datatype Image = Image(width: nat, height: nat, pixels: Grid)

  /** `0 if p < bw_threshold else 255` */
  function BinarisePixel(p: int): (q: int)
    ensures q == 0 || q == 255
    ensures q == 0 <==> p < BwThreshold
  {
    if p < BwThreshold then 0 else 255
  }

  /** `img.point(lambda p: ..., '1')`: every pixel binarised, the shape kept. */
  function Binarise(g: Grid): (r: Grid)
    ensures |r| == |g|
    ensures forall i | 0 <= i < |g| :: |r[i]| == |g[i]|
    ensures forall i, j | 0 <= i < |g| && 0 <= j < |g[i]| :: r[i][j] == BinarisePixel(g[i][j])
  {
    seq(|g|, i requires 0 <= i < |g| => seq(|g[i]|, j requires 0 <= j < |g[i]| => BinarisePixel(g[i][j])))
  }

  /** Binarising an image that is already black and white changes nothing. */
  lemma BinariseIdempotent(g: Grid)
    ensures Binarise(Binarise(g)) == Binarise(g)
  {
    var once := Binarise(g);
    var twice := Binarise(once);
    forall i | 0 <= i < |g|
      ensures twice[i] == once[i]
    {
      forall j | 0 <= j < |g[i]|
        ensures twice[i][j] == once[i][j]
      {
      }
    }
  }

  /** `min(max_width / img_width, 1.0)`: the factor that shrinks an image to
      the printable width, never enlarging it. */
  function Scale(width: nat): real
    requires width > 0
  {
    var fit := MaxWidth / width as real;
    if fit <= 1.0 then fit else 1.0
  }

  /** A wide image is shrunk to exactly the printable width, a narrow one is
      kept at its size; either way its height follows the same factor, so
      the aspect ratio is kept. */
  lemma ScaleShrinks(width: nat, height: nat)
    requires width > 0
    ensures var s := Scale(width);
      0.0 < s <= 1.0 &&
      width as real * s <= width as real && width as real * s <= MaxWidth &&
      (width as real <= MaxWidth ==> s == 1.0) &&
      (width as real > MaxWidth ==> width as real * s == MaxWidth) &&
      height as real * s <= height as real
  {
    var w := width as real;
    var s := Scale(width);
    DivBelowOne(MaxWidth, w);
    assert w * (MaxWidth / w) == MaxWidth;
    assert height as real * s <= height as real * 1.0 by {
      MulMonotone(s, 1.0, height as real);
    }
    assert w * s <= w * 1.0 by {
      MulMonotone(s, 1.0, w);
    }
  }

  /** One image drawn: its page, lower-left corner, drawn size and pixels. */
  datatype Placement = Placement(page: nat, x: real, y: real, width: real, height: real, image: Grid)

  /** A string drawn with `drawCentredString`. */
  datatype Text = Text(page: nat, x: real, y: real, text: string)

  /** The layout state: the current page (pages started so far), the
      vertical cursor, and the images placed. */
  datatype Flow = Flow(page: nat, cursor: real, placed: seq<Placement>)

  /** Places one image below the cursor: shrunk to the printable width,
      centred, on a new page when it does not fit above the bottom margin;
      the cursor then moves below it by the line spacing. */
  function Place(f: Flow, img: Image): Flow
    requires img.width > 0
  {
    var s := Scale(img.width);
    var w, h := img.width as real * s, img.height as real * s;
    var newPage := f.cursor - h < Margin;
    var page := if newPage then f.page + 1 else f.page;
    var cursor := if newPage then PageTop else f.cursor;
    var y := cursor - h;
    Flow(page, y - LineSpacing, f.placed + [Placement(page, (PageWidth - w) / 2.0, y, w, h, Binarise(img.pixels))])
  }

  /** `Place` written out for a given scale factor. */
  lemma PlaceWith(f: Flow, img: Image, s: real)
    requires img.width > 0 && s == Scale(img.width)
    ensures var w, h := img.width as real * s, img.height as real * s;
      var newPage := f.cursor - h < Margin;
      var page := if newPage then f.page + 1 else f.page;
      var top := if newPage then PageTop else f.cursor;
      Place(f, img) == Flow(page, top - h - LineSpacing, f.placed + [Placement(page, (PageWidth - w) / 2.0, top - h, w, h, Binarise(img.pixels))])
  {
  }

  /** Every file PIL can open has a positive width, and its pixels have
      the size it reports. */
  predicate Openable(files: map<string, Image>)
  {
    forall p | p in files :: files[p].width > 0 && Shaped(files[p].pixels, files[p].height, files[p].width)
  }

  /** One path of the list: a missing file is skipped, an existing one placed. */
  function Step(f: Flow, path: string, files: map<string, Image>): Flow
    requires Openable(files)
  {
    if path in files then Place(f, files[path]) else f
  }

  /** The layout after the first `i` paths, from a cursor at `top` on the
      first page. */
  function FlowAfter(paths: seq<string>, files: map<string, Image>, top: real, i: nat): Flow
    requires Openable(files) && i <= |paths|
  {
    if i == 0 then Flow(0, top, [])
    else Step(FlowAfter(paths, files, top, i - 1), paths[i - 1], files)
  }

  /** Where the first image may start: below the title when there is one. */
  function StartCursor(title: string): (top: real)
    ensures top == PageTop || top == PageTop - TitleGap
    ensures top == PageTop <==> |title| == 0
  {
    if |title| > 0 then PageTop - TitleGap else PageTop
  }

  /** The paths of the files that exist, in their order. */
  function Existing(paths: seq<string>, files: map<string, Image>): (r: seq<string>)
    ensures |r| <= |paths|
    ensures forall k | 0 <= k < |r| :: r[k] in files && r[k] in paths
  {
    if |paths| == 0 then []
    else
      var init := Existing(paths[..|paths| - 1], files);
      init + (if paths[|paths| - 1] in files then [paths[|paths| - 1]] else [])
  }

  /** What placing one image does: it is appended, on the current page when
      `cursor - height >= margin` and on the next page otherwise (its top
      then at the top margin), its bottom at the cursor less its height,
      centred, binarised; the cursor ends the line spacing below it. */
  lemma PlaceFacts(f: Flow, img: Image)
    requires img.width > 0
    ensures var g := Place(f, img);
      |g.placed| == |f.placed| + 1 && g.placed[..|f.placed|] == f.placed &&
      var p := g.placed[|f.placed|];
      var newPage := f.cursor - p.height < Margin;
      p.page == g.page &&
      g.page == (if newPage then f.page + 1 else f.page) &&
      p.y + p.height == (if newPage then PageTop else f.cursor) &&
      g.cursor == p.y - LineSpacing &&
      (!newPage ==> g.cursor <= f.cursor - LineSpacing) &&
      p.x + p.width / 2.0 == PageWidth / 2.0 && Margin <= p.x &&
      0.0 <= p.height && p.width <= MaxWidth &&
      p.width == img.width as real * Scale(img.width) && p.height == img.height as real * Scale(img.width) &&
      p.image == Binarise(img.pixels)
  {
    ScaleShrinks(img.width, img.height);
    var g := Place(f, img);
    assert g.placed[..|f.placed|] == f.placed;
    var s := Scale(img.width);
    assert 0.0 <= img.height as real * s by {
      MulMonotone(0.0, img.height as real, s);
    }
  }

  /** Skipping the missing files is the same as laying out only the files
      that exist: a missing file changes neither the cursor nor the page. */
  lemma {:induction false} MissingFilesSkipped(paths: seq<string>, files: map<string, Image>, top: real)
    requires Openable(files)
    ensures FlowAfter(paths, files, top, |paths|) ==
      FlowAfter(Existing(paths, files), files, top, |Existing(paths, files)|)
  {
    if |paths| > 0 {
      var init := paths[..|paths| - 1];
      var last := paths[|paths| - 1];
      MissingFilesSkipped(init, files, top);
      FlowAfterPrefix(paths, files, top, |paths| - 1);
      var e := Existing(init, files);
      assert paths[..|paths| - 1] == init;
      if last in files {
        var e2 := e + [last];
        assert Existing(paths, files) == e2;
        assert e2[..|e|] == e;
        FlowAfterPrefix(e2, files, top, |e|);
        assert e2[|e|] == last;
      } else {
        assert Existing(paths, files) == e;
      }
    }
  }

  /** The layout of a prefix does not look past it. */
  lemma {:induction false} FlowAfterPrefix(paths: seq<string>, files: map<string, Image>, top: real, i: nat)
    requires Openable(files) && i <= |paths|
    ensures FlowAfter(paths, files, top, i) == FlowAfter(paths[..i], files, top, i)
    decreases i
  {
    if i > 0 {
      FlowAfterPrefix(paths, files, top, i - 1);
      FlowAfterPrefix(paths[..i], files, top, i - 1);
      assert paths[..i][..i - 1] == paths[..i - 1];
      assert paths[..i][i - 1] == paths[i - 1];
    }
  }

  /** The images are drawn in input order, one per existing file, each the
      binarised file. */
  lemma {:induction false} PlacedInOrder(paths: seq<string>, files: map<string, Image>, top: real)
    requires Openable(files)
    ensures var placed := FlowAfter(paths, files, top, |paths|).placed;
      var e := Existing(paths, files);
      |placed| == |e| && forall k | 0 <= k < |e| :: placed[k].image == Binarise(files[e[k]].pixels)
  {
    if |paths| > 0 {
      var init := paths[..|paths| - 1];
      PlacedInOrder(init, files, top);
      FlowAfterPrefix(paths, files, top, |paths| - 1);
      var f := FlowAfter(init, files, top, |init|);
      var last := paths[|paths| - 1];
      if last in files {
        PlaceFacts(f, files[last]);
      }
    }
  }

  /** Along the layout, every image is centred, starts on the current page
      below the previous image by the line spacing or at the top margin of
      the next page, never reaches above the top margin, and stays above the
      bottom margin whenever it is no taller than a page's printable height;
      the cursor sits the line spacing below the last image. */
  predicate Stacked(f: Flow, top: real)
  {
    Ends(f, top) &&
    (forall k | 0 <= k < |f.placed| :: WellPlaced(f.placed[k])) &&
    (forall k | 0 < k < |f.placed| :: Follows(f.placed[k - 1], f.placed[k]))
  }

  /** The first image starts at `top` of the first page or at the top margin
      of the second; the cursor stands the line spacing below the last one. */
  predicate Ends(f: Flow, top: real)
  {
    (|f.placed| == 0 ==> f.page == 0 && f.cursor == top) &&
    (|f.placed| > 0 ==>
       f.placed[|f.placed| - 1].page == f.page &&
       f.cursor == f.placed[|f.placed| - 1].y - LineSpacing &&
       f.placed[0].page <= 1 &&
       (f.placed[0].page == 0 ==> f.placed[0].y + f.placed[0].height == top) &&
       (f.placed[0].page == 1 ==> f.placed[0].y + f.placed[0].height == PageTop))
  }

  /** Centred, below the top margin, and above the bottom margin when it is
      no taller than the printable height. */
  predicate WellPlaced(p: Placement)
  {
    p.x + p.width / 2.0 == PageWidth / 2.0 && Margin <= p.x &&
    p.y + p.height <= PageTop &&
    (p.height <= PageTop - Margin ==> Margin <= p.y)
  }

  /** `next` starts the line spacing below `prev` on the same page, or at the
      top margin of the following page. */
  predicate Follows(prev: Placement, next: Placement)
  {
    (next.page == prev.page && next.y + next.height == prev.y - LineSpacing) ||
    (next.page == prev.page + 1 && next.y + next.height == PageTop)
  }

  /** The image `Place` appends is well placed, follows the previous one,
      and leaves the cursor at or below the top margin. */
  lemma PlacedWell(f: Flow, img: Image, top: real)
    requires img.width > 0 && top <= PageTop && Ends(f, top)
    requires f.cursor <= PageTop
    ensures var g := Place(f, img);
      |g.placed| == |f.placed| + 1 && g.placed[..|f.placed|] == f.placed &&
      WellPlaced(g.placed[|f.placed|]) && Ends(g, top) && g.cursor <= PageTop &&
      (|f.placed| > 0 ==> Follows(f.placed[|f.placed| - 1], g.placed[|f.placed|]))
  {
    PlaceFacts(f, img);
    var g := Place(f, img);
    var n := |f.placed|;
    if n > 0 {
      assert g.placed[0] == g.placed[..n][0];
    }
  }

  /** Placing an image keeps the layout stacked. */
  lemma PlaceKeepsStacked(f: Flow, img: Image, top: real)
    requires img.width > 0 && top <= PageTop && Stacked(f, top)
    requires f.cursor <= PageTop
    ensures Stacked(Place(f, img), top) && Place(f, img).cursor <= PageTop
  {
    PlacedWell(f, img, top);
    var g := Place(f, img);
    var n := |f.placed|;
    forall k | 0 <= k < n
      ensures g.placed[k] == f.placed[k]
    {
      assert g.placed[..n][k] == g.placed[k];
    }
    assert forall k | 0 <= k <= n :: WellPlaced(g.placed[k]);
    forall k | 0 < k <= n
      ensures Follows(g.placed[k - 1], g.placed[k])
    {
      if k < n {
        assert Follows(f.placed[k - 1], f.placed[k]);
      }
    }
  }

  /** Every layout is stacked, from a start at or below the top margin. */
  lemma {:induction false} FlowStacked(paths: seq<string>, files: map<string, Image>, top: real, i: nat)
    requires Openable(files) && i <= |paths| && top <= PageTop
    ensures Stacked(FlowAfter(paths, files, top, i), top)
    ensures FlowAfter(paths, files, top, i).cursor <= PageTop
  {
    if i > 0 {
      FlowStacked(paths, files, top, i - 1);
      var f := FlowAfter(paths, files, top, i - 1);
      if paths[i - 1] in files {
        PlaceKeepsStacked(f, files[paths[i - 1]], top);
      }
    }
  }

  /** The canvas of reportlab: the current page, what was drawn on which
      page, and whether the file was written. */
  class Canvas {
    /** Pages finished with `showPage` so far: the index of the current page. */
    var page: nat
    var texts: seq<Text>
    var images: seq<Placement>
    var saved: bool

    constructor ()
      ensures page == 0 && texts == [] && images == [] && !saved
    {
      page := 0;
      texts := [];
      images := [];
      saved := false;
    }

    /** `showPage`: ends the current page. */
    method ShowPage()
      modifies this`page
      ensures page == old(page) + 1
    {
      page := page + 1;
    }

    method DrawCentredString(x: real, y: real, text: string)
      modifies this`texts
      ensures texts == old(texts) + [Text(page, x, y, text)]
    {
      texts := texts + [Text(page, x, y, text)];
    }

    method DrawImage(image: Grid, x: real, y: real, width: real, height: real)
      modifies this`images
      ensures images == old(images) + [Placement(page, x, y, width, height, image)]
    {
      images := images + [Placement(page, x, y, width, height, image)];
    }

    /** `save`: writes the file, the current page included. */
    method Save()
      modifies this`saved
      ensures saved
    {
      saved := true;
    }
  }

  /** `create_print_ready_pdf`: with no paths only an empty page is written,
      without the title; otherwise the title is drawn centred at the top of
      the first page and the images are laid out as `FlowAfter` describes. */
  method CreatePrintReadyPdf(imagePaths: seq<string>, titleText: string, files: map<string, Image>)
    returns (c: Canvas)
    requires Openable(files)
    ensures fresh(c) && c.saved
    ensures |imagePaths| == 0 ==> c.page == 0 && c.texts == [] && c.images == []
    ensures |imagePaths| > 0 ==>
      var f := FlowAfter(imagePaths, files, StartCursor(titleText), |imagePaths|);
      c.page == f.page && c.images == f.placed &&
      c.texts == if |titleText| > 0 then [Text(0, PageWidth / 2.0, PageTop, titleText)] else []
  {
    c := new Canvas();
    if |imagePaths| == 0 {
      c.Save();
      return;
    }
    var yCursor := PageTop;
    if |titleText| > 0 {
      c.DrawCentredString(PageWidth / 2.0, yCursor, titleText);
      yCursor := yCursor - TitleGap;
    }
    ghost var texts := c.texts;
    var i := 0;
    while i < |imagePaths|
      invariant 0 <= i <= |imagePaths|
      invariant Flow(c.page, yCursor, c.images) == FlowAfter(imagePaths, files, StartCursor(titleText), i)
      invariant c.texts == texts && !c.saved
    {
      ghost var f := FlowAfter(imagePaths, files, StartCursor(titleText), i);
      var imgPath := imagePaths[i];
      if imgPath !in files {
        i := i + 1;
        continue;
      }
      var img := files[imgPath];
      var pixels := Binarise(img.pixels);
      var scale := Scale(img.width);
      var newWidth := img.width as real * scale;
      var newHeight := img.height as real * scale;
      PlaceWith(f, img, scale);
      if yCursor - newHeight < Margin {
        c.ShowPage();
        yCursor := PageTop;
      }
      var x := (PageWidth - newWidth) / 2.0;
      var y := yCursor - newHeight;
      c.DrawImage(pixels, x, y, newWidth, newHeight);
      yCursor := y - LineSpacing;
      i := i + 1;
    }
    c.Save();
  }

  /** What `save_as_pdf` does with its list of paths. */
  datatype SaveOutcome =
    | NothingSaved           // an empty list: only a message
    | MissingFile(path: string) // `Image.open` raises on the first missing file
    | Saved(pages: seq<Image>)  // one page per image, in order

  /** `save_as_pdf`: an empty list saves nothing; otherwise every file is
      opened, in order, and they become the pages of one PDF. */
  function SaveAsPdf(imagePaths: seq<string>, files: map<string, Image>): (r: SaveOutcome)
    ensures r == NothingSaved <==> |imagePaths| == 0
    ensures r.Saved? ==> |r.pages| == |imagePaths| && forall k | 0 <= k < |imagePaths| ::
      imagePaths[k] in files && r.pages[k] == files[imagePaths[k]]
    ensures r.MissingFile? ==> r.path in imagePaths && r.path !in files
  {
    if |imagePaths| == 0 then NothingSaved
    else OpenAll(imagePaths, files)
  }

  /** Opens the files in order; the first missing one stops it. */
  function OpenAll(paths: seq<string>, files: map<string, Image>): (r: SaveOutcome)
    requires |paths| > 0
    ensures r.Saved? || r.MissingFile?
    ensures r.Saved? <==> forall k | 0 <= k < |paths| :: paths[k] in files
    ensures r.Saved? ==> |r.pages| == |paths| && forall k | 0 <= k < |paths| :: r.pages[k] == files[paths[k]]
    ensures r.MissingFile? ==> exists k | 0 <= k < |paths| ::
      (paths[k] == r.path && r.path !in files && forall m | 0 <= m < k :: paths[m] in files)
  {
    if paths[0] !in files then MissingFile(paths[0])
    else if |paths| == 1 then Saved([files[paths[0]]])
    else
      match OpenAll(paths[1..], files)
      case Saved(rest) => Saved([files[paths[0]]] + rest)
      case other => other
  }
}
