/**
 * The gallery generator's run (`main` of update-gallery.js) and the steps
 * it drives besides scanning and rendering: deleting the pages an earlier
 * run left behind, rewriting the root document, writing pages 2.., and the
 * JSON manifest. Writes and deletions are returned as values.
 */
module Gallery {
  import opened Wrappers
  import opened Text
  import opened Scanner
  import opened Pagination
  import opened Render
  import opened Splice

  /** `file.startsWith('gallery_page_') && file.endsWith('.html')` */
  predicate IsStalePageName(f: string) {
    StartsWith(f, PageFilePrefix) && EndsWith(f, PageFileSuffix)
  }

  /** The names `cleanOldGalleryPages` sets out to delete, in listing order. */
  function StalePages(files: seq<string>): seq<string> {
    Filter(files, IsStalePageName)
  }

  /** Exactly the listed names of the form gallery_page_*.html are selected. */
  lemma StalePagesExactly(files: seq<string>)
    ensures forall f :: f in StalePages(files) <==> f in files && IsStalePageName(f)
  {
    forall f ensures f in StalePages(files) <==> f in files && IsStalePageName(f) {
      FilterMembership(files, IsStalePageName, f);
    }
  }

  /** Every page file a run writes is one the next run deletes first. */
  lemma GeneratedPagesAreStale(p: nat)
    ensures IsStalePageName(PageFileName(p))
  {
    var f := PageFileName(p);
    assert f[..|PageFilePrefix|] == PageFilePrefix;
    assert f[|f| - |PageFileSuffix|..] == PageFileSuffix;
  }

  /**
   * What `cleanOldGalleryPages` deletes: nothing when the output directory
   * cannot be listed; otherwise the selected names in order, up to the first
   * one whose deletion fails (the error ends the loop).
   */
  ghost predicate CleanedAsWritten(listing: Option<seq<string>>, unlinkFails: set<string>, deleted: seq<string>) {
    match listing
    case None => deleted == []
    case Some(files) =>
      var pages := StalePages(files);
      && |deleted| <= |pages|
      && deleted == pages[..|deleted|]
      && (forall d :: d in deleted ==> d !in unlinkFails)
      && (|deleted| < |pages| ==> pages[|deleted|] in unlinkFails)
  }

  /**
   * cleanOldGalleryPages. `listing` is the output directory as readdirSync
   * gives it (None when that throws); `unlinkFails` the names whose
   * deletion throws.
   */
  method CleanOldGalleryPages(listing: Option<seq<string>>, unlinkFails: set<string>) returns (deleted: seq<string>)
    ensures CleanedAsWritten(listing, unlinkFails, deleted)
    ensures listing.Some? && (forall f :: f in listing.value ==> f !in unlinkFails) ==>
      deleted == StalePages(listing.value)
  {
    deleted := [];
    if listing.None? {
      return;
    }
    var pages := StalePages(listing.value);
    var i := 0;
    while i < |pages|
      invariant 0 <= i <= |pages|
      invariant deleted == pages[..i]
      invariant forall d :: d in deleted ==> d !in unlinkFails
    {
      if pages[i] in unlinkFails {
        FilterMembership(listing.value, IsStalePageName, pages[i]);
        return;
      }
      deleted := deleted + [pages[i]];
      i := i + 1;
    }
    assert pages[..i] == pages;
    forall f | f in pages ensures f in listing.value {
      FilterMembership(listing.value, IsStalePageName, f);
    }
  }

  /** One image entry of the manifest: `{name, path, size}`. */
  datatype ManifestImage = ManifestImage(name: string, path: string, size: nat)

  /** gallery-info.json; `generatedAt` is the clock reading supplied by the caller. */
  datatype GalleryInfo = GalleryInfo(
    totalImages: nat,
    totalPages: nat,
    imagesPerPage: nat,
    generatedAt: string,
    images: seq<ManifestImage>)

  /** generateGalleryInfo: the manifest lists every image, in order, projected to name, path and size. */
  function GenerateGalleryInfo(images: seq<ImageRecord>, totalPages: nat, now: string): (info: GalleryInfo)
    ensures info.totalImages == |images| == |info.images|
    ensures info.imagesPerPage == ImagesPerPage && info.totalPages == totalPages
    ensures forall i :: 0 <= i < |images| ==>
      && info.images[i].name == images[i].name
      && info.images[i].path == images[i].path
      && info.images[i].size == images[i].size
  {
    GalleryInfo(|images|, totalPages, ImagesPerPage, now,
      seq(|images|, i requires 0 <= i < |images| => ManifestImage(images[i].name, images[i].path, images[i].size)))
  }

  /**
   * The manifest of a scan: the page count is the ceiling of the image count
   * over 16, and every listed image has an allowed extension and a path
   * without backslashes.
   */
  lemma ManifestOfScan(assets: Listing, sep: char, now: string)
    ensures var images := Scan(assets, [], sep);
      var info := GenerateGalleryInfo(images, TotalPages(|images|, ImagesPerPage), now);
      && info.totalImages <= info.totalPages * ImagesPerPage
      && (info.totalPages > 0 ==> (info.totalPages - 1) * ImagesPerPage < info.totalImages)
      && forall i :: 0 <= i < |info.images| ==> IsImageFile(info.images[i].name) && '\\' !in info.images[i].path
  {
    ScanWellFormed(assets, [], sep);
    var images := Scan(assets, [], sep);
    assert forall i :: 0 <= i < |images| ==> WellFormed(images[i], [], sep);
  }

  /**
   * A page file written by the run: its name and the page value it holds;
   * the text written is `PageHtml` of it.
   */
  datatype PageFile = PageFile(name: string, page: GalleryPage)

  /** The text of a page file, the template printed with its page value. */
  function PageHtml(f: PageFile): string {
    RenderGalleryPage(f.page)
  }

  /** Page p of t as the run writes it: its own file name and the page showing its slice. */
  function PlannedPage(images: seq<ImageRecord>, p: nat, t: nat): PageFile
    requires p >= 1
  {
    PageFile(PageFileName(p), BuildGalleryPage(PageSlice(images, p, ImagesPerPage), p, t))
  }

  /** Pages 2..n-1, in order, as the run writes them. */
  function PlannedPages(images: seq<ImageRecord>, n: nat, t: nat): (r: seq<PageFile>)
    ensures |r| == if n > 2 then n - 2 else 0
    ensures forall i :: 0 <= i < |r| ==> r[i] == PlannedPage(images, i + 2, t)
  {
    if n <= 2 then [] else PlannedPages(images, n - 1, t) + [PlannedPage(images, n - 1, t)]
  }

  /** No two written pages share a file name, so none overwrites another. */
  lemma PlannedPageNamesDistinct(images: seq<ImageRecord>, n: nat, t: nat)
    ensures var r := PlannedPages(images, n, t);
      forall i, j :: 0 <= i < j < |r| ==> r[i].name != r[j].name
  {
    var r := PlannedPages(images, n, t);
    forall i, j | 0 <= i < j < |r| ensures r[i].name != r[j].name {
      var a, b := PageFileName(i + 2), PageFileName(j + 2);
      assert r[i].name == a && r[j].name == b;
      if a == b {
        PageFileNameInjective(i + 2, j + 2);
        assert false;
      }
    }
  }

  /**
   * The loop of `main` over pages 2..t: page p shows its slice of the
   * images, is titled and linked for p of t, and goes to its own file.
   */
  method GeneratePages(images: seq<ImageRecord>, t: nat) returns (files: seq<PageFile>)
    ensures files == PlannedPages(images, t + 1, t)
  {
    files := [];
    var page := 2;
    while page <= t
      invariant 2 <= page <= (if t > 1 then t + 1 else 2)
      invariant files == PlannedPages(images, page, t)
    {
      files := files + [PlannedPage(images, page, t)];
      page := page + 1;
    }
  }

  /** The root document after `updateIndexHtml`, or None when nothing is written. */
  function IndexDocument(index: Option<string>, images: seq<ImageRecord>, t: nat): Option<string> {
    var region := BuildIndexRegion(images, t);
    match index
    case None => None
    case Some(content) => SpliceMarkers(content, Region(IndexImageHtml(region), IndexPaginationHtml(region)))
  }

  /** The outcome of one run of the generator. */
  datatype RunOutcome =
    | AssetsMissing     // the run stops with exit code 1
    | NoImages          // a warning; nothing is deleted or written
    | Updated(deleted: seq<string>, index: Option<string>, pages: seq<PageFile>, info: GalleryInfo)

  /**
   * main: check the asset directory, scan it, stop when there are no
   * images; otherwise write the outputs. `now` is the manifest timestamp.
   */
  method RunUpdate(assetsExist: bool, assets: Listing, sep: char, output: Option<seq<string>>,
                   unlinkFails: set<string>, index: Option<string>, now: string)
    returns (outcome: RunOutcome)
    ensures !assetsExist <==> outcome == AssetsMissing
    ensures assetsExist ==> (Scan(assets, [], sep) == [] <==> outcome == NoImages)
    ensures outcome.Updated? ==> UpdatedAsWritten(Scan(assets, [], sep), output, unlinkFails, index, now, outcome)
  {
    if !assetsExist {
      return AssetsMissing;
    }
    var images := ScanImages(assets, [], sep);
    if |images| == 0 {
      return NoImages;
    }
    outcome := WriteOutputs(images, output, unlinkFails, index, now);
  }

  /**
   * The outputs of a run over `images`: the deletions as
   * `cleanOldGalleryPages` makes them, the root document with page 1, pages
   * 2..t, and the manifest, for t the page count of the images.
   */
  ghost predicate UpdatedAsWritten(images: seq<ImageRecord>, output: Option<seq<string>>, unlinkFails: set<string>,
                                   index: Option<string>, now: string, outcome: RunOutcome) {
    var t := TotalPages(|images|, ImagesPerPage);
    && outcome.Updated?
    && CleanedAsWritten(output, unlinkFails, outcome.deleted)
    && outcome.index == IndexDocument(index, images, t)
    && outcome.pages == PlannedPages(images, t + 1, t)
    && outcome.info == GenerateGalleryInfo(images, t, now)
  }

  /** The part of main after the scan found images: clean, root document, pages, manifest. */
  method WriteOutputs(images: seq<ImageRecord>, output: Option<seq<string>>, unlinkFails: set<string>,
                      index: Option<string>, now: string)
    returns (outcome: RunOutcome)
    ensures UpdatedAsWritten(images, output, unlinkFails, index, now, outcome)
  {
    var deleted := CleanOldGalleryPages(output, unlinkFails);
    var totalPages := TotalPages(|images|, ImagesPerPage);
    var indexAfter := IndexDocument(index, images, totalPages);
    var pages := GeneratePages(images, totalPages);
    var info := GenerateGalleryInfo(images, totalPages, now);
    outcome := Updated(deleted, indexAfter, pages, info);
  }

  /** The image blocks of the written page files, one file after the other. */
  function PageBlocks(files: seq<PageFile>): seq<ImageBlock> {
    if files == [] then [] else PageBlocks(files[..|files| - 1]) + files[|files| - 1].page.blocks
  }

  /** The blocks of two runs of images, one after the other. */
  lemma GalleryBlocksAppend(a: seq<ImageRecord>, b: seq<ImageRecord>)
    ensures GalleryBlocks(a + b) == GalleryBlocks(a) + GalleryBlocks(b)
  {
    var ab := a + b;
    assert forall i :: 0 <= i < |ab| ==> ab[i] == if i < |a| then a[i] else b[i - |a|];
  }

  /** The page files 2..n-1 show, one after the other, the images of pages 2..n-1. */
  lemma {:induction false} PlannedBlocks(images: seq<ImageRecord>, n: nat, t: nat)
    requires t == TotalPages(|images|, ImagesPerPage) && 2 <= n <= t + 1
    ensures PageBlocks(PlannedPages(images, n, t)) == GalleryBlocks(Flatten(Pages(images, ImagesPerPage)[1..n - 1]))
  {
    var pages := Pages(images, ImagesPerPage);
    if n > 2 {
      var r := PlannedPages(images, n, t);
      var last := pages[n - 2];
      assert PageBlocks(r) == PageBlocks(PlannedPages(images, n - 1, t)) + GalleryBlocks(last) by {
        assert r[..|r| - 1] == PlannedPages(images, n - 1, t);
        assert last == PageSlice(images, n - 1, ImagesPerPage);
      }
      FlattenSliceSnoc(pages, 1, n - 1);
      PlannedBlocks(images, n - 1, t);
      GalleryBlocksAppend(Flatten(pages[1..n - 2]), last);
    } else {
      assert pages[1..n - 1] == [];
    }
  }

  /** The root document shows the first min(16, n) images, in order. */
  lemma IndexShowsFirstImages(images: seq<ImageRecord>, t: nat)
    ensures var m := Min(ImagesPerPage, |images|);
      BuildIndexRegion(images, t).blocks == seq(m, i requires 0 <= i < m => IndexBlock(images[i]))
  {
    IndexRegionShape(images, t);
  }

  /** The page files 2..t, read one after the other, show the images after the first page, in order. */
  lemma PageFilesShowTheRest(images: seq<ImageRecord>)
    ensures var t := TotalPages(|images|, ImagesPerPage);
      PageBlocks(PlannedPages(images, t + 1, t)) == GalleryBlocks(images[Min(ImagesPerPage, |images|)..])
  {
    var t := TotalPages(|images|, ImagesPerPage);
    if |images| > 0 {
      PlannedBlocks(images, t + 1, t);
      LaterPagesAreTheRest(images, ImagesPerPage);
    } else {
      assert PlannedPages(images, t + 1, t) == [];
    }
  }

  /**
   * A run shows every scanned image exactly once, in scan order: the root
   * document holds the first min(16, n) images, and the page files 2..t,
   * read one after the other, hold the rest.
   */
  lemma RunShowsEveryImageOnce(images: seq<ImageRecord>)
    ensures var t := TotalPages(|images|, ImagesPerPage);
      var m := Min(ImagesPerPage, |images|);
      && BuildIndexRegion(images, t).blocks == seq(m, i requires 0 <= i < m => IndexBlock(images[i]))
      && PageBlocks(PlannedPages(images, t + 1, t)) == GalleryBlocks(images[m..])
  {
    IndexShowsFirstImages(images, TotalPages(|images|, ImagesPerPage));
    PageFilesShowTheRest(images);
  }
}
