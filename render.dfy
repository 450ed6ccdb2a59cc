/**
 * What the gallery generator renders: the per-image blocks, the page
 * navigation, the title, and the page file names (`generateGalleryPageHtml`
 * and the markup `updateIndexHtml` builds for the root document).
 *
 * A page is first built as a value (title, navigation, image blocks) and
 * then printed into the fixed template. The template's own text (head,
 * navigation bar, footer, CSS classes) is kept as short constants standing
 * for it; only the pieces that depend on the images and the page number are
 * spelled out.
 */
module Render {
  import opened Wrappers
  import opened Text
  import opened Paths
  import opened Scanner
  import opened Pagination

  /** One image: the link target (also the `src`) and the `alt` text. */
  datatype ImageBlock = ImageBlock(href: string, alt: string)

  /** The pagination block: optional previous link, "page p of t", optional next link. */
  datatype Nav = Nav(prev: Option<string>, page: nat, total: nat, next: Option<string>)

  datatype GalleryPage = GalleryPage(title: string, nav: Option<Nav>, blocks: seq<ImageBlock>)

  /** The images and navigation spliced into the root document. */
  datatype IndexRegion = IndexRegion(blocks: seq<ImageBlock>, nav: Option<Nav>)

  const PageFilePrefix: string := "gallery_page_"
  const PageFileSuffix: string := ".html"
  /** Where page 2 points back to: the root document, one directory up. */
  const RootFromPages: string := "../index.html"
  /** Pages live in the output directory; the root document links into it. */
  const OutputDirFromRoot: string := "dist/"

  /** `gallery_page_${p}.html` */
  function PageFileName(p: nat): string {
    PageFilePrefix + NatToString(p) + PageFileSuffix
  }

  /** How a generated page refers to page q: page 1 is the root document. */
  function PageTarget(q: nat): string {
    if q == 1 then RootFromPages else PageFileName(q)
  }

  function PageTitle(p: nat): string {
    if p == 1 then "PHOTO ALBUM" else "PHOTO ALBUM - 第" + NatToString(p) + "页"
  }

  /** The pagination rules of a generated page p out of t. */
  function BuildNav(p: nat, t: nat): Option<Nav> {
    if t > 1 then
      Some(Nav(if p > 1 then Some(if p == 2 then RootFromPages else PageFileName(p - 1)) else None,
               p, t,
               if p < t then Some(PageFileName(p + 1)) else None))
    else None
  }

  function GalleryBlock(img: ImageRecord): ImageBlock {
    ImageBlock("assets/" + img.path, AltText(img.name))
  }

  function IndexBlock(img: ImageRecord): ImageBlock {
    ImageBlock("dist/assets/" + img.path, AltText(img.name))
  }

  /** The blocks a generated page shows for its images, one per image in order. */
  function GalleryBlocks(images: seq<ImageRecord>): seq<ImageBlock> {
    seq(|images|, i requires 0 <= i < |images| => GalleryBlock(images[i]))
  }

  /** The page value `generateGalleryPageHtml(images, p, t)` prints. */
  function BuildGalleryPage(images: seq<ImageRecord>, p: nat, t: nat): GalleryPage {
    GalleryPage(PageTitle(p), BuildNav(p, t), GalleryBlocks(images))
  }

  /** The region `updateIndexHtml` splices in: the first page's images and a next link. */
  function BuildIndexRegion(images: seq<ImageRecord>, t: nat): IndexRegion {
    var first := PageSlice(images, 1, ImagesPerPage);
    IndexRegion(seq(|first|, i requires 0 <= i < |first| => IndexBlock(first[i])),
                if t > 1 then Some(Nav(None, 1, t, Some(OutputDirFromRoot + PageFileName(2)))) else None)
  }

  /**
   * Navigation of a generated page: no block for a single page; a previous
   * link exactly from page 2 on, to the root document from page 2 and to
   * the preceding page file after that; a next link exactly before the last
   * page, to the following page file.
   */
  lemma NavRules(p: nat, t: nat)
    requires 1 <= p <= t
    ensures BuildNav(p, t).None? <==> t <= 1
    ensures BuildNav(p, t).Some? ==> BuildNav(p, t).value.prev == (if p > 1 then Some(PageTarget(p - 1)) else None)
    ensures BuildNav(p, t).Some? ==> BuildNav(p, t).value.next == (if p < t then Some(PageTarget(p + 1)) else None)
    ensures BuildNav(p, t).Some? ==> BuildNav(p, t).value.page == p && BuildNav(p, t).value.total == t
  {
  }

  /** Distinct pages get distinct file names, so no page overwrites another. */
  lemma {:induction false} PageFileNameInjective(p: nat, q: nat)
    requires PageFileName(p) == PageFileName(q)
    ensures p == q
  {
    var a, b := PageFileName(p), PageFileName(q);
    var lp := |PageFilePrefix|;
    assert |NatToString(p)| == |NatToString(q)|;
    assert NatToString(p) == a[lp..|a| - |PageFileSuffix|];
    assert NatToString(q) == b[lp..|b| - |PageFileSuffix|];
    NatToStringInjective(p, q);
  }

  /** Every link target names one page only: links are unambiguous. */
  lemma PageTargetInjective(p: nat, q: nat)
    requires p >= 1 && q >= 1
    requires PageTarget(p) == PageTarget(q)
    ensures p == q
  {
    if p != 1 && q != 1 {
      PageFileNameInjective(p, q);
    }
  }

  /**
   * Following "next" and then "previous" comes back: the page that page p
   * links to as next links back to page p.
   */
  lemma NextThenPrevReturns(p: nat, t: nat)
    requires 1 <= p < t
    ensures BuildNav(p, t).Some? && BuildNav(p, t).value.next.Some?
    ensures BuildNav(p + 1, t).Some? && BuildNav(p + 1, t).value.prev == Some(PageTarget(p))
    ensures p > 1 ==> BuildNav(p, t).value.next == Some(PageTarget(p + 1))
  {
  }

  /**
   * Each generated page shows its images in order: block i links to
   * `assets/<path>` of image i, and its alt text is that image's name with
   * the extension removed.
   */
  lemma GalleryBlocksFollowImages(images: seq<ImageRecord>, p: nat, t: nat, i: nat)
    requires i < |images|
    ensures |BuildGalleryPage(images, p, t).blocks| == |images|
    ensures BuildGalleryPage(images, p, t).blocks[i].href == "assets/" + images[i].path
    ensures BuildGalleryPage(images, p, t).blocks[i].alt + Extname(images[i].name) == BaseName(images[i].name)
    ensures BuildGalleryPage(images, p, t).title == PageTitle(p)
  {
  }

  /**
   * The root document gets the first min(16, n) images, linked under
   * `dist/assets/`, and, when there is more than one page, a next link to
   * the file of page 2 in the output directory and no previous link.
   */
  lemma IndexRegionShape(images: seq<ImageRecord>, t: nat)
    ensures |BuildIndexRegion(images, t).blocks| == Min(ImagesPerPage, |images|)
    ensures forall i :: 0 <= i < |BuildIndexRegion(images, t).blocks| ==>
      BuildIndexRegion(images, t).blocks[i] == IndexBlock(images[i])
    ensures BuildIndexRegion(images, t).nav.None? <==> t <= 1
    ensures BuildIndexRegion(images, t).nav.Some? ==>
      BuildIndexRegion(images, t).nav.value == Nav(None, 1, t, Some(OutputDirFromRoot + PageFileName(2)))
  {
  }

  // The fixed template text, abbreviated.
  const DocumentHead: string := "<!DOCTYPE html>\n<html lang=\"en\" class=\"scroll-smooth\">\n<head>\n  <title>Xing - "
  const DocumentBodyOpen: string := "</title>\n</head>\n<body>\n  <div class=\"container mx-auto\">\n    <h1>Welcome to my view of the world</h1>\n    "
  const GridOpen: string := "\n    <section class=\"text-neutral-700\">\n      <div class=\"container w-full\">\n        <div class=\"flex flex-wrap w-full\">\n"
  const GridClose: string := "\n        </div>\n      </div>\n    </section>\n    "
  const DocumentTail: string := "\n  </div>\n  <footer></footer>\n</body>\n\n</html>"
  const BlockOpen: string := "<div class=\"flex w-full md:w-1/4 flex-wrap\"><div class=\"w-full p-1\"><div class=\"overflow-hidden h-full w-full\">"
  const BlockClose: string := "</div></div></div>"
  const LinkClass: string := " class=\"px-8 py-3 rounded-lg font-medium\""

  function LinkHtml(target: string, text: string): string {
    "<a href=\"" + target + "\"" + LinkClass + ">" + text + "</a>"
  }

  function NavHtml(nav: Nav): string {
    "<div class=\"flex justify-center\"><div class=\"flex items-center\">"
    + (match nav.prev case Some(target) => LinkHtml(target, "上一页") case None => "")
    + "<span class=\"text-xl font-semibold\">第 " + NatToString(nav.page) + " 页 / 共 " + NatToString(nav.total) + " 页</span>"
    + (match nav.next case Some(target) => LinkHtml(target, "下一页") case None => "")
    + "</div></div>"
  }

  function NavOrEmpty(nav: Option<Nav>): string {
    match nav
    case Some(n) => NavHtml(n)
    case None => ""
  }

  function GalleryBlockHtml(b: ImageBlock): string {
    "\n" + BlockOpen + "<a href=\"" + b.href + "\" data-fancybox=\"gallery\"><img alt=\"" + b.alt
    + "\" class=\"block h-full w-full object-cover\" src=\"" + b.href + "\" loading=\"lazy\" /></a>" + BlockClose
  }

  function IndexBlockHtml(b: ImageBlock): string {
    BlockOpen + "<a href=\"" + b.href + "\" data-fancybox=\"gallery\"><img alt=\"" + b.alt
    + "\" class=\"block h-full w-full object-cover\" src=\"" + b.href + "\" /></a>" + BlockClose
  }

  /** The grid of a generated page: the blocks one after the other. */
  function GridHtml(blocks: seq<ImageBlock>): string {
    if blocks == [] then "" else GalleryBlockHtml(blocks[0]) + GridHtml(blocks[1..])
  }

  /** The document `generateGalleryPageHtml` returns; the navigation appears above and below the grid. */
  function RenderGalleryPage(page: GalleryPage): string {
    var nav := NavOrEmpty(page.nav);
    DocumentHead + page.title + DocumentBodyOpen + nav + GridOpen
    + GridHtml(page.blocks)
    + GridClose + nav + DocumentTail
  }

  /** The root document's image markup: the blocks joined by newlines. */
  function IndexImageHtml(region: IndexRegion): string {
    Join(seq(|region.blocks|, i requires 0 <= i < |region.blocks| => IndexBlockHtml(region.blocks[i])), "\n")
  }

  function IndexPaginationHtml(region: IndexRegion): string {
    NavOrEmpty(region.nav)
  }
}
