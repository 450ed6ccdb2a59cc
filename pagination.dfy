/**
 * Page arithmetic of the gallery generator: the page count is
 * `Math.ceil(n / imagesPerPage)` and page `p` (1-based) shows the slice
 * `[(p - 1) * k, min(p * k, n))` of the scanned images. Page 1 is spliced
 * into the root document, pages 2.. become files of their own.
 */
module Pagination {

  const ImagesPerPage: nat := 16

  function Min(a: int, b: int): int {
    if a <= b then a else b
  }

  /** Math.ceil(n / k): the fewest pages of k images that hold n images. */
  function TotalPages(n: nat, k: nat): (t: nat)
    requires k > 0
    ensures n <= t * k
    ensures t > 0 ==> (t - 1) * k < n
    ensures t == 0 <==> n == 0
  {
    var t := (n + k - 1) / k;
    var r := (n + k - 1) % k;
    assert n + k - 1 == t * k + r;
    assert (t - 1) * k == t * k - k;
    t
  }

  /**
   * `images.slice((p - 1) * k, min((p - 1) * k + k, n))`; like
   * Array.prototype.slice it clamps both ends to the array.
   */
  function PageSlice<T>(images: seq<T>, p: nat, k: nat): seq<T>
    requires p >= 1
  {
    var start := (p - 1) * k;
    images[Min(start, |images|)..Min(start + k, |images|)]
  }

  /** The pages 1..TotalPages in order. */
  function Pages<T>(images: seq<T>, k: nat): seq<seq<T>>
    requires k > 0
  {
    seq(TotalPages(|images|, k), i requires 0 <= i => PageSlice(images, i + 1, k))
  }

  function Flatten<T>(pages: seq<seq<T>>): seq<T> {
    if pages == [] then [] else Flatten(pages[..|pages| - 1]) + pages[|pages| - 1]
  }

  lemma MulStep(j: nat, k: nat)
    ensures (j + 1) * k == j * k + k
  {
  }

  lemma MulMonotone(i: nat, j: nat, k: nat)
    requires i <= j
    ensures i * k <= j * k
  {
  }

  /** The first j pages, read one after the other, are the first j*k images. */
  lemma {:induction false} FirstPagesArePrefix<T>(images: seq<T>, k: nat, j: nat)
    requires k > 0 && j <= TotalPages(|images|, k)
    ensures Flatten(Pages(images, k)[..j]) == images[..Min(j * k, |images|)]
  {
    var pages := Pages(images, k);
    if j > 0 {
      var t := TotalPages(|images|, k);
      FirstPagesArePrefix(images, k, j - 1);
      var a, b := (j - 1) * k, j * k;
      MulMonotone(j - 1, t - 1, k);
      MulStep(j - 1, k);
      assert a < |images| && b == a + k;
      assert pages[..j] == pages[..j - 1] + [pages[j - 1]];
      assert pages[..j][..j - 1] == pages[..j - 1];
      assert Flatten(pages[..j]) == Flatten(pages[..j - 1]) + pages[j - 1];
      assert pages[j - 1] == images[a..Min(b, |images|)];
      SliceJoin(images, a, Min(b, |images|));
    }
  }

  lemma SliceJoin<T>(s: seq<T>, a: nat, b: nat)
    requires a <= b <= |s|
    ensures s[..a] + s[a..b] == s[..b]
  {
  }

  /** Concatenating every page in order gives back the scanned images. */
  lemma PagesCoverImages<T>(images: seq<T>, k: nat)
    requires k > 0
    ensures Flatten(Pages(images, k)) == images
  {
    var pages := Pages(images, k);
    FirstPagesArePrefix(images, k, |pages|);
    assert pages[..|pages|] == pages;
  }

  /** Flattening a list of pages that starts with `x`: `x`, then the rest. */
  lemma {:induction false} FlattenCons<T>(x: seq<T>, xs: seq<seq<T>>)
    ensures Flatten([x] + xs) == x + Flatten(xs)
    decreases |xs|
  {
    if xs != [] {
      var ys := [x] + xs;
      assert ys[..|ys| - 1] == [x] + xs[..|xs| - 1];
      FlattenCons(x, xs[..|xs| - 1]);
    } else {
      assert [x] + xs == [x];
      assert [x][..0] == [];
    }
  }

  /** Flattening a run of pages: the run without its last page, then that page. */
  lemma FlattenSliceSnoc<T>(pages: seq<seq<T>>, a: nat, b: nat)
    requires a < b <= |pages|
    ensures Flatten(pages[a..b]) == Flatten(pages[a..b - 1]) + pages[b - 1]
  {
    assert pages[a..b][..b - a - 1] == pages[a..b - 1];
  }

  /**
   * Pages 2..j, read one after the other, are the images after the first
   * page up to the end of page j.
   */
  lemma LaterPagesJoin<T>(images: seq<T>, k: nat, j: nat)
    requires k > 0 && 1 <= j <= TotalPages(|images|, k)
    ensures Min(k, |images|) <= Min(j * k, |images|)
    ensures Flatten(Pages(images, k)[1..j]) == images[Min(k, |images|)..Min(j * k, |images|)]
  {
    var pages := Pages(images, k);
    MulMonotone(1, j, k);
    FirstPagesArePrefix(images, k, j);
    assert pages[..j] == [pages[0]] + pages[1..j];
    FlattenCons(pages[0], pages[1..j]);
    assert pages[0] == images[..Min(k, |images|)];
    SliceJoin(images, Min(k, |images|), Min(j * k, |images|));
  }

  /** Pages 2.., read one after the other, are all the images after the first page. */
  lemma LaterPagesAreTheRest<T>(images: seq<T>, k: nat)
    requires k > 0 && |images| > 0
    ensures Flatten(Pages(images, k)[1..TotalPages(|images|, k)]) == images[Min(k, |images|)..]
  {
    var t := TotalPages(|images|, k);
    LaterPagesJoin(images, k, t);
    assert Min(t * k, |images|) == |images|;
  }

  /** Every page holds between 1 and k images; the last one holds what is left. */
  lemma PageSizes<T>(images: seq<T>, k: nat, p: nat)
    requires k > 0 && 1 <= p <= TotalPages(|images|, k)
    ensures 1 <= |PageSlice(images, p, k)| <= k
    ensures p == TotalPages(|images|, k) ==> |PageSlice(images, p, k)| == |images| - (p - 1) * k
  {
    var t := TotalPages(|images|, k);
    MulMonotone(p - 1, t - 1, k);
    MulStep(p - 1, k);
    MulStep(t - 1, k);
  }

  /** 33 images at 16 per page: three pages, the last holding a single image. */
  lemma ThirtyThreeImages<T>(images: seq<T>)
    requires |images| == 33
    ensures TotalPages(|images|, ImagesPerPage) == 3
    ensures |PageSlice(images, 3, ImagesPerPage)| == 1
  {
  }
}
