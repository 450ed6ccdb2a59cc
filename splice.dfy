/**
 * The two-marker rewrite of the root document (`updateIndexHtml`): find the
 * first occurrence of a start marker and of an end marker, keep everything
 * up to the end of the start marker and everything from the end marker on,
 * and put the new region between them. When either marker is missing the
 * document is not written.
 */
module Splice {
  import opened Wrappers
  import opened Text

  const StartMarker: string := "<div class=\"flex flex-wrap w-full\">"
  const EndMarker: string := "  <!-- Footer -->"

  /** The text put between the markers. */
  function Region(imageHtml: string, paginationHtml: string): (r: string)
    ensures |r| >= 6 && r[0] == '\n' && r[|r| - 1] == '\n'
  {
    "\n\n\n\n" + imageHtml + "\n" + paginationHtml + "\n"
  }

  /** Where the kept head of the document ends: just after the first start marker. */
  function KeepUpTo(content: string, startMarker: string): int {
    IndexOf(content, startMarker) + |startMarker|
  }

  /**
   * The rewritten document, or None when a marker is missing. The result
   * starts with the document up to the end of the first start marker, ends
   * with the document from the first end marker on, and holds `region` in
   * between.
   */
  function SpliceBetween(content: string, startMarker: string, endMarker: string, region: string): (r: Option<string>)
    ensures r.Some? <==> Contains(content, startMarker) && Contains(content, endMarker)
    ensures r.Some? ==>
      && 0 <= KeepUpTo(content, startMarker) <= |content|
      && 0 <= IndexOf(content, endMarker) <= |content|
      && r.value == content[..KeepUpTo(content, startMarker)] + region + content[IndexOf(content, endMarker)..]
  {
    var startIndex := IndexOf(content, startMarker);
    var endIndex := IndexOf(content, endMarker);
    if startIndex != -1 && endIndex != -1 then
      var before := content[..startIndex + |startMarker|];
      var after := content[endIndex..];
      Some(before + region + after)
    else None
  }

  /** `updateIndexHtml`'s rewrite with its two markers. */
  function SpliceMarkers(content: string, region: string): Option<string> {
    SpliceBetween(content, StartMarker, EndMarker, region)
  }

  /**
   * When the start marker comes before the end marker, the rewrite replaces
   * exactly the text between them: the document is head + old region +
   * tail, the result head + new region + tail.
   */
  lemma SpliceReplacesOnlyTheRegion(content: string, region: string)
    requires SpliceMarkers(content, region).Some?
    requires KeepUpTo(content, StartMarker) <= IndexOf(content, EndMarker)
    ensures var head, tail := content[..KeepUpTo(content, StartMarker)], content[IndexOf(content, EndMarker)..];
      && content == head + content[KeepUpTo(content, StartMarker)..IndexOf(content, EndMarker)] + tail
      && SpliceMarkers(content, region).value == head + region + tail
  {
    ThreeParts(content, KeepUpTo(content, StartMarker), IndexOf(content, EndMarker));
  }

  lemma ThreeParts(s: string, a: int, b: int)
    requires 0 <= a <= b <= |s|
    ensures s == s[..a] + s[a..b] + s[b..]
  {
  }

  lemma OccursInPrefix(p: string, x: string, pat: string, i: int)
    requires 0 <= i && i + |pat| <= |p|
    ensures OccursAt(p + x, pat, i) <==> OccursAt(p, pat, i)
  {
    assert (p + x)[i..i + |pat|] == p[i..i + |pat|];
  }

  lemma OccursInMiddle(p: string, m: string, s: string, pat: string, i: int)
    requires |p| <= i && i + |pat| <= |p| + |m|
    ensures OccursAt(p + m + s, pat, i) <==> OccursAt(m, pat, i - |p|)
  {
    assert (p + m + s)[i..i + |pat|] == m[i - |p|..i - |p| + |pat|];
  }

  /** An occurrence cannot cover a newline when the pattern has none. */
  lemma NewlineBlocks(t: string, pat: string, i: int, j: int)
    requires '\n' !in pat
    requires 0 <= i <= j < i + |pat| && j < |t| && t[j] == '\n'
    ensures !OccursAt(t, pat, i)
  {
  }

  lemma IndexOfIs(t: string, pat: string, k: int)
    requires OccursAt(t, pat, k)
    requires forall i :: 0 <= i < k ==> !OccursAt(t, pat, i)
    ensures IndexOf(t, pat) == k
  {
  }

  /** After the rewrite, the first start marker is where it was. */
  lemma StartMarkerStays(content: string, sm: string, m: string, tail: string)
    requires Contains(content, sm)
    ensures IndexOf(content[..KeepUpTo(content, sm)] + m + tail, sm) == IndexOf(content, sm)
  {
    var s := IndexOf(content, sm);
    var p := content[..s + |sm|];
    var rest := m + tail;
    var t := p + rest;
    assert content == p + content[s + |sm|..];
    OccursInPrefix(p, rest, sm, s);
    OccursInPrefix(p, content[s + |sm|..], sm, s);
    forall i | 0 <= i < s ensures !OccursAt(t, sm, i) {
      OccursInPrefix(p, rest, sm, i);
      OccursInPrefix(p, content[s + |sm|..], sm, i);
    }
    IndexOfIs(t, sm, s);
    assert p + m + tail == t;
  }

  /**
   * No end marker starts before the kept tail: not inside the kept head
   * (the first one is later in the document), not across the newlines that
   * open and close the region, and not inside the region.
   */
  lemma NoEndMarkerBefore(p: string, m: string, tail: string, rest: string, em: string, i: int)
    requires |em| > 0 && '\n' !in em
    requires |m| > 0 && m[0] == '\n' && m[|m| - 1] == '\n'
    requires !Contains(m, em)
    requires forall j :: 0 <= j && j + |em| <= |p| ==> !OccursAt(p + rest, em, j)
    requires 0 <= i < |p| + |m|
    ensures !OccursAt(p + m + tail, em, i)
  {
    var t := p + m + tail;
    var e2 := |p| + |m|;
    if i + |em| <= |p| {
      assert t == p + (m + tail);
      OccursInPrefix(p, m + tail, em, i);
      OccursInPrefix(p, rest, em, i);
    } else if i < |p| {
      NewlineBlocks(t, em, i, |p|);
    } else if i + |em| <= e2 {
      OccursInMiddle(p, m, tail, em, i);
    } else {
      NewlineBlocks(t, em, i, e2 - 1);
    }
  }

  /**
   * After the rewrite, the first end marker is the one opening the kept
   * tail, as long as the markers were in order and the region, which starts
   * and ends with a newline, holds no end marker.
   */
  lemma EndMarkerFollowsRegion(content: string, sm: string, em: string, m: string)
    requires Contains(content, sm) && Contains(content, em)
    requires |em| > 0 && '\n' !in em
    requires KeepUpTo(content, sm) <= IndexOf(content, em)
    requires |m| > 0 && m[0] == '\n' && m[|m| - 1] == '\n'
    requires !Contains(m, em)
    ensures var p := content[..KeepUpTo(content, sm)];
      IndexOf(p + m + content[IndexOf(content, em)..], em) == |p| + |m|
  {
    var e := IndexOf(content, em);
    var k := KeepUpTo(content, sm);
    var p := content[..k];
    var rest := content[k..];
    var tail := content[e..];
    var t := p + m + tail;
    var e2 := |p| + |m|;
    assert content == p + rest;
    assert t[e2..] == tail;
    assert t[e2..e2 + |em|] == tail[..|em|] == em;
    forall i | 0 <= i < e2 ensures !OccursAt(t, em, i) {
      NoEndMarkerBefore(p, m, tail, rest, em, i);
    }
    IndexOfIs(t, em, e2);
  }

  /**
   * Rewriting the rewritten document again with the same region gives it
   * back unchanged, for any pair of markers in order whose end marker holds
   * no newline and does not occur in the region.
   */
  lemma SpliceBetweenIdempotent(content: string, sm: string, em: string, m: string)
    requires Contains(content, sm) && Contains(content, em)
    requires |em| > 0 && '\n' !in em
    requires KeepUpTo(content, sm) <= IndexOf(content, em)
    requires |m| > 0 && m[0] == '\n' && m[|m| - 1] == '\n'
    requires !Contains(m, em)
    ensures SpliceBetween(content, sm, em, m).Some?
    ensures SpliceBetween(SpliceBetween(content, sm, em, m).value, sm, em, m) == SpliceBetween(content, sm, em, m)
  {
    var k := KeepUpTo(content, sm);
    var p := content[..k];
    var tail := content[IndexOf(content, em)..];
    var t := p + m + tail;
    assert SpliceBetween(content, sm, em, m) == Some(t);
    StartMarkerStays(content, sm, m, tail);
    EndMarkerFollowsRegion(content, sm, em, m);
    assert KeepUpTo(t, sm) == k;
    assert IndexOf(t, em) == |p| + |m|;
    assert t[..k] == p;
    assert t[|p| + |m|..] == tail;
    assert SpliceBetween(t, sm, em, m) == Some(t[..k] + m + t[|p| + |m|..]);
  }

  /**
   * Running the rewrite a second time with the same region changes nothing,
   * provided the markers are in order and the region does not itself hold
   * the end marker: the root document is stable across runs on unchanged
   * images.
   */
  lemma SpliceIdempotent(content: string, imageHtml: string, paginationHtml: string)
    requires SpliceMarkers(content, Region(imageHtml, paginationHtml)).Some?
    requires KeepUpTo(content, StartMarker) <= IndexOf(content, EndMarker)
    requires !Contains(Region(imageHtml, paginationHtml), EndMarker)
    ensures SpliceMarkers(SpliceMarkers(content, Region(imageHtml, paginationHtml)).value, Region(imageHtml, paginationHtml))
         == SpliceMarkers(content, Region(imageHtml, paginationHtml))
  {
    assert '\n' !in EndMarker;
    SpliceBetweenIdempotent(content, StartMarker, EndMarker, Region(imageHtml, paginationHtml));
  }
}
