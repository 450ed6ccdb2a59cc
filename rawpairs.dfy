/**
 * The before/after pairing of watch-raw-images.js (`updateConfig`): every
 * `<title>_before.jpg` in the raw directory whose `<title>_after.jpg` is
 * present becomes one comparison entry, numbered from 1 in listing order,
 * and keeps the pan link an earlier manifest recorded for the same title.
 *
 * The directory listing and the earlier manifest are inputs; the manifest
 * written back is returned as a value.
 */
module RawPairs {
  import opened Wrappers
  import opened Text

  const BeforeSuffix: string := "_before.jpg"
  const AfterSuffix: string := "_after.jpg"
  /** The entries' image paths, relative to the site root. */
  const RawPrefix: string := "assets/raw/"
  /** Only change notifications for names ending so cause a rebuild. */
  const WatchedSuffix: string := ".jpg"

  /**
   * One element of an earlier manifest's `rawComparisons` array. `panUrl`
   * is None when the field is missing or falsy; `NullItem` is an element
   * on which reading `.title` throws (null or undefined).
   */
  datatype PriorItem = Item(title: string, panUrl: Option<string>) | NullItem

  /** What reading the earlier manifest yields. */
  datatype PriorManifest =
    | Absent                        // no manifest file
    | Unparsable                    // reading or JSON.parse throws
    | NoComparisonArray             // parsed, but `rawComparisons` is not an array
    | Comparisons(items: seq<PriorItem>)

  /** One entry of the written manifest. */
  datatype Comparison = Comparison(id: nat, title: string, before: string, after: string, description: string, panUrl: string)

  /** `item.panUrl || ''` */
  function PanOf(panUrl: Option<string>): string {
    match panUrl
    case Some(u) => u
    case None => ""
  }

  /**
   * The forEach that fills the title-to-pan-link table: later items
   * overwrite earlier ones; an item that throws ends the loop, and the
   * surrounding catch keeps what was filled in before it.
   */
  function FoldItems(items: seq<PriorItem>, acc: map<string, string>): map<string, string>
    decreases |items|
  {
    if items == [] then acc
    else match items[0]
      case NullItem => acc
      case Item(t, u) => FoldItems(items[1..], acc[t := PanOf(u)])
  }

  /** `oldConfig` as it stands after reading the earlier manifest. */
  function PanLookup(m: PriorManifest): map<string, string> {
    match m
    case Comparisons(items) => FoldItems(items, map[])
    case _ => map[]
  }

  /** The loop that builds `oldConfig`. */
  method BuildPanLookup(m: PriorManifest) returns (lookup: map<string, string>)
    ensures lookup == PanLookup(m)
  {
    lookup := map[];
    if !m.Comparisons? {
      return;
    }
    var items := m.items;
    var i := 0;
    while i < |items|
      invariant 0 <= i <= |items|
      invariant FoldItems(items[i..], lookup) == FoldItems(items, map[])
    {
      if items[i].NullItem? {
        return;
      }
      assert items[i..][1..] == items[i + 1..];
      lookup := lookup[items[i].title := PanOf(items[i].panUrl)];
      i := i + 1;
    }
  }

  /** `oldConfig[prefix] || ''` */
  function PanFor(lookup: map<string, string>, title: string): string {
    if title in lookup then lookup[title] else ""
  }

  /** Without an earlier manifest with a comparison array, every pan link is empty. */
  lemma NoPriorManifestNoPanLinks(m: PriorManifest, title: string)
    requires !m.Comparisons?
    ensures PanFor(PanLookup(m), title) == ""
  {
  }

  /** Items up to a throwing one are folded in; nothing after it is. */
  lemma {:induction false} NullItemStopsFold(a: seq<PriorItem>, b: seq<PriorItem>, acc: map<string, string>)
    requires forall i :: 0 <= i < |a| ==> a[i].Item?
    ensures FoldItems(a + [NullItem] + b, acc) == FoldItems(a, acc)
    decreases |a|
  {
    if a == [] {
      assert a + [NullItem] + b == [NullItem] + b;
    } else {
      assert (a + [NullItem] + b)[1..] == a[1..] + [NullItem] + b;
      NullItemStopsFold(a[1..], b, acc[a[0].title := PanOf(a[0].panUrl)]);
    }
  }

  /** Folding two lists of well-formed items one after the other. */
  lemma {:induction false} FoldAppend(a: seq<PriorItem>, b: seq<PriorItem>, acc: map<string, string>)
    requires forall i :: 0 <= i < |a| ==> a[i].Item?
    ensures FoldItems(a + b, acc) == FoldItems(b, FoldItems(a, acc))
    decreases |a|
  {
    if a == [] {
      assert a + b == b;
    } else {
      assert (a + b)[1..] == a[1..] + b;
      FoldAppend(a[1..], b, acc[a[0].title := PanOf(a[0].panUrl)]);
    }
  }

  /** Items with other titles leave a title's entry alone. */
  lemma {:induction false} FoldKeepsOtherTitles(b: seq<PriorItem>, acc: map<string, string>, t: string)
    requires forall i :: 0 <= i < |b| ==> b[i].Item? ==> b[i].title != t
    ensures t in FoldItems(b, acc) <==> t in acc
    ensures t in acc ==> FoldItems(b, acc)[t] == acc[t]
    decreases |b|
  {
    if b != [] && b[0].Item? {
      FoldKeepsOtherTitles(b[1..], acc[b[0].title := PanOf(b[0].panUrl)], t);
    }
  }

  /**
   * When titles repeat, the last item with that title decides its pan
   * link, provided no item before it throws.
   */
  lemma LastTitleWins(a: seq<PriorItem>, t: string, u: Option<string>, b: seq<PriorItem>)
    requires forall i :: 0 <= i < |a| ==> a[i].Item?
    requires forall i :: 0 <= i < |b| ==> b[i].Item? ==> b[i].title != t
    ensures PanFor(PanLookup(Comparisons(a + [Item(t, u)] + b)), t) == PanOf(u)
  {
    var a2 := a + [Item(t, u)];
    forall i | 0 <= i < |a2| ensures a2[i].Item? {
      if i < |a| {
        assert a2[i] == a[i];
      }
    }
    FoldAppend(a2, b, map[]);
    FoldAppend(a, [Item(t, u)], map[]);
    assert [Item(t, u)][1..] == [];
    FoldKeepsOtherTitles(b, FoldItems(a2, map[]), t);
  }

  predicate IsBefore(f: string) {
    EndsWith(f, BeforeSuffix)
  }

  /** `before.replace('_before.jpg', '')`: the first occurrence is removed. */
  function Title(before: string): string {
    ReplaceFirst(before, BeforeSuffix, "")
  }

  /** The partner file the entry needs. */
  function AfterName(before: string): string {
    Title(before) + AfterSuffix
  }

  /** `files.filter(f => f.endsWith('_before.jpg'))` */
  function Befores(files: seq<string>): seq<string> {
    Filter(files, IsBefore)
  }

  /** `files.includes(after)` for the partner of a before-image. */
  function PartnerListed(files: seq<string>): string -> bool {
    (b: string) => AfterName(b) in files
  }

  /** The before-images whose partner is listed, in listing order. */
  function Paired(files: seq<string>): seq<string> {
    Filter(Befores(files), PartnerListed(files))
  }

  /** The entry for the k-th (from 0) paired before-image. */
  function EntryFor(k: nat, before: string, lookup: map<string, string>): Comparison {
    Comparison(k + 1, Title(before), RawPrefix + before, RawPrefix + AfterName(before), "", PanFor(lookup, Title(before)))
  }

  /** The manifest entries for a list of paired before-images. */
  function Entries(pairs: seq<string>, lookup: map<string, string>): (r: seq<Comparison>)
    ensures |r| == |pairs|
    ensures forall k :: 0 <= k < |pairs| ==> r[k] == EntryFor(k, pairs[k], lookup)
  {
    seq(|pairs|, k requires 0 <= k < |pairs| => EntryFor(k, pairs[k], lookup))
  }

  /** The manifest `updateConfig` writes for a listing and an earlier manifest. */
  function Config(files: seq<string>, m: PriorManifest): seq<Comparison> {
    Entries(Paired(files), PanLookup(m))
  }

  /**
   * updateConfig: read the earlier manifest, then walk the before-images,
   * numbering those whose partner is listed.
   */
  method UpdateConfig(files: seq<string>, m: PriorManifest) returns (config: seq<Comparison>)
    ensures config == Config(files, m)
  {
    var lookup := BuildPanLookup(m);
    var befores := Befores(files);
    ghost var keep := PartnerListed(files);
    config := [];
    var id := 1;
    var i := 0;
    while i < |befores|
      invariant 0 <= i <= |befores|
      invariant config == Entries(Filter(befores[..i], keep), lookup)
      invariant id == |config| + 1
    {
      var before := befores[i];
      var prefix := ReplaceFirst(before, BeforeSuffix, "");
      var after := prefix + AfterSuffix;
      assert befores[..i + 1][..i] == befores[..i];
      if after in files {
        EntriesSnoc(Filter(befores[..i], keep), before, lookup);
        config := config + [Comparison(id, prefix, RawPrefix + before, RawPrefix + after, "", PanFor(lookup, prefix))];
        id := id + 1;
      }
      i := i + 1;
    }
    assert befores[..i] == befores;
  }

  /** One more paired before-image appends its entry. */
  lemma EntriesSnoc(pairs: seq<string>, b: string, lookup: map<string, string>)
    ensures Entries(pairs + [b], lookup) == Entries(pairs, lookup) + [EntryFor(|pairs|, b, lookup)]
  {
  }

  /**
   * Every entry is numbered by its position, points at a listed
   * before-image and its listed partner, and has an empty description;
   * there are no more entries than before-images.
   */
  lemma ConfigEntriesArePairs(files: seq<string>, m: PriorManifest)
    ensures |Config(files, m)| == |Paired(files)| <= |Befores(files)| <= |files|
    ensures forall k :: 0 <= k < |Config(files, m)| ==>
      var b := Paired(files)[k];
      && b in files && IsBefore(b) && AfterName(b) in files
      && Config(files, m)[k] == Comparison(k + 1, Title(b), RawPrefix + b, RawPrefix + AfterName(b), "", PanFor(PanLookup(m), Title(b)))
  {
    var ps := Paired(files);
    forall k | 0 <= k < |ps| ensures ps[k] in files && IsBefore(ps[k]) && AfterName(ps[k]) in files {
      FilterMembership(Befores(files), PartnerListed(files), ps[k]);
      FilterMembership(files, IsBefore, ps[k]);
    }
  }

  /** Every listed before-image whose partner is listed gets an entry. */
  lemma EveryPairListed(files: seq<string>, m: PriorManifest, b: string)
    requires b in files && IsBefore(b) && AfterName(b) in files
    ensures exists k :: 0 <= k < |Config(files, m)| && Config(files, m)[k].before == RawPrefix + b
  {
    var keep := PartnerListed(files);
    FilterMembership(files, IsBefore, b);
    FilterMembership(Befores(files), keep, b);
    var ps := Paired(files);
    var k :| 0 <= k < |ps| && ps[k] == b;
    assert Config(files, m)[k].before == RawPrefix + b;
  }

  /** An entry's pan link is the one the earlier manifest recorded last for its title. */
  lemma PanLinkKept(files: seq<string>, k: nat, a: seq<PriorItem>, t: string, u: Option<string>, b: seq<PriorItem>)
    requires k < |Paired(files)| && Title(Paired(files)[k]) == t
    requires forall i :: 0 <= i < |a| ==> a[i].Item?
    requires forall i :: 0 <= i < |b| ==> b[i].Item? ==> b[i].title != t
    ensures k < |Config(files, Comparisons(a + [Item(t, u)] + b))|
    ensures Config(files, Comparisons(a + [Item(t, u)] + b))[k].title == t
    ensures Config(files, Comparisons(a + [Item(t, u)] + b))[k].panUrl == PanOf(u)
  {
    LastTitleWins(a, t, u, b);
  }

  /**
   * A pair whose title no item of the earlier comparison array carries is
   * new: its entry gets an empty pan link.
   */
  lemma NewPairHasNoPanLink(files: seq<string>, k: nat, items: seq<PriorItem>)
    requires k < |Paired(files)|
    requires forall i :: 0 <= i < |items| ==> items[i].Item? ==> items[i].title != Title(Paired(files)[k])
    ensures k < |Config(files, Comparisons(items))|
    ensures Config(files, Comparisons(items))[k].panUrl == ""
  {
    FoldKeepsOtherTitles(items, map[], Title(Paired(files)[k]));
  }

  /**
   * When the suffix first occurs at the end of the name, the title is the
   * name without it and the partner is the same title with the after
   * suffix.
   */
  lemma TitleStripsSuffix(title: string)
    requires forall i :: 0 <= i < |title| ==> !OccursAt(title + BeforeSuffix, BeforeSuffix, i)
    ensures Title(title + BeforeSuffix) == title
    ensures AfterName(title + BeforeSuffix) == title + AfterSuffix
  {
    var b := title + BeforeSuffix;
    assert OccursAt(b, BeforeSuffix, |title|);
    assert IndexOf(b, BeforeSuffix) == |title|;
    assert b[..|title|] == title;
    assert b[|title| + |BeforeSuffix|..] == [];
  }

  /**
   * `replace` removes the first occurrence, not the suffix: a name that
   * holds the suffix twice keeps the second one in its title.
   */
  lemma FirstOccurrenceIsRemoved(x: string, y: string)
    requires forall i :: 0 <= i < |x| ==> !OccursAt(x + BeforeSuffix + y, BeforeSuffix, i)
    ensures Title(x + BeforeSuffix + y) == x + y
  {
    var b := x + BeforeSuffix + y;
    assert OccursAt(b, BeforeSuffix, |x|);
    assert IndexOf(b, BeforeSuffix) == |x|;
    assert b[..|x|] == x;
    assert b[|x| + |BeforeSuffix|..] == y;
  }

  /** `filename && filename.endsWith('.jpg')`: None stands for a missing filename. */
  predicate TriggersRebuild(filename: Option<string>) {
    filename.Some? && EndsWith(filename.value, WatchedSuffix)
  }

  /**
   * Adding or removing either half of a pair triggers a rebuild, while
   * writing the manifest (raw-config.json, in the same directory) does not.
   */
  lemma PairFilesTrigger(title: string)
    ensures TriggersRebuild(Some(title + BeforeSuffix))
    ensures TriggersRebuild(Some(title + AfterSuffix))
    ensures !TriggersRebuild(Some("raw-config.json"))
  {
    var b, a := title + BeforeSuffix, title + AfterSuffix;
    assert b[|b| - |WatchedSuffix|..] == WatchedSuffix;
    assert a[|a| - |WatchedSuffix|..] == WatchedSuffix;
  }

  /** The earlier manifest as read back from a written one. */
  function ReadBack(config: seq<Comparison>): PriorManifest {
    Comparisons(seq(|config|, k requires 0 <= k < |config| => Item(config[k].title, Some(config[k].panUrl))))
  }

  /** Folding items whose pan link is a function of their title. */
  lemma {:induction false} FoldConsistent(items: seq<PriorItem>, acc: map<string, string>, pan: string -> string)
    requires forall i :: 0 <= i < |items| ==> items[i].Item? && PanOf(items[i].panUrl) == pan(items[i].title)
    requires forall t :: t in acc ==> acc[t] == pan(t)
    ensures forall t :: t in FoldItems(items, acc) ==> FoldItems(items, acc)[t] == pan(t)
    ensures forall i :: 0 <= i < |items| ==> items[i].title in FoldItems(items, acc)
    decreases |items|
  {
    if items != [] {
      var acc2 := acc[items[0].title := PanOf(items[0].panUrl)];
      FoldConsistent(items[1..], acc2, pan);
      forall i | 0 <= i < |items| ensures items[i].title in FoldItems(items, acc) {
        if i > 0 {
          assert items[i] == items[1..][i - 1];
        } else {
          FoldKeepsOtherTitlesOrSets(items[1..], acc2, items[0].title);
        }
      }
    }
  }

  /** A title present in the table stays present. */
  lemma {:induction false} FoldKeepsOtherTitlesOrSets(b: seq<PriorItem>, acc: map<string, string>, t: string)
    requires t in acc
    ensures t in FoldItems(b, acc)
    decreases |b|
  {
    if b != [] && b[0].Item? {
      FoldKeepsOtherTitlesOrSets(b[1..], acc[b[0].title := PanOf(b[0].panUrl)], t);
    }
  }

  /**
   * Rerunning on an unchanged directory, with the manifest this run wrote
   * as the earlier one, writes the same manifest: pan links survive.
   */
  lemma RebuildIsStable(files: seq<string>, m: PriorManifest)
    ensures Config(files, ReadBack(Config(files, m))) == Config(files, m)
  {
    var lookup := PanLookup(m);
    var config := Config(files, m);
    var items := ReadBack(config).items;
    var pan := (t: string) => PanFor(lookup, t);
    FoldConsistent(items, map[], pan);
    var lookup2 := PanLookup(ReadBack(config));
    var ps := Paired(files);
    forall k | 0 <= k < |ps| ensures EntryFor(k, ps[k], lookup2) == EntryFor(k, ps[k], lookup) {
      assert items[k].title == Title(ps[k]);
    }
  }

  /** The filter of a three-element list, element by element. */
  lemma FilterThree<T>(x: T, y: T, z: T, keep: T -> bool)
    ensures Filter([x, y, z], keep) ==
      (if keep(x) then [x] else []) + (if keep(y) then [y] else []) + (if keep(z) then [z] else [])
  {
    assert [x, y, z][..2] == [x, y];
    assert [x, y][..1] == [x];
    assert [x][..0] == [];
    assert Filter([x], keep) == (if keep(x) then [x] else []);
    assert Filter([x, y], keep) == Filter([x], keep) + (if keep(y) then [y] else []);
    assert Filter([x, y, z], keep) == Filter([x, y], keep) + (if keep(z) then [z] else []);
  }

  /** A title without an underscore cannot hold an earlier occurrence of the suffix. */
  lemma PlainTitleStripsSuffix(title: string)
    requires '_' !in title
    ensures Title(title + BeforeSuffix) == title
    ensures AfterName(title + BeforeSuffix) == title + AfterSuffix
  {
    forall i | 0 <= i < |title| ensures !OccursAt(title + BeforeSuffix, BeforeSuffix, i) {
      assert (title + BeforeSuffix)[i] == title[i];
    }
    TitleStripsSuffix(title);
  }

  /** A name ending in the after suffix is never taken for a before-image. */
  lemma AfterIsNotBefore(x: string)
    ensures !IsBefore(x + AfterSuffix)
  {
    var s := x + AfterSuffix;
    assert s[|x|] == '_';
    assert |s| >= |BeforeSuffix| ==> s[|s| - |BeforeSuffix|..][1] == s[|x|];
  }

  /** Two names that end in different suffixes of the same length are different. */
  lemma DifferentEndings(x: string, y: string)
    requires x != y
    ensures y + AfterSuffix != x + AfterSuffix
  {
    var a, b := y + AfterSuffix, x + AfterSuffix;
    if |x| == |y| {
      assert a[..|y|] == y && b[..|x|] == x;
    }
  }

  /**
   * A before-image without its partner is left out while its neighbours
   * are paired: with `x_before.jpg`, `x_after.jpg` and `y_before.jpg`
   * listed (say x = dog, y = cat), only x is written, as entry 1.
   */
  lemma UnpairedBeforeIsSkipped(x: string, y: string, m: PriorManifest)
    requires '_' !in x && '_' !in y && x != y
    ensures var config := Config([x + BeforeSuffix, x + AfterSuffix, y + BeforeSuffix], m);
      && |config| == 1
      && config[0].id == 1 && config[0].title == x
      && config[0].before == RawPrefix + (x + BeforeSuffix) && config[0].after == RawPrefix + (x + AfterSuffix)
  {
    PlainTitleStripsSuffix(x);
    PairedOfThree(x, y);
  }

  lemma BeforesOfThree(x: string, y: string)
    ensures Befores([x + BeforeSuffix, x + AfterSuffix, y + BeforeSuffix]) == [x + BeforeSuffix, y + BeforeSuffix]
  {
    var xb, xa, yb := x + BeforeSuffix, x + AfterSuffix, y + BeforeSuffix;
    AfterIsNotBefore(x);
    assert IsBefore(xb) && IsBefore(yb);
    FilterThree(xb, xa, yb, IsBefore);
  }

  lemma PairedOfThree(x: string, y: string)
    requires '_' !in x && '_' !in y && x != y
    ensures Paired([x + BeforeSuffix, x + AfterSuffix, y + BeforeSuffix]) == [x + BeforeSuffix]
  {
    var xb, xa, yb := x + BeforeSuffix, x + AfterSuffix, y + BeforeSuffix;
    var files := [xb, xa, yb];
    BeforesOfThree(x, y);
    PlainTitleStripsSuffix(x);
    PlainTitleStripsSuffix(y);
    var ya := y + AfterSuffix;
    assert AfterName(xb) == xa && AfterName(yb) == ya;
    AfterIsNotBefore(y);
    assert IsBefore(xb) && IsBefore(yb) && !IsBefore(ya);
    DifferentEndings(x, y);
    assert ya !in files;
    var keep := PartnerListed(files);
    assert keep(xb) && !keep(yb);
    FilterTwo(xb, yb, keep);
  }

  lemma FilterTwo<T>(x: T, y: T, keep: T -> bool)
    requires keep(x) && !keep(y)
    ensures Filter([x, y], keep) == [x]
  {
    assert [x, y][..1] == [x];
    assert [x][..0] == [];
    assert Filter([x], keep) == [x];
  }
}
