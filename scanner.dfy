/**
 * The gallery generator's image scanner (`scanImages`): a recursive walk of
 * the asset directory that keeps files whose lower-cased extension is in an
 * allow-list, skips directories whose name is in an exclude list, and turns
 * read and stat errors into "return what was collected so far".
 *
 * The file system is an input value: a directory is a listing of entries in
 * `readdirSync` order, each already classified the way `statSync` would.
 */
module Scanner {
  import opened Text
  import opened Paths

  const SupportedExtensions: seq<string> := [".jpg", ".jpeg", ".png", ".gif", ".webp"]
  const ExcludeDirs: seq<string> := ["__MACOSX", ".DS_Store", "node_modules"]

  /** One directory entry, as `statSync` reports it. */
  datatype Entry =
    | File(name: string, size: nat)
    | Dir(name: string, listing: Listing)
    | Other(name: string)          // neither a file nor a directory
    | StatFailure(name: string)    // statSync throws on this entry

  /** What `readdirSync` gives for a directory. */
  datatype Listing = Listed(entries: seq<Entry>) | Unreadable

  /**
   * An image record. `location` stands for `fullPath`: the directory names
   * below the scan root followed by the file name.
   */
  datatype ImageRecord = ImageRecord(name: string, path: string, location: seq<string>, size: nat)

  /** The file test: the lower-cased extension is one of the supported ones. */
  predicate IsImageFile(name: string) {
    Includes(SupportedExtensions, ToLower(Extname(name)))
  }

  /**
   * The file test ignores letter case: a name is an image exactly when its
   * lower-cased spelling is.
   */
  lemma ImageTestIgnoresCase(name: string)
    ensures IsImageFile(ToLower(name)) == IsImageFile(name)
  {
    ExtnameLowered(name);
    ToLowerIdempotent(Extname(name));
  }

  /** The lower-cased spellings of `.JPG` and `.Jpeg` are supported extensions. */
  lemma UpperCaseSpellingsSupported()
    ensures Includes(SupportedExtensions, ToLower(".JPG"))
    ensures Includes(SupportedExtensions, ToLower(".Jpeg"))
  {
    var jpg, jpeg := ToLower(".JPG"), ToLower(".Jpeg");
    assert jpg == ".jpg";
    assert jpeg == ".jpeg";
    assert SupportedExtensions[0] == ".jpg";
    assert SupportedExtensions[1..][0] == ".jpeg";
  }

  /**
   * Upper- and mixed-case extensions are accepted: for a plain file name
   * stem, `stem.JPG` and `stem.Jpeg` are images.
   */
  lemma UpperCaseExtensionIsImage(stem: string)
    requires stem != [] && '/' !in stem && '.' !in stem
    ensures IsImageFile(stem + ".JPG")
    ensures IsImageFile(stem + ".Jpeg")
  {
    UpperCaseSpellingsSupported();
    ExtnameOfDotted(stem, ".JPG");
    ExtnameOfDotted(stem, ".Jpeg");
  }

  /** The directory test: the name is one of the excluded ones. */
  predicate Excluded(name: string) {
    Includes(ExcludeDirs, name)
  }

  function Record(dirs: seq<string>, name: string, size: nat, sep: char): ImageRecord {
    ImageRecord(name, RelativePath(dirs + [name], sep), dirs + [name], size)
  }

  predicate Fails(e: Entry) {
    e.StatFailure?
  }

  /** What `scanImages` returns for a directory reached through `dirs`. */
  function Scan(l: Listing, dirs: seq<string>, sep: char): seq<ImageRecord>
    decreases l
  {
    match l
    case Unreadable => []
    case Listed(es) => ScanEntries(es, dirs, sep)
  }

  /** The loop over a listing: an entry whose stat fails ends the loop. */
  function ScanEntries(es: seq<Entry>, dirs: seq<string>, sep: char): seq<ImageRecord>
    decreases es
  {
    if es == [] || Fails(es[0]) then []
    else Contribution(es[0], dirs, sep) + ScanEntries(es[1..], dirs, sep)
  }

  /** What one entry adds when its stat succeeds. */
  function Contribution(e: Entry, dirs: seq<string>, sep: char): seq<ImageRecord>
    requires !Fails(e)
    decreases e
  {
    match e
    case Other(_) => []
    case File(n, size) => if IsImageFile(n) then [Record(dirs, n, size, sep)] else []
    case Dir(n, sub) => if Excluded(n) then [] else Scan(sub, dirs + [n], sep)
  }

  /**
   * A prefix of a listing without stat errors contributes its records ahead
   * of whatever the rest of the listing contributes.
   */
  lemma {:induction false} ScanEntriesAppend(a: seq<Entry>, b: seq<Entry>, dirs: seq<string>, sep: char)
    requires forall i :: 0 <= i < |a| ==> !Fails(a[i])
    ensures ScanEntries(a + b, dirs, sep) == ScanEntries(a, dirs, sep) + ScanEntries(b, dirs, sep)
    decreases |a|
  {
    if a == [] {
      assert a + b == b;
    } else {
      assert (a + b)[0] == a[0];
      assert (a + b)[1..] == a[1..] + b;
      ScanEntriesAppend(a[1..], b, dirs, sep);
    }
  }

  /**
   * A stat error on an entry leaves the records collected before it and
   * nothing else for that directory: the scan does not fail.
   */
  lemma StatFailureKeepsCollected(a: seq<Entry>, bad: string, b: seq<Entry>, dirs: seq<string>, sep: char)
    requires forall i :: 0 <= i < |a| ==> !Fails(a[i])
    ensures ScanEntries(a + [StatFailure(bad)] + b, dirs, sep) == ScanEntries(a, dirs, sep)
  {
    assert a + [StatFailure(bad)] + b == a + ([StatFailure(bad)] + b);
    ScanEntriesAppend(a, [StatFailure(bad)] + b, dirs, sep);
  }

  /** An excluded directory contributes nothing, whatever it contains. */
  lemma ExcludedDirContributesNothing(a: seq<Entry>, n: string, sub: Listing, b: seq<Entry>, dirs: seq<string>, sep: char)
    requires forall i :: 0 <= i < |a| ==> !Fails(a[i])
    requires Excluded(n)
    ensures ScanEntries(a + [Dir(n, sub)] + b, dirs, sep) == ScanEntries(a + b, dirs, sep)
  {
    var d := Dir(n, sub);
    assert ScanEntries(a + [d] + b, dirs, sep) == ScanEntries(a, dirs, sep) + ScanEntries([d] + b, dirs, sep) by {
      assert a + [d] + b == a + ([d] + b);
      ScanEntriesAppend(a, [d] + b, dirs, sep);
    }
    assert ScanEntries([d] + b, dirs, sep) == ScanEntries(b, dirs, sep) by {
      ScanEntriesCons(d, b, dirs, sep);
      assert Contribution(d, dirs, sep) == [];
    }
    ScanEntriesAppend(a, b, dirs, sep);
  }

  /** A listing whose first entry is stat-ed successfully: its contribution, then the rest. */
  lemma ScanEntriesCons(e: Entry, b: seq<Entry>, dirs: seq<string>, sep: char)
    requires !Fails(e)
    ensures ScanEntries([e] + b, dirs, sep) == Contribution(e, dirs, sep) + ScanEntries(b, dirs, sep)
  {
    assert ([e] + b)[0] == e;
    assert ([e] + b)[1..] == b;
  }

  /** A file on its own becomes a record exactly when its extension is allowed. */
  lemma FileBecomesRecordIff(n: string, size: nat, dirs: seq<string>, sep: char)
    ensures |Scan(Listed([File(n, size)]), dirs, sep)| == (if IsImageFile(n) then 1 else 0)
    ensures IsImageFile(n) ==> Scan(Listed([File(n, size)]), dirs, sep) == [Record(dirs, n, size, sep)]
  {
    var es := [File(n, size)];
    assert es[1..] == [];
    assert ScanEntries(es, dirs, sep) == Contribution(es[0], dirs, sep) + ScanEntries([], dirs, sep);
  }

  /** The shape every record of a scan has. */
  ghost predicate WellFormed(r: ImageRecord, dirs: seq<string>, sep: char) {
    && IsImageFile(r.name)
    && '\\' !in r.path
    && |r.location| > |dirs|
    && r.location[..|dirs|] == dirs
    && r.location[|r.location| - 1] == r.name
    && r.path == RelativePath(r.location, sep)
    && (forall j :: |dirs| <= j < |r.location| - 1 ==> !Excluded(r.location[j]))
  }

  /**
   * Every record has an allowed extension, a path without backslashes that
   * spells its location, and no excluded directory on the way down.
   */
  lemma {:induction false} ScanWellFormed(l: Listing, dirs: seq<string>, sep: char)
    ensures forall r :: r in Scan(l, dirs, sep) ==> WellFormed(r, dirs, sep)
    decreases l, 1
  {
    match l
    case Unreadable =>
    case Listed(es) => ScanEntriesWellFormed(es, dirs, sep);
  }

  lemma {:induction false} ScanEntriesWellFormed(es: seq<Entry>, dirs: seq<string>, sep: char)
    ensures forall r :: r in ScanEntries(es, dirs, sep) ==> WellFormed(r, dirs, sep)
    decreases es, 0
  {
    if es != [] && !Fails(es[0]) {
      ScanEntriesWellFormed(es[1..], dirs, sep);
      ContributionWellFormed(es[0], dirs, sep);
    }
  }

  lemma {:induction false} ContributionWellFormed(e: Entry, dirs: seq<string>, sep: char)
    requires !Fails(e)
    ensures forall r :: r in Contribution(e, dirs, sep) ==> WellFormed(r, dirs, sep)
    decreases e, 2
  {
    match e
    case Other(_) =>
    case File(n, size) =>
      var rec := Record(dirs, n, size, sep);
      assert rec.location[..|dirs|] == dirs;
    case Dir(n, sub) =>
      if !Excluded(n) {
        var down := dirs + [n];
        ScanWellFormed(sub, down, sep);
        forall r | r in Scan(sub, down, sep) ensures WellFormed(r, dirs, sep) {
          DeeperWellFormed(r, dirs, n, sep);
        }
      }
  }

  lemma DeeperWellFormed(r: ImageRecord, dirs: seq<string>, n: string, sep: char)
    requires !Excluded(n)
    requires WellFormed(r, dirs + [n], sep)
    ensures WellFormed(r, dirs, sep)
  {
    var down := dirs + [n];
    assert r.location[..|dirs|] == dirs by {
      assert r.location[..|dirs|] == r.location[..|down|][..|dirs|];
    }
    assert r.location[|dirs|] == n by {
      assert r.location[|dirs|] == r.location[..|down|][|dirs|];
    }
    assert forall j :: |dirs| <= j < |r.location| - 1 ==> !Excluded(r.location[j]) by {
      forall j | |dirs| <= j < |r.location| - 1 ensures !Excluded(r.location[j]) {
        if j > |dirs| {
          assert |down| <= j;
        }
      }
    }
  }

  /**
   * The reference definition of "an image the scan must find": the file at
   * `path` (the directory names below this listing, then the file name) has
   * an allowed extension and the given size, and at every level the entry on
   * the way is reached: it and every entry listed before it are stat-ed
   * successfully, and a directory on the way is listed and not excluded.
   */
  ghost predicate Present(l: Listing, path: seq<string>, size: nat)
    decreases l
  {
    l.Listed? && exists i :: 0 <= i < |l.entries| && Reached(l.entries, i) && PresentIn(l.entries[i], path, size)
  }

  /** The loop over a listing gets as far as entry i. */
  predicate Reached(es: seq<Entry>, i: nat)
    requires i < |es|
  {
    forall j :: 0 <= j <= i ==> !Fails(es[j])
  }

  ghost predicate PresentIn(e: Entry, path: seq<string>, size: nat)
    decreases e
  {
    match e
    case File(n, sz) => path == [n] && sz == size && IsImageFile(n)
    case Dir(n, sub) => |path| > 1 && path[0] == n && !Excluded(n) && Present(sub, path[1..], size)
    case _ => false
  }

  /** The record of the file at `path` below `dirs`. */
  function RecordAt(dirs: seq<string>, path: seq<string>, size: nat, sep: char): ImageRecord
    requires |path| > 0
  {
    Record(dirs + path[..|path| - 1], path[|path| - 1], size, sep)
  }

  /** Going down into directory `n` moves `n` from the path to the directories above. */
  lemma RecordAtStep(dirs: seq<string>, path: seq<string>, size: nat, sep: char)
    requires |path| > 1
    ensures RecordAt(dirs + [path[0]], path[1..], size, sep) == RecordAt(dirs, path, size, sep)
  {
    assert (dirs + [path[0]]) + path[1..][..|path| - 2] == dirs + path[..|path| - 1];
  }

  /** A reached entry's records sit between those of the entries around it. */
  lemma ContributionInScan(es: seq<Entry>, i: nat, dirs: seq<string>, sep: char)
    requires i < |es| && Reached(es, i)
    ensures ScanEntries(es, dirs, sep) == ScanEntries(es[..i], dirs, sep) + Contribution(es[i], dirs, sep) + ScanEntries(es[i + 1..], dirs, sep)
  {
    assert es == es[..i] + ([es[i]] + es[i + 1..]);
    ScanEntriesAppend(es[..i], [es[i]] + es[i + 1..], dirs, sep);
    ScanEntriesCons(es[i], es[i + 1..], dirs, sep);
  }

  /** Every image present in the tree is found: present implies found. */
  lemma {:induction false} PresentIsFound(l: Listing, dirs: seq<string>, path: seq<string>, size: nat, sep: char)
    requires Present(l, path, size)
    ensures |path| > 0 && RecordAt(dirs, path, size, sep) in Scan(l, dirs, sep)
    decreases l
  {
    var es := l.entries;
    var i :| 0 <= i < |es| && Reached(es, i) && PresentIn(es[i], path, size);
    ContributionInScan(es, i, dirs, sep);
    match es[i]
    case File(n, sz) =>
      assert dirs + path[..0] == dirs;
      assert RecordAt(dirs, path, size, sep) == Record(dirs, n, size, sep);
    case Dir(n, sub) =>
      assert es[i].listing < es[i];
      PresentIsFound(sub, dirs + [n], path[1..], size, sep);
      RecordAtStep(dirs, path, size, sep);
  }

  /** A record of a listing comes from one reached entry. */
  lemma {:induction false} FoundInReachedEntry(es: seq<Entry>, dirs: seq<string>, sep: char, r: ImageRecord)
    requires r in ScanEntries(es, dirs, sep)
    ensures exists i :: 0 <= i < |es| && Reached(es, i) && r in Contribution(es[i], dirs, sep)
    decreases |es|
  {
    assert es != [] && !Fails(es[0]);
    if r in Contribution(es[0], dirs, sep) {
      assert Reached(es, 0);
    } else {
      FoundInReachedEntry(es[1..], dirs, sep, r);
      var i :| 0 <= i < |es[1..]| && Reached(es[1..], i) && r in Contribution(es[1..][i], dirs, sep);
      assert Reached(es, i + 1) by {
        forall j | 0 <= j <= i + 1 ensures !Fails(es[j]) {
          if j > 0 {
            assert es[j] == es[1..][j - 1];
          }
        }
      }
      assert es[i + 1] == es[1..][i];
    }
  }

  /**
   * Every record found is the record of an image present in the tree:
   * found implies present.
   */
  lemma {:induction false} FoundIsPresent(l: Listing, dirs: seq<string>, sep: char, r: ImageRecord)
    requires r in Scan(l, dirs, sep)
    ensures |r.location| > |dirs| && r.location[..|dirs|] == dirs
    ensures r == RecordAt(dirs, r.location[|dirs|..], r.size, sep)
    ensures Present(l, r.location[|dirs|..], r.size)
    decreases l, 1
  {
    var es := l.entries;
    FoundInReachedEntry(es, dirs, sep, r);
    var i :| 0 <= i < |es| && Reached(es, i) && r in Contribution(es[i], dirs, sep);
    FoundInEntryIsPresent(es[i], dirs, sep, r);
  }

  /** The same for the records one entry contributes. */
  lemma {:induction false} FoundInEntryIsPresent(e: Entry, dirs: seq<string>, sep: char, r: ImageRecord)
    requires !Fails(e) && r in Contribution(e, dirs, sep)
    ensures |r.location| > |dirs| && r.location[..|dirs|] == dirs
    ensures r == RecordAt(dirs, r.location[|dirs|..], r.size, sep)
    ensures PresentIn(e, r.location[|dirs|..], r.size)
    decreases e, 0
  {
    match e
    case File(n, sz) =>
      assert r == Record(dirs, n, sz, sep);
      var path := r.location[|dirs|..];
      assert path == [n];
      assert dirs + path[..0] == dirs;
    case Dir(n, sub) =>
      var down := dirs + [n];
      FoundIsPresent(sub, down, sep, r);
      var rest := r.location[|down|..];
      assert r.location == down + rest by {
        assert r.location == r.location[..|down|] + rest;
      }
      assert r.location[..|dirs|] == dirs;
      var path := r.location[|dirs|..];
      assert path == [n] + rest;
      assert path[1..] == rest;
      RecordAtStep(dirs, path, r.size, sep);
  }

  /**
   * The scan finds exactly the images present in the tree: a path and size
   * give a record of the scan if and only if that image is present, and
   * every record of the scan is such a record.
   */
  lemma ScanIsExactlyPresent(l: Listing, dirs: seq<string>, sep: char)
    ensures forall path, size :: |path| > 0 ==>
      (RecordAt(dirs, path, size, sep) in Scan(l, dirs, sep) <==> Present(l, path, size))
    ensures forall r :: r in Scan(l, dirs, sep) ==>
      |r.location| > |dirs| && r == RecordAt(dirs, r.location[|dirs|..], r.size, sep)
  {
    forall path, size | |path| > 0
      ensures RecordAt(dirs, path, size, sep) in Scan(l, dirs, sep) <==> Present(l, path, size)
    {
      if Present(l, path, size) {
        PresentIsFound(l, dirs, path, size, sep);
      }
      var rec := RecordAt(dirs, path, size, sep);
      if rec in Scan(l, dirs, sep) {
        FoundIsPresent(l, dirs, sep, rec);
        assert rec.location == dirs + path;
        assert rec.location[|dirs|..] == path;
      }
    }
    forall r | r in Scan(l, dirs, sep)
      ensures |r.location| > |dirs| && r == RecordAt(dirs, r.location[|dirs|..], r.size, sep)
    {
      FoundIsPresent(l, dirs, sep, r);
    }
  }

  /** One more successfully stat-ed entry appends its contribution. */
  lemma ScanEntriesStep(es: seq<Entry>, i: nat, dirs: seq<string>, sep: char)
    requires i < |es| && !Fails(es[i])
    requires forall j :: 0 <= j < i ==> !Fails(es[j])
    ensures ScanEntries(es[..i + 1], dirs, sep) == ScanEntries(es[..i], dirs, sep) + Contribution(es[i], dirs, sep)
  {
    assert es[..i + 1] == es[..i] + [es[i]];
    ScanEntriesAppend(es[..i], [es[i]], dirs, sep);
    ScanEntriesCons(es[i], [], dirs, sep);
    assert [es[i]] + [] == [es[i]];
  }

  /**
   * scanImages: a read error yields nothing; otherwise the loop over the
   * listing, recursing into sub-directories.
   */
  method ScanImages(l: Listing, dirs: seq<string>, sep: char) returns (images: seq<ImageRecord>)
    ensures images == Scan(l, dirs, sep)
    decreases l, 1
  {
    match l
    case Unreadable =>
      images := [];
    case Listed(es) =>
      images := ScanListing(es, dirs, sep);
  }

  /**
   * The loop of scanImages over one listing: a stat error ends it with the
   * records collected so far.
   */
  method ScanListing(es: seq<Entry>, dirs: seq<string>, sep: char) returns (images: seq<ImageRecord>)
    ensures images == ScanEntries(es, dirs, sep)
    decreases es, 0
  {
    images := [];
    var i := 0;
    while i < |es|
      invariant 0 <= i <= |es|
      invariant forall j :: 0 <= j < i ==> !Fails(es[j])
      invariant images == ScanEntries(es[..i], dirs, sep)
    {
      var e := es[i];
      if e.StatFailure? {
        assert images == ScanEntries(es, dirs, sep) by {
          StatFailureKeepsCollected(es[..i], e.name, es[i + 1..], dirs, sep);
          assert es == es[..i] + [StatFailure(e.name)] + es[i + 1..];
        }
        return;
      }
      assert forall j :: 0 <= j < i + 1 ==> !Fails(es[j]);
      var more := ScanEntry(e, dirs, sep);
      assert images + more == ScanEntries(es[..i + 1], dirs, sep) by {
        ScanEntriesStep(es, i, dirs, sep);
      }
      images := images + more;
      i := i + 1;
    }
    assert es[..i] == es;
  }

  /** The body of the loop for one entry whose stat succeeded. */
  method ScanEntry(e: Entry, dirs: seq<string>, sep: char) returns (more: seq<ImageRecord>)
    requires !Fails(e)
    ensures more == Contribution(e, dirs, sep)
    decreases e, 2
  {
    more := [];
    if e.Dir? && !Excluded(e.name) {
      assert e.listing < e;
      more := ScanImages(e.listing, dirs + [e.name], sep);
    } else if e.File? && IsImageFile(e.name) {
      more := [Record(dirs, e.name, e.size, sep)];
    }
  }
}
