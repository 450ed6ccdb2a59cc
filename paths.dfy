/**
 * The parts of Node's `path` module the scripts use: `extname`, `basename`
 * with an extension argument, and the relative path `path.relative` yields
 * for a file below the scan root, followed by the scanner's `\` to `/`
 * normalisation. Only POSIX semantics are modelled: `/` separates segments.
 */
module Paths {
  import opened Text

  /** Position of the last `c` in `s`, or -1. */
  function LastIndexOf(s: string, c: char): (r: int)
    ensures -1 <= r < |s|
  {
    LastIndexBefore(s, c, |s|)
  }

  /** Position of the last `c` among the first n characters of `s`, or -1. */
  function LastIndexBefore(s: string, c: char, n: nat): (r: int)
    requires n <= |s|
    ensures -1 <= r < n
    decreases n
  {
    if n == 0 then -1
    else if s[n - 1] == c then n - 1
    else LastIndexBefore(s, c, n - 1)
  }

  /** The result is the last occurrence of `c`, or -1 exactly when there is none. */
  lemma LastIndexOfIsLast(s: string, c: char)
    ensures var r := LastIndexOf(s, c);
      && (r >= 0 ==> s[r] == c && forall i :: r < i < |s| ==> s[i] != c)
      && (r == -1 <==> c !in s)
  {
    LastIndexBeforeIsLast(s, c, |s|);
  }

  lemma {:induction false} LastIndexBeforeIsLast(s: string, c: char, n: nat)
    requires n <= |s|
    ensures var r := LastIndexBefore(s, c, n);
      && (r >= 0 ==> s[r] == c && forall i :: r < i < n ==> s[i] != c)
      && (r == -1 <==> forall i :: 0 <= i < n ==> s[i] != c)
    decreases n
  {
    if n > 0 && s[n - 1] != c {
      LastIndexBeforeIsLast(s, c, n - 1);
    }
  }

  /** The last `/`-separated segment of a path (a bare file name is its own segment). */
  function BaseName(p: string): string {
    p[LastIndexOf(p, '/') + 1..]
  }

  /** The last segment holds no `/` and ends the path. */
  lemma BaseNameIsLastSegment(p: string)
    ensures '/' !in BaseName(p)
    ensures EndsWith(p, BaseName(p))
  {
    LastIndexOfIsLast(p, '/');
  }

  /**
   * Node's extname on one segment: from the last '.' to the end, or "" when
   * there is no '.', when the only dot opens the name (".profile"), or for "..".
   */
  function ExtOfName(name: string): string {
    var d := LastIndexOf(name, '.');
    // d == 1 on a two-character name starting with '.' is the name ".."
    if d <= 0 || (d == 1 && |name| == 2 && name[0] == '.') then "" else name[d..]
  }

  /** path.extname */
  function Extname(p: string): string {
    ExtOfName(BaseName(p))
  }

  /**
   * The extension is empty, or a dot followed by no other dot; it holds no
   * `/`, ends the path, and is shorter than the last segment.
   */
  lemma ExtnameShape(p: string)
    ensures var e := Extname(p);
      && (e == "" || (e[0] == '.' && '.' !in e[1..] && |e| < |BaseName(p)|))
      && '/' !in e
      && EndsWith(BaseName(p), e)
      && EndsWith(p, e)
  {
    var base := BaseName(p);
    BaseNameIsLastSegment(p);
    LastIndexOfIsLast(base, '.');
    var e := Extname(p);
    if e != "" {
      var d := LastIndexOf(base, '.');
      assert e == base[d..];
      assert forall i :: 0 <= i < |e| - 1 ==> e[1..][i] == base[d + 1 + i];
    }
  }

  /** The empty path has no extension. */
  lemma ExtnameOfEmpty()
    ensures Extname("") == ""
  {
  }

  /** A plain name `stem` + `ext`, where `ext` is a dot and no other dot, has the extension `ext`. */
  lemma ExtnameOfDotted(stem: string, ext: string)
    requires stem != [] && '/' !in stem && '.' !in stem
    requires |ext| > 0 && ext[0] == '.' && '.' !in ext[1..] && '/' !in ext
    ensures Extname(stem + ext) == ext
  {
    var p := stem + ext;
    assert forall i :: 0 <= i < |p| ==> p[i] == (if i < |stem| then stem[i] else ext[i - |stem|]);
    assert forall i :: 1 <= i < |ext| ==> ext[i] == ext[1..][i - 1];
    assert BaseName(p) == p by {
      LastIndexOfIsLast(p, '/');
    }
    assert LastIndexOf(p, '.') == |stem| by {
      LastIndexOfIsLast(p, '.');
    }
    assert p[|stem|..] == ext;
  }

  /**
   * Lowering a path moves no character that is not a letter, so the last
   * `/` and the last `.` stay where they were.
   */
  lemma {:induction false} LastIndexBeforeLowered(s: string, c: char, n: nat)
    requires n <= |s|
    requires !IsUpper(c) && !('a' <= c <= 'z')
    ensures LastIndexBefore(ToLower(s), c, n) == LastIndexBefore(s, c, n)
    decreases n
  {
    if n > 0 {
      var low := ToLower(s);
      assert low[n - 1] == c <==> s[n - 1] == c;
      if s[n - 1] != c {
        LastIndexBeforeLowered(s, c, n - 1);
      }
    }
  }

  /** Lowering commutes with taking a suffix. */
  lemma LoweredSuffix(s: string, k: nat)
    requires k <= |s|
    ensures ToLower(s)[k..] == ToLower(s[k..])
  {
    assert forall i :: 0 <= i < |s| - k ==> ToLower(s)[k..][i] == ToLower(s)[k + i];
  }

  /** The last segment of a lowered path is the lowered last segment. */
  lemma BaseNameLowered(p: string)
    ensures BaseName(ToLower(p)) == ToLower(BaseName(p))
  {
    LastIndexBeforeLowered(p, '/', |p|);
    LoweredSuffix(p, LastIndexOf(p, '/') + 1);
  }

  /** The extension of a lowered segment is the lowered extension. */
  lemma ExtOfNameLowered(name: string)
    ensures ExtOfName(ToLower(name)) == ToLower(ExtOfName(name))
  {
    LastIndexBeforeLowered(name, '.', |name|);
    var d := LastIndexOf(name, '.');
    if |name| > 0 {
      assert ToLower(name)[0] == '.' <==> name[0] == '.';
    }
    if d >= 0 {
      LoweredSuffix(name, d);
    }
  }

  /** The extension of a lowered path is the lowered extension. */
  lemma ExtnameLowered(p: string)
    ensures Extname(ToLower(p)) == ToLower(Extname(p))
  {
    BaseNameLowered(p);
    ExtOfNameLowered(BaseName(p));
  }

  /**
   * `path.basename(name, path.extname(name))`, the alt text of an image:
   * the last segment with its extension removed.
   */
  function AltText(name: string): (r: string)
    ensures r + Extname(name) == BaseName(name)
    ensures Extname(name) != "" ==> |r| >= 1
  {
    ExtnameShape(name);
    var base := BaseName(name);
    base[..|base| - |Extname(name)|]
  }

  /** The scanner's `replace(/\\/g, '/')`. */
  function NormalizeSlashes(s: string): (r: string)
    ensures '\\' !in r
  {
    ReplaceChar(s, '\\', '/')
  }

  /**
   * The recorded `path` of a file: `path.relative(root, fullPath)` joins the
   * directory names below the root and the file name with the platform
   * separator `sep`; the scanner then turns every `\` into `/`.
   */
  function RelativePath(segments: seq<string>, sep: char): (r: string)
    ensures '\\' !in r
  {
    NormalizeSlashes(Join(segments, [sep]))
  }

  /** The same path spelled with '/' between normalised segments. */
  function SlashPath(segments: seq<string>): string {
    Join(seq(|segments|, i requires 0 <= i < |segments| => NormalizeSlashes(segments[i])), "/")
  }

  lemma NormalizeAppend(a: string, b: string)
    ensures NormalizeSlashes(a + b) == NormalizeSlashes(a) + NormalizeSlashes(b)
  {
    var l, r := NormalizeSlashes(a + b), NormalizeSlashes(a) + NormalizeSlashes(b);
    assert forall i :: 0 <= i < |l| ==> l[i] == r[i];
  }

  /**
   * Whichever separator the platform uses, `/` or `\`, the recorded path is
   * the same: the segments joined by `/`.
   */
  lemma {:induction false} PathIndependentOfSeparator(segments: seq<string>, sep: char)
    requires sep == '/' || sep == '\\'
    ensures RelativePath(segments, sep) == SlashPath(segments)
    decreases |segments|
  {
    var norm := seq(|segments|, i requires 0 <= i < |segments| => NormalizeSlashes(segments[i]));
    if |segments| > 1 {
      var tail := segments[1..];
      var normTail := seq(|tail|, i requires 0 <= i < |tail| => NormalizeSlashes(tail[i]));
      assert norm[1..] == normTail;
      PathIndependentOfSeparator(tail, sep);
      NormalizeAppend(segments[0] + [sep], Join(tail, [sep]));
      NormalizeAppend(segments[0], [sep]);
      assert NormalizeSlashes([sep]) == "/";
    }
  }
}
