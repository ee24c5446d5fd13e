/**
 * The string handling of the batch driver (fg.js): the CSS name a glyph gets from its
 * file name, the font name derived from the configured name, the selection of `.svg`
 * entries from the icon folder's listing, and the font's descent.
 */
module Names {
  import opened Js

  // ----- glyph names -----

  /** The last component of a `/`-separated path. */
  function LastComponent(p: string): (r: string)
    ensures |r| <= |p| && r == p[|p| - |r|..]
    ensures '/' !in r
  {
    if p == [] || p[|p| - 1] == '/' then []
    else
      var r := LastComponent(p[..|p| - 1]) + [p[|p| - 1]];
      assert p[..|p| - 1][|p| - 1 - (|r| - 1)..] + [p[|p| - 1]] == p[|p| - |r|..];
      r
  }

  /** `s` ends with `suffix` and is longer than it. */
  predicate EndsWithStrictly(s: string, suffix: string) {
    |s| > |suffix| && s[|s| - |suffix|..] == suffix
  }

  /** `path.basename(file, '.svg')`: the last component, without a `.svg` ending. */
  function Basename(file: string): string {
    var b := LastComponent(file);
    if EndsWithStrictly(b, ".svg") then b[..|b| - 4] else b
  }

  /** `replace(/\s/g, '-')`: every whitespace character, one by one, becomes a dash. */
  function DashSpaces(s: string): string {
    seq(|s|, i requires 0 <= i < |s| => if IsSpace(s[i]) then '-' else s[i])
  }

  /**
   * The CSS name `createGlyph` gives the glyphs of `file`: the base name with whitespace
   * turned into dashes, then the first `---` and after that the first `--` each shortened
   * to one dash, then lower-cased.
   */
  function GlyphName(file: string): string {
    LowerAscii(ReplaceFirst(ReplaceFirst(DashSpaces(Basename(file)), "---", "-"), "--", "-"))
  }

  predicate NoSpace(s: string) {
    forall i :: 0 <= i < |s| ==> !IsSpace(s[i])
  }

  /** Replacing an occurrence by a string without whitespace keeps a string without whitespace. */
  lemma ReplaceFirstNoSpace(s: string, pat: string, rep: string)
    requires NoSpace(s) && NoSpace(rep)
    ensures NoSpace(ReplaceFirst(s, pat, rep))
  {
    match IndexOf(s, pat)
    case None =>
    case Some(i) =>
      var r := s[..i] + rep + s[i + |pat|..];
      forall k | 0 <= k < |r|
        ensures !IsSpace(r[k])
      {
        if k < i {
          assert r[k] == s[k];
        } else if k < i + |rep| {
          assert r[k] == rep[k - i];
        } else {
          assert r[k] == s[k - i - |rep| + i + |pat|];
        }
      }
  }

  /** A glyph name never holds whitespace, so it is usable as a CSS class suffix. */
  lemma GlyphNameNoSpace(file: string)
    ensures NoSpace(GlyphName(file))
  {
    var a := DashSpaces(Basename(file));
    DashesNoSpace(Basename(file));
    assert NoSpace("-");
    ReplaceFirstNoSpace(a, "---", "-");
    var once := ReplaceFirst(a, "---", "-");
    ReplaceFirstNoSpace(once, "--", "-");
    LowerNoSpace(ReplaceFirst(once, "--", "-"));
  }

  lemma DashesNoSpace(s: string)
    ensures NoSpace(DashSpaces(s))
  {
  }

  lemma LowerNoSpace(s: string)
    requires NoSpace(s)
    ensures NoSpace(LowerAscii(s))
  {
    forall i | 0 <= i < |s|
      ensures !IsSpace(LowerAscii(s)[i])
    {
      assert !IsSpace(s[i]);
    }
  }

  /** A glyph name never holds an upper-case ASCII letter. */
  lemma GlyphNameLowerCase(file: string)
    ensures forall i :: 0 <= i < |GlyphName(file)| ==> !IsUpperAscii(GlyphName(file)[i])
  {
  }

  /** The last component of `dir + name` is `name`, when `dir` is empty or ends in `/` and `name` holds no `/`. */
  lemma {:induction false} LastOfPath(dir: string, name: string)
    requires dir == [] || dir[|dir| - 1] == '/'
    requires forall k :: 0 <= k < |name| ==> name[k] != '/'
    ensures LastComponent(dir + name) == name
    decreases |name|
  {
    if name == [] {
      assert dir + name == dir;
    } else {
      var n := |name| - 1;
      var init := name[..n];
      assert forall k :: 0 <= k < |init| ==> init[k] != '/' by {
        forall k | 0 <= k < |init|
          ensures init[k] != '/'
        {
          assert init[k] == name[k];
        }
      }
      LastOfPath(dir, init);
      LastComponentSnoc(dir + init, name[n]);
      SplitLast(dir, name);
    }
  }

  lemma SplitLast(dir: string, name: string)
    requires name != []
    ensures (dir + name[..|name| - 1]) + [name[|name| - 1]] == dir + name
    ensures name[..|name| - 1] + [name[|name| - 1]] == name
  {
    var n := |name| - 1;
    assert forall k :: 0 <= k < |dir| + n ==> ((dir + name[..n]) + [name[n]])[k] == (dir + name)[k];
  }

  /** A character other than `/` extends the last component. */
  lemma LastComponentSnoc(q: string, c: char)
    requires c != '/'
    ensures LastComponent(q + [c]) == LastComponent(q) + [c]
  {
    assert (q + [c])[..|q|] == q;
  }

  /** A string without two adjacent dashes holds no `--` and no `---`. */
  lemma NoDashPairs(d: string)
    requires forall k :: 0 <= k < |d| - 1 ==> d[k] != '-' || d[k + 1] != '-'
    ensures forall j :: 0 <= j <= |d| ==> !OccursAt(d, "--", j) && !OccursAt(d, "---", j)
  {
    forall j | 0 <= j <= |d|
      ensures !OccursAt(d, "--", j) && !OccursAt(d, "---", j)
    {
      if j + 2 <= |d| {
        assert d[j..j + 2][0] == d[j] && d[j..j + 2][1] == d[j + 1];
      }
      if j + 3 <= |d| {
        assert d[j..j + 3][0] == d[j] && d[j..j + 3][1] == d[j + 1];
      }
    }
  }

  /** Lower-casing a string without upper-case ASCII letters changes nothing. */
  lemma LowerKeepsLower(s: string)
    requires forall i :: 0 <= i < |s| ==> !IsUpperAscii(s[i])
    ensures LowerAscii(s) == s
  {
  }

  /** The name `createGlyph` computes, given each of its intermediate values. */
  lemma GlyphNameSteps(file: string, base: string, dashed: string, once: string, twice: string)
    requires Basename(file) == base && DashSpaces(base) == dashed
    requires ReplaceFirst(dashed, "---", "-") == once && ReplaceFirst(once, "--", "-") == twice
    ensures GlyphName(file) == LowerAscii(twice)
  {
  }

  lemma SpacedIconBase(dir: string)
    requires dir == [] || dir[|dir| - 1] == '/'
    ensures Basename(dir + "a b.svg") == "a b"
  {
    var name := "a b.svg";
    assert forall k :: 0 <= k < |name| ==> name[k] != '/';
    LastOfPath(dir, name);
    assert name[3..] == ".svg" && name[..3] == "a b";
  }

  lemma SpacedIconDashes()
    ensures DashSpaces("a b") == "a-b"
    ensures ReplaceFirst("a-b", "---", "-") == "a-b"
    ensures ReplaceFirst("a-b", "--", "-") == "a-b"
    ensures LowerAscii("a-b") == "a-b"
  {
    NoDashPairs("a-b");
    LowerKeepsLower("a-b");
  }

  /** `"a b.svg"` in any folder gives `a-b`: the space becomes a dash. */
  lemma GlyphNameExample(dir: string)
    requires dir == [] || dir[|dir| - 1] == '/'
    ensures GlyphName(dir + "a b.svg") == "a-b"
  {
    SpacedIconBase(dir);
    SpacedIconDashes();
    GlyphNameSteps(dir + "a b.svg", "a b", "a-b", "a-b", "a-b");
  }

  lemma SpacedBase(dir: string)
    requires dir == [] || dir[|dir| - 1] == '/'
    ensures Basename(dir + "a - b - c.svg") == "a - b - c"
  {
    var f := "a - b - c.svg";
    SpacedFile();
    LastOfPath(dir, f);
  }

  lemma SpacedFile()
    ensures forall k :: 0 <= k < |"a - b - c.svg"| ==> "a - b - c.svg"[k] != '/'
    ensures "a - b - c.svg"[9..] == ".svg" && "a - b - c.svg"[..9] == "a - b - c"
  {
  }

  lemma SpacedDashes()
    ensures DashSpaces("a - b - c") == "a---b---c"
  {
  }

  lemma SpacedFirstReplace()
    ensures ReplaceFirst("a---b---c", "---", "-") == "a-b---c"
  {
    var d := "a---b---c";
    assert d[1..4] == "---" && d[0..3][0] == 'a';
    assert IndexOf(d, "---", 1) == Some(1);
    assert IndexOf(d, "---") == Some(1);
    assert d[..1] + "-" + d[4..] == "a-b---c";
  }

  lemma SpacedSecondReplace()
    ensures ReplaceFirst("a-b---c", "--", "-") == "a-b--c"
  {
    var e := "a-b---c";
    assert e[3..5] == "--" && e[2..4][0] == 'b' && e[1..3][1] == 'b' && e[0..2][0] == 'a';
    assert IndexOf(e, "--", 3) == Some(3);
    assert IndexOf(e, "--", 2) == Some(3);
    assert IndexOf(e, "--", 1) == Some(3);
    assert IndexOf(e, "--") == Some(3);
    assert e[..3] + "-" + e[5..] == "a-b--c";
  }

  /**
   * Only the first run is shortened: `"a - b - c.svg"` in any folder gives `a-b--c`,
   * the second ` - ` keeping two of its three dashes.
   */
  lemma OnlyFirstRunShortened(dir: string)
    requires dir == [] || dir[|dir| - 1] == '/'
    ensures GlyphName(dir + "a - b - c.svg") == "a-b--c"
  {
    LowerKeepsLower("a-b--c");
    SpacedBase(dir);
    SpacedDashes();
    SpacedFirstReplace();
    SpacedSecondReplace();
    GlyphNameSteps(dir + "a - b - c.svg", "a - b - c", "a---b---c", "a-b---c", "a-b--c");
  }

  // ----- font name -----

  /** The characters `[A-Za-z0-9\-_]` the font name may keep. */
  predicate IsFontChar(c: char) {
    ('A' <= c <= 'Z') || ('a' <= c <= 'z') || ('0' <= c <= '9') || c == '-' || c == '_'
  }

  /** The end of the run of characters outside the font set that starts at `i`. */
  function RunEnd(s: string, i: nat): (r: nat)
    requires i <= |s|
    ensures i <= r <= |s|
    ensures forall k :: i <= k < r ==> !IsFontChar(s[k])
    ensures r < |s| ==> IsFontChar(s[r])
    decreases |s| - i
  {
    if i < |s| && !IsFontChar(s[i]) then RunEnd(s, i + 1) else i
  }

  /** `replace(/[^A-Za-z0-9\-_]+/g, '-')`: every maximal run of other characters becomes one dash. */
  function CollapseRuns(s: string): string
    decreases |s|
  {
    if s == [] then []
    else if IsFontChar(s[0]) then [s[0]] + CollapseRuns(s[1..])
    else "-" + CollapseRuns(s[RunEnd(s, 1)..])
  }

  /** `String(cfg.name).replace(/[^A-Za-z0-9\-_]+/g, '-').toLowerCase()`. */
  function FontName(name: string): string {
    LowerAscii(CollapseRuns(name))
  }

  predicate AllFontChars(s: string) {
    forall i :: 0 <= i < |s| ==> IsFontChar(s[i])
  }

  /** The collapse keeps only font characters, never lengthens, and leaves clean names alone. */
  lemma {:induction false} CollapseRunsProperties(s: string)
    ensures AllFontChars(CollapseRuns(s))
    ensures |CollapseRuns(s)| <= |s|
    ensures AllFontChars(s) ==> CollapseRuns(s) == s
    decreases |s|
  {
    if s != [] {
      if IsFontChar(s[0]) {
        CollapseRunsProperties(s[1..]);
      } else {
        CollapseRunsProperties(s[RunEnd(s, 1)..]);
      }
    }
  }

  /**
   * The font name holds only lower-case letters, digits, `-` and `_`, is no longer than
   * the configured name, and naming a font by its own font name changes nothing.
   */
  lemma FontNameProperties(name: string)
    ensures forall i :: 0 <= i < |FontName(name)| ==>
              IsFontChar(FontName(name)[i]) && !IsUpperAscii(FontName(name)[i])
    ensures |FontName(name)| <= |name|
    ensures FontName(FontName(name)) == FontName(name)
  {
    CollapseRunsProperties(name);
    var f := FontName(name);
    assert AllFontChars(f);
    CollapseRunsProperties(f);
    assert LowerAscii(f) == f;
  }

  /** A name made of font characters only is just lower-cased. */
  lemma CleanNameLowerCased(name: string)
    requires AllFontChars(name)
    ensures FontName(name) == LowerAscii(name)
  {
    CollapseRunsProperties(name);
  }

  /** The default font name is kept. */
  lemma DefaultFontName()
    ensures FontName("untitled") == "untitled"
  {
    UntitledChars();
    CleanNameLowerCased("untitled");
    LowerKeepsLower("untitled");
  }

  lemma UntitledChars()
    ensures AllFontChars("untitled")
    ensures forall i :: 0 <= i < |"untitled"| ==> !IsUpperAscii("untitled"[i])
  {
  }

  /** A run of spaces becomes one dash: `"a  b"` gives `a-b`. */
  lemma SpacedFontName()
    ensures FontName("a  b") == "a-b"
  {
    var s := "a  b";
    var t := s[1..];
    assert t == "  b" && !IsFontChar(t[0]) && !IsFontChar(t[1]) && IsFontChar(t[2]);
    assert RunEnd(t, 1) == 2;
    assert t[2..] == "b";
    assert CollapseRuns("b") == "b" by {
      assert "b"[0] == 'b' && IsFontChar('b') && "b"[1..] == [];
    }
    assert CollapseRuns(t) == "-b";
    LowerKeepsLower("a-b");
  }

  // ----- the listing filter -----

  /** The index of the last `.` in `s`, if any. */
  function LastDot(s: string): (r: Option<nat>)
    ensures r.Some? ==> r.value < |s| && s[r.value] == '.' && forall k :: r.value < k < |s| ==> s[k] != '.'
    ensures r.None? ==> forall k :: 0 <= k < |s| ==> s[k] != '.'
  {
    if s == [] then None
    else if s[|s| - 1] == '.' then Some(|s| - 1)
    else LastDot(s[..|s| - 1])
  }

  /**
   * `path.extname(name)` for a directory entry (which never holds `/`): from the last
   * `.` to the end, except that a name whose last `.` is its first character, and the
   * name `..`, have none.
   */
  function Extname(name: string): string {
    match LastDot(name)
    case None => ""
    case Some(k) => if k == 0 || name == ".." then "" else name[k..]
  }

  /** `path.extname(name) === '.svg'` exactly when the name is longer than `.svg` and ends with it. */
  lemma ExtnameSvgIff(name: string)
    ensures Extname(name) == ".svg" <==> EndsWithStrictly(name, ".svg")
  {
    if EndsWithStrictly(name, ".svg") {
      var k := |name| - 4;
      assert name[k..] == ".svg";
      assert name[k] == '.' && name[k + 1] == 's' && name[k + 2] == 'v' && name[k + 3] == 'g';
      assert LastDot(name) == Some(k) by {
        var d := LastDot(name);
        if d.None? || d.value != k {
          assert false;
        }
      }
    }
    if Extname(name) == ".svg" {
      var k := LastDot(name).value;
      assert name[k..] == ".svg";
    }
  }

  /** An entry the listing filter keeps. */
  predicate IsSvgEntry(name: string) {
    Extname(name) == ".svg"
  }

  /** `path.join(svgFolderPath, name)`, the folder fixed. */
  type JoinPath = string -> string

  /**
   * The list `filterSvgFiles` builds from a listing, scanning left to right: a `.svg`
   * entry is appended, joined to the folder, unless the list already holds the entry
   * itself (the bare name, not the joined path).
   */
  function SvgFiles(listing: seq<string>, join: JoinPath): seq<string> {
    if listing == [] then []
    else
      var prev := SvgFiles(listing[..|listing| - 1], join);
      var name := listing[|listing| - 1];
      if IsSvgEntry(name) && name !in prev then prev + [join(name)] else prev
  }

  /**
   * `filterSvgFiles(svgFolderPath)` given the folder's listing. The `!files` guard is
   * left out here: a listing is an array, and an array is never falsy.
   */
  method FilterSvgFiles(listing: seq<string>, join: JoinPath) returns (r: seq<string>)
    ensures r == SvgFiles(listing, join)
  {
    r := [];
    var i := 0;
    while i < |listing|
      invariant 0 <= i <= |listing|
      invariant r == SvgFiles(listing[..i], join)
    {
      var name := listing[i];
      assert listing[..i + 1][..i] == listing[..i];
      if Extname(name) == ".svg" && name !in r {
        r := r + [join(name)];
      }
      i := i + 1;
    }
    assert listing[..i] == listing;
  }

  /** The `.svg` entries of a listing, in listing order. */
  function SvgEntries(listing: seq<string>): seq<string> {
    if listing == [] then []
    else SvgEntries(listing[..|listing| - 1]) + (if IsSvgEntry(listing[|listing| - 1]) then [listing[|listing| - 1]] else [])
  }

  function JoinAll(names: seq<string>, join: JoinPath): (r: seq<string>)
    ensures |r| == |names| && forall i :: 0 <= i < |names| ==> r[i] == join(names[i])
  {
    seq(|names|, i requires 0 <= i < |names| => join(names[i]))
  }

  /** Every file the filter returns is some entry of the listing joined to the folder. */
  lemma {:induction false} SvgFilesFromListing(listing: seq<string>, join: JoinPath)
    ensures forall f :: f in SvgFiles(listing, join) ==> exists i :: 0 <= i < |listing| && f == join(listing[i])
    decreases |listing|
  {
    if listing != [] {
      var n := |listing| - 1;
      var pre := listing[..n];
      SvgFilesFromListing(pre, join);
      forall f | f in SvgFiles(listing, join)
        ensures exists i :: 0 <= i < |listing| && f == join(listing[i])
      {
        if f in SvgFiles(pre, join) {
          var i :| 0 <= i < |pre| && f == join(pre[i]);
          assert listing[i] == pre[i];
        } else {
          assert f == join(listing[n]);
        }
      }
    }
  }

  /**
   * A directory listing has no duplicates, and no joined path equals another entry of
   * the listing; the duplicate check then never fires, and the result is every `.svg`
   * entry, in listing order, joined to the folder.
   */
  lemma {:induction false} SvgFilesAreJoinedEntries(listing: seq<string>, join: JoinPath)
    requires DistinctEntries(listing, join)
    ensures SvgFiles(listing, join) == JoinAll(SvgEntries(listing), join)
    decreases |listing|
  {
    if listing != [] {
      var n := |listing| - 1;
      var pre := listing[..n];
      DistinctPrefix(listing, join);
      SvgFilesAreJoinedEntries(pre, join);
      LastNotYetListed(listing, join);
      JoinAllSnoc(SvgEntries(pre), listing[n], join);
    }
  }

  /** No entry is listed twice, and no entry is the joined path of an earlier one. */
  predicate DistinctEntries(listing: seq<string>, join: JoinPath) {
    forall i, j :: 0 <= i < j < |listing| ==> listing[i] != listing[j] && join(listing[i]) != listing[j]
  }

  lemma DistinctPrefix(listing: seq<string>, join: JoinPath)
    requires listing != [] && DistinctEntries(listing, join)
    ensures DistinctEntries(listing[..|listing| - 1], join)
  {
    var pre := listing[..|listing| - 1];
    forall i, j | 0 <= i < j < |pre|
      ensures pre[i] != pre[j] && join(pre[i]) != pre[j]
    {
      assert pre[i] == listing[i] && pre[j] == listing[j];
    }
  }

  /** The duplicate check does not fire on the last entry of such a listing. */
  lemma LastNotYetListed(listing: seq<string>, join: JoinPath)
    requires listing != [] && DistinctEntries(listing, join)
    ensures listing[|listing| - 1] !in SvgFiles(listing[..|listing| - 1], join)
  {
    var n := |listing| - 1;
    var pre := listing[..n];
    SvgFilesFromListing(pre, join);
    if listing[n] in SvgFiles(pre, join) {
      assert false;
    }
  }

  lemma JoinAllSnoc(names: seq<string>, name: string, join: JoinPath)
    ensures JoinAll(names + [name], join) == JoinAll(names, join) + [join(name)]
  {
  }

  /** The listing filter as the source evidently intends it: an empty folder is an error. */
  function FilterSvgFilesChecked(folder: string, listing: seq<string>, join: JoinPath): (r: Result<seq<string>, string>)
    ensures r.Err? <==> listing == []
    ensures r.Err? ==> r.error == "Error! Svg folder is empty." + folder
    ensures r.Ok? ==> r.value == SvgFiles(listing, join)
    ensures r.Ok? && DistinctEntries(listing, join) ==> r.value == JoinAll(SvgEntries(listing), join)
  {
    JoinedWhenDistinct(listing, join);
    if listing == [] then Err("Error! Svg folder is empty." + folder) else Ok(SvgFiles(listing, join))
  }

  lemma JoinedWhenDistinct(listing: seq<string>, join: JoinPath)
    ensures DistinctEntries(listing, join) ==> SvgFiles(listing, join) == JoinAll(SvgEntries(listing), join)
  {
    if DistinctEntries(listing, join) {
      SvgFilesAreJoinedEntries(listing, join);
    }
  }

  /**
   * As written, the empty-folder error cannot be raised: an empty listing yields no
   * files and no error, where the checked filter reports the empty folder.
   */
  lemma EmptyFolderNotReported(folder: string, join: JoinPath)
    ensures SvgFiles([], join) == []
    ensures FilterSvgFilesChecked(folder, [], join).Err?
  {
  }

  // ----- font metrics -----

  /** The built-in configuration's `units_per_em` and `ascent`. */
  const DefaultUnitsPerEm: int := 960
  const DefaultAscent: int := 480

  /** `descent: cfg.ascent - cfg.units_per_em`. */
  function Descent(ascent: int, unitsPerEm: int): int {
    ascent - unitsPerEm
  }

  /** With the built-in configuration the em box spans 480 above and 480 below the baseline. */
  lemma DefaultMetrics()
    ensures Descent(DefaultAscent, DefaultUnitsPerEm) == -480
    ensures DefaultAscent == -Descent(DefaultAscent, DefaultUnitsPerEm)
  {
  }
}
