/**
 * The glyph batch (fg.js): `createGlyph` turns each layer of each icon file into a glyph
 * record with the next code point from 0xE800, and `collectGlyphsInfo` later turns the
 * selected custom glyphs into the records handed to the font builder, sorted by code.
 * The path library's stage-1 normalisation (`translate(-x, -y).scale(1000 / height)
 * .abs().round(0)`) and stage-2 font-space transform are the parameters `norm`, `fs`
 * and `segs`; reading and parsing the files gives the documents `docs`.
 */
module GlyphBatch {
  import opened Js
  import opened Dom
  import opened FlattenWalk
  import opened Viewport
  import opened SvgSplit
  import opened Names

  /** The first code point handed out (`allocatedRefCode`'s initial value). */
  const FirstCode: int := 0xE800
  const CustomIcons: string := "custom_icons"
  /** The two colours every icon is split by. */
  const AllowedColors: seq<string> := ["#515151", "#ff8000"]
  /** Every glyph is recorded 1000 units wide. */
  const GlyphWidth: int := 1000

  /** A glyph record: `{css, code, src, index, selected, svg: {path, width}}`. */
  datatype Glyph = Glyph(css: string, code: int, src: string, index: nat, selected: bool, path: string, width: int)

  /** `new SvgPath(d).translate(-x, -y).scale(1000 / height).abs().round(0).toString()`. */
  type NormalizePath = (string, Num, Num, Num) -> string

  function NormPath(l: Layer, norm: NormalizePath): string {
    norm(l.d, l.x, l.y, l.height)
  }

  /**
   * The glyphs the layers of one file add, codes counted from `start`: one per layer
   * whose normalised path is not empty, in layer order, remembering the layer's index.
   */
  function LayerGlyphs(name: string, layers: seq<Layer>, start: int, norm: NormalizePath): seq<Glyph> {
    if layers == [] then []
    else
      var prev := LayerGlyphs(name, layers[..|layers| - 1], start, norm);
      var p := NormPath(layers[|layers| - 1], norm);
      if p == "" then prev
      else prev + [Glyph(name, start + |prev|, CustomIcons, |layers| - 1, true, p, GlyphWidth)]
  }

  /** A record as `createGlyph` makes it, holding the code `code`. */
  predicate WellAllocated(g: Glyph, code: int) {
    g.code == code && g.src == CustomIcons && g.selected && g.width == GlyphWidth && g.path != ""
  }

  /** The records of `gs` hold consecutive codes from `start`. */
  predicate AllocatedFrom(gs: seq<Glyph>, start: int) {
    forall i :: 0 <= i < |gs| ==> WellAllocated(gs[i], start + i)
  }

  /**
   * Every glyph added is a selected custom glyph of width 1000 named after the file,
   * with consecutive codes from `start`, carrying the non-empty normalised path of the
   * layer it remembers; there are never more glyphs than layers.
   */
  lemma {:induction false} LayerGlyphsShape(name: string, layers: seq<Layer>, start: int, norm: NormalizePath)
    ensures var r := LayerGlyphs(name, layers, start, norm);
            && |r| <= |layers|
            && (forall k :: 0 <= k < |r| ==>
                  && r[k].code == start + k && r[k].css == name && r[k].src == CustomIcons && r[k].selected
                  && r[k].width == GlyphWidth && r[k].index < |layers|
                  && r[k].path == NormPath(layers[r[k].index], norm) && r[k].path != "")
    decreases |layers|
  {
    if layers != [] {
      var pre := layers[..|layers| - 1];
      LayerGlyphsShape(name, pre, start, norm);
      var prev := LayerGlyphs(name, pre, start, norm);
      assert forall k :: 0 <= k < |prev| ==> layers[prev[k].index] == pre[prev[k].index];
    }
  }

  /** The glyphs follow the layer order. */
  lemma {:induction false} LayerGlyphsOrdered(name: string, layers: seq<Layer>, start: int, norm: NormalizePath)
    ensures var r := LayerGlyphs(name, layers, start, norm);
            forall k, m :: 0 <= k < m < |r| ==> r[k].index < r[m].index
    decreases |layers|
  {
    if layers != [] {
      var pre := layers[..|layers| - 1];
      LayerGlyphsOrdered(name, pre, start, norm);
      LayerGlyphsShape(name, pre, start, norm);
    }
  }

  /** Some glyph of `gs` remembers layer `i`. */
  predicate HasGlyphFor(gs: seq<Glyph>, i: int) {
    exists k :: 0 <= k < |gs| && gs[k].index == i
  }

  /**
   * A layer gets a glyph exactly when its path normalises to something: a layer whose
   * path normalises to nothing consumes no code.
   */
  lemma {:induction false} LayerGlyphsCover(name: string, layers: seq<Layer>, start: int, norm: NormalizePath)
    ensures forall i :: 0 <= i < |layers| ==>
              (NormPath(layers[i], norm) != "" <==> HasGlyphFor(LayerGlyphs(name, layers, start, norm), i))
    decreases |layers|
  {
    if layers != [] {
      var n := |layers| - 1;
      var pre := layers[..n];
      LayerGlyphsCover(name, pre, start, norm);
      LayerGlyphsShape(name, pre, start, norm);
      var prev := LayerGlyphs(name, pre, start, norm);
      var r := LayerGlyphs(name, layers, start, norm);
      forall i | 0 <= i < |layers|
        ensures NormPath(layers[i], norm) != "" <==> HasGlyphFor(r, i)
      {
        if i < n {
          assert layers[i] == pre[i];
          CoverKeepsEarlier(prev, r, i, n);
        } else if NormPath(layers[i], norm) != "" {
          assert r[|r| - 1].index == i;
        } else {
          assert r == prev;
        }
      }
    }
  }

  /** Layers whose paths all normalise to nothing give no glyph at all. */
  lemma {:induction false} NoPathNoGlyphs(name: string, layers: seq<Layer>, start: int, norm: NormalizePath)
    requires forall i :: 0 <= i < |layers| ==> NormPath(layers[i], norm) == ""
    ensures LayerGlyphs(name, layers, start, norm) == []
    decreases |layers|
  {
    if layers != [] {
      var pre := layers[..|layers| - 1];
      assert forall i :: 0 <= i < |pre| ==> pre[i] == layers[i];
      NoPathNoGlyphs(name, pre, start, norm);
    }
  }

  /**
   * An `<svg>` whose frame is in error yields layers with an empty path; when the path
   * normaliser turns an empty path into an empty string, such a file takes no code.
   */
  lemma FrameErrorConsumesNoCode(name: string, doc: Document, pf: ParseFloat, tp: TransformPath,
                                 start: int, norm: NormalizePath)
    requires forall x, y, h :: norm("", x, y, h) == ""
    requires doc.error.None? && HasTag(doc.nodes, "svg")
    requires GetCoordinates(FirstByTag(doc.nodes, "svg").value, pf).Err?
    ensures Split(doc, AllowedColors, pf, tp).Glyphs?
    ensures FileGlyphs(name, Split(doc, AllowedColors, pf, tp), start, norm) == []
  {
    var svg := FirstByTag(doc.nodes, "svg").value;
    var layers := Split(doc, AllowedColors, pf, tp).layers;
    FlattenMeaning(svg, Some(AllowedColors[0]), pf, tp);
    FlattenMeaning(svg, Some(AllowedColors[1]), pf, tp);
    FlattenMeaning(svg, None, pf, tp);
    assert forall i :: 0 <= i < |layers| ==> layers[i].d == "";
    NoPathNoGlyphs(name, layers, start, norm);
  }

  /** Appending at most one glyph for layer `n` leaves the glyphs of earlier layers as they were. */
  lemma CoverKeepsEarlier(prev: seq<Glyph>, r: seq<Glyph>, i: int, n: int)
    requires forall k :: 0 <= k < |prev| ==> prev[k].index < n
    requires r == prev || (|r| == |prev| + 1 && r[..|prev|] == prev && r[|prev|].index == n)
    requires i < n
    ensures HasGlyphFor(r, i) <==> HasGlyphFor(prev, i)
  {
    if HasGlyphFor(r, i) {
      var k :| 0 <= k < |r| && r[k].index == i;
      assert k < |prev| && prev[k] == r[k];
    }
    if HasGlyphFor(prev, i) {
      var k :| 0 <= k < |prev| && prev[k].index == i;
      assert r[k] == prev[k];
    }
  }

  /** One more layer adds at most one glyph, with the next code. */
  lemma LayerGlyphsStep(name: string, layers: seq<Layer>, i: nat, start: int, norm: NormalizePath)
    requires i < |layers|
    ensures var prev := LayerGlyphs(name, layers[..i], start, norm);
            var p := NormPath(layers[i], norm);
            LayerGlyphs(name, layers[..i + 1], start, norm)
              == if p == "" then prev else prev + [Glyph(name, start + |prev|, CustomIcons, i, true, p, GlyphWidth)]
  {
    assert layers[..i + 1][..i] == layers[..i];
  }

  /**
   * The glyphs a file named `name` adds, codes counted from `start`: none for a parse
   * error or a missing `<svg>`.
   */
  function FileGlyphs(name: string, outcome: SplitResult, start: int, norm: NormalizePath): seq<Glyph> {
    match outcome
    case Glyphs(layers) => LayerGlyphs(name, layers, start, norm)
    case _ => []
  }

  lemma FileGlyphsAllocated(name: string, outcome: SplitResult, start: int, norm: NormalizePath)
    ensures AllocatedFrom(FileGlyphs(name, outcome, start, norm), start)
    ensures |FileGlyphs(name, outcome, start, norm)| <= |SplitLayers(outcome)|
  {
    if outcome.Glyphs? {
      LayerGlyphsShape(name, outcome.layers, start, norm);
    }
  }

  /** The layers `split` produced, none on an error. */
  function SplitLayers(outcome: SplitResult): seq<Layer> {
    if outcome.Glyphs? then outcome.layers else []
  }

  /** A file of the batch: the glyph name of its path and what `split` made of its contents. */
  datatype Loaded = Loaded(name: string, outcome: SplitResult)

  /** The files of the batch, each paired with the split of its parsed contents. */
  function LoadAll(paths: seq<string>, docs: seq<Document>, pf: ParseFloat, tp: TransformPath): seq<Loaded>
    requires |docs| == |paths|
  {
    seq(|paths|, i requires 0 <= i < |paths| => Loaded(GlyphName(paths[i]), Split(docs[i], AllowedColors, pf, tp)))
  }

  /** What the batch has produced so far, and whether an exception has ended it. */
  datatype BatchState = BatchState(glyphs: seq<Glyph>, aborted: bool)

  /** `svgFiles.forEach(createGlyph())`, file after file, until one throws. */
  function Batch(files: seq<Loaded>, start: int, norm: NormalizePath): BatchState {
    if files == [] then BatchState([], false)
    else
      var prev := Batch(files[..|files| - 1], start, norm);
      var f := files[|files| - 1];
      if prev.aborted then prev
      else if f.outcome.NoSvgThrows? then BatchState(prev.glyphs, true)
      else BatchState(prev.glyphs + FileGlyphs(f.name, f.outcome, start + |prev.glyphs|, norm), false)
  }

  lemma GlyphsAssoc(a: seq<Glyph>, b: seq<Glyph>, c: seq<Glyph>)
    ensures (a + b) + c == a + (b + c)
  {
  }

  /**
   * What one more file does to a store that holds `stored` followed by the batch so far
   * and hands out codes from `at`.
   */
  lemma BatchExtend(files: seq<Loaded>, i: nat, name: string, outcome: SplitResult, start: int, at: int,
                    norm: NormalizePath, stored: seq<Glyph>, before: seq<Glyph>, after: seq<Glyph>, thrown: bool)
    requires i < |files| && files[i] == Loaded(name, outcome)
    requires !Batch(files[..i], start, norm).aborted
    requires before == stored + Batch(files[..i], start, norm).glyphs
    requires at == start + |Batch(files[..i], start, norm).glyphs|
    requires after == before + FileGlyphs(name, outcome, at, norm)
    requires thrown == outcome.NoSvgThrows?
    ensures after == stored + Batch(files[..i + 1], start, norm).glyphs
    ensures thrown == Batch(files[..i + 1], start, norm).aborted
  {
    BatchStep(files, i, start, norm);
    var prev := Batch(files[..i], start, norm).glyphs;
    var added := FileGlyphs(name, outcome, at, norm);
    assert Batch(files[..i + 1], start, norm).glyphs == prev + added;
    GlyphsAssoc(stored, prev, added);
  }

  /** One more file, while the batch has not ended: its glyphs follow, and a throw ends the batch. */
  lemma BatchStep(files: seq<Loaded>, i: nat, start: int, norm: NormalizePath)
    requires i < |files| && !Batch(files[..i], start, norm).aborted
    ensures var prev := Batch(files[..i], start, norm);
            && Batch(files[..i + 1], start, norm).glyphs
                 == prev.glyphs + FileGlyphs(files[i].name, files[i].outcome, start + |prev.glyphs|, norm)
            && Batch(files[..i + 1], start, norm).aborted == files[i].outcome.NoSvgThrows?
  {
    assert files[..i + 1][..i] == files[..i];
    assert files[..i + 1][i] == files[i];
  }

  /** Once a file has thrown, no later file is processed. */
  lemma {:induction false} AbortedStays(files: seq<Loaded>, i: nat, start: int, norm: NormalizePath)
    requires i <= |files| && Batch(files[..i], start, norm).aborted
    ensures Batch(files, start, norm) == Batch(files[..i], start, norm)
    decreases |files|
  {
    if i < |files| {
      var pre := files[..|files| - 1];
      assert pre[..i] == files[..i];
      AbortedStays(pre, i, start, norm);
    } else {
      assert files[..i] == files;
    }
  }

  /** The batch's records hold consecutive codes from `start`, each a well-formed custom glyph. */
  lemma {:induction false} BatchAllocated(files: seq<Loaded>, start: int, norm: NormalizePath)
    ensures AllocatedFrom(Batch(files, start, norm).glyphs, start)
    decreases |files|
  {
    if files != [] {
      var pre := files[..|files| - 1];
      BatchAllocated(pre, start, norm);
      var prev := Batch(pre, start, norm);
      var f := files[|files| - 1];
      if !prev.aborted && !f.outcome.NoSvgThrows? {
        FileGlyphsAllocated(f.name, f.outcome, start + |prev.glyphs|, norm);
        AppendAllocated(prev.glyphs, FileGlyphs(f.name, f.outcome, start + |prev.glyphs|, norm), start);
      }
    }
  }

  lemma AppendAllocated(a: seq<Glyph>, b: seq<Glyph>, start: int)
    requires AllocatedFrom(a, start) && AllocatedFrom(b, start + |a|)
    ensures AllocatedFrom(a + b, start)
  {
    forall i | 0 <= i < |a + b|
      ensures WellAllocated((a + b)[i], start + i)
    {
      if i >= |a| {
        assert (a + b)[i] == b[i - |a|];
      }
    }
  }

  /** A file that fails to parse is reported and skipped: it adds nothing and consumes no code. */
  lemma ParseErrorSkipsFile(files: seq<Loaded>, path: string, doc: Document, pf: ParseFloat, tp: TransformPath,
                            start: int, norm: NormalizePath)
    requires doc.error.Some?
    ensures Batch(files + [Loaded(GlyphName(path), Split(doc, AllowedColors, pf, tp))], start, norm) == Batch(files, start, norm)
  {
    assert (files + [Loaded(GlyphName(path), Split(doc, AllowedColors, pf, tp))])[..|files|] == files;
  }

  /** A file without an `<svg>` element ends the batch: no later file adds a glyph. */
  lemma MissingSvgEndsBatch(files: seq<Loaded>, path: string, doc: Document, rest: seq<Loaded>, pf: ParseFloat,
                            tp: TransformPath, start: int, norm: NormalizePath)
    requires doc.error.None? && !HasTag(doc.nodes, "svg")
    ensures var all := files + [Loaded(GlyphName(path), Split(doc, AllowedColors, pf, tp))] + rest;
            Batch(all, start, norm).aborted && Batch(all, start, norm).glyphs == Batch(files, start, norm).glyphs
  {
    var f := Loaded(GlyphName(path), Split(doc, AllowedColors, pf, tp));
    var all := files + [f] + rest;
    assert all[..|files| + 1] == files + [f];
    assert (files + [f])[..|files|] == files;
    AbortedStays(all, |files| + 1, start, norm);
  }

  // ----- stage 2: collecting the glyphs for the font builder -----

  /** A record handed to the font builder: `{src, code, css, isLayer2, width, d, segments}`. */
  datatype GlyphInfo = GlyphInfo(src: string, code: int, css: string, isLayer2: bool, width: real, d: string, segments: nat)

  /** `svgpath(path).scale(s, -s).translate(0, ascent).abs().round(0).rel().toString()`. */
  type FontSpacePath = string -> string
  /** `.segments.length` of that path. */
  type SegmentCount = string -> nat

  /** The records `collectGlyphsInfo` keeps: custom icons that are selected. */
  predicate Collected(g: Glyph) {
    g.src == CustomIcons && g.selected
  }

  /** A kept record after `collectGlyphsInfo`: the first `@` of its name removed. */
  function Unmarked(g: Glyph): (r: Glyph)
    ensures r.code == g.code && r.index == g.index && r.path == g.path && r.src == g.src
    ensures r.selected == g.selected && r.width == g.width
    ensures !Collected(g) || '@' !in g.css ==> r == g
  {
    if Collected(g) && '@' in g.css then g.(css := ReplaceFirst(g.css, "@", "")) else g
  }

  /** Every record unmarked, in place. */
  function UnmarkAll(gs: seq<Glyph>): seq<Glyph> {
    seq(|gs|, i requires 0 <= i < |gs| => Unmarked(gs[i]))
  }

  /** The first `i` records of `orig` unmarked, the rest as they were. */
  predicate UnmarkedUpTo(gs: seq<Glyph>, orig: seq<Glyph>, i: int) {
    |gs| == |orig| && forall k :: 0 <= k < |gs| ==> gs[k] == (if k < i then Unmarked(orig[k]) else orig[k])
  }

  lemma UnmarkedNext(gs: seq<Glyph>, orig: seq<Glyph>, i: nat)
    requires UnmarkedUpTo(gs, orig, i) && i < |gs|
    ensures UnmarkedUpTo(gs[i := Unmarked(orig[i])], orig, i + 1)
    ensures Unmarked(orig[i]) == orig[i] ==> UnmarkedUpTo(gs, orig, i + 1)
  {
  }

  lemma UnmarkedAll(gs: seq<Glyph>, orig: seq<Glyph>)
    requires UnmarkedUpTo(gs, orig, |orig|)
    ensures gs == UnmarkAll(orig)
  {
  }

  /**
   * The record for a kept glyph: on the second layer when its name held an `@` or it
   * comes from layer 1; its width scaled from 1000 units per em to `unitsPerEm`.
   */
  function InfoOf(g: Glyph, unitsPerEm: int, fs: FontSpacePath, segs: SegmentCount): GlyphInfo {
    GlyphInfo(g.src, g.code, Unmarked(g).css, '@' in g.css || g.index == 1,
              (g.width as real) * (unitsPerEm as real) / 1000.0, fs(g.path), segs(fs(g.path)))
  }

  /** The records of the kept glyphs, in store order. */
  function Infos(gs: seq<Glyph>, unitsPerEm: int, fs: FontSpacePath, segs: SegmentCount): seq<GlyphInfo> {
    if gs == [] then []
    else
      Infos(gs[..|gs| - 1], unitsPerEm, fs, segs)
      + (if Collected(gs[|gs| - 1]) then [InfoOf(gs[|gs| - 1], unitsPerEm, fs, segs)] else [])
  }

  /** The info list never outgrows the store: at most one record per glyph. */
  lemma {:induction false} InfosNoLonger(gs: seq<Glyph>, unitsPerEm: int, fs: FontSpacePath, segs: SegmentCount)
    ensures |Infos(gs, unitsPerEm, fs, segs)| <= |gs|
    decreases |gs|
  {
    if gs != [] {
      InfosNoLonger(gs[..|gs| - 1], unitsPerEm, fs, segs);
    }
  }

  lemma InfosStep(gs: seq<Glyph>, i: nat, unitsPerEm: int, fs: FontSpacePath, segs: SegmentCount)
    requires i < |gs|
    ensures Infos(gs[..i + 1], unitsPerEm, fs, segs)
         == Infos(gs[..i], unitsPerEm, fs, segs) + (if Collected(gs[i]) then [InfoOf(gs[i], unitsPerEm, fs, segs)] else [])
  {
    assert gs[..i + 1][..i] == gs[..i];
  }

  predicate SortedByCode(xs: seq<GlyphInfo>) {
    forall i, j :: 0 <= i < j < |xs| ==> xs[i].code <= xs[j].code
  }

  /** Inserts `x` after every record whose code is not larger, so equal codes keep their order. */
  function InsertByCode(x: GlyphInfo, xs: seq<GlyphInfo>): seq<GlyphInfo> {
    if xs == [] then [x]
    else if x.code < xs[0].code then [x] + xs
    else [xs[0]] + InsertByCode(x, xs[1..])
  }

  /** `result.sort((a, b) => a.code - b.code)`: a stable sort by code. */
  function SortByCode(xs: seq<GlyphInfo>): seq<GlyphInfo> {
    if xs == [] then [] else InsertByCode(xs[|xs| - 1], SortByCode(xs[..|xs| - 1]))
  }

  /** Insertion keeps every record and adds `x`. */
  lemma {:induction false} InsertByCodeKeeps(x: GlyphInfo, xs: seq<GlyphInfo>)
    ensures multiset(InsertByCode(x, xs)) == multiset(xs) + multiset{x}
    decreases |xs|
  {
    if xs != [] && x.code >= xs[0].code {
      InsertByCodeKeeps(x, xs[1..]);
      assert xs == [xs[0]] + xs[1..];
    }
  }

  /** Insertion keeps every code at or above a bound that `x` and all of `xs` respect. */
  lemma {:induction false} InsertByCodeAbove(x: GlyphInfo, xs: seq<GlyphInfo>, bound: int)
    requires bound <= x.code && forall k :: 0 <= k < |xs| ==> bound <= xs[k].code
    ensures forall k :: 0 <= k < |InsertByCode(x, xs)| ==> bound <= InsertByCode(x, xs)[k].code
    decreases |xs|
  {
    if xs != [] && x.code >= xs[0].code {
      InsertByCodeAbove(x, xs[1..], bound);
    }
  }

  /** A record no larger than every record of a sorted sequence may go in front of it. */
  lemma SortedCons(h: GlyphInfo, r: seq<GlyphInfo>)
    requires SortedByCode(r) && forall k :: 0 <= k < |r| ==> h.code <= r[k].code
    ensures SortedByCode([h] + r)
  {
  }

  /** Insertion into records sorted by code keeps them sorted. */
  lemma {:induction false} InsertByCodeSorted(x: GlyphInfo, xs: seq<GlyphInfo>)
    requires SortedByCode(xs)
    ensures SortedByCode(InsertByCode(x, xs))
    decreases |xs|
  {
    if xs == [] {
    } else if x.code < xs[0].code {
      SortedCons(x, xs);
    } else {
      var tail := xs[1..];
      InsertByCodeSorted(x, tail);
      InsertByCodeAbove(x, tail, xs[0].code);
      SortedCons(xs[0], InsertByCode(x, tail));
    }
  }

  /** A record whose code is not below any other goes last. */
  lemma {:induction false} InsertByCodeLast(x: GlyphInfo, xs: seq<GlyphInfo>)
    requires forall k :: 0 <= k < |xs| ==> xs[k].code <= x.code
    ensures InsertByCode(x, xs) == xs + [x]
    decreases |xs|
  {
    if xs != [] {
      InsertByCodeLast(x, xs[1..]);
      assert xs == [xs[0]] + xs[1..];
    }
  }

  /** The sort orders by code. */
  lemma {:induction false} SortByCodeSorted(xs: seq<GlyphInfo>)
    ensures SortedByCode(SortByCode(xs))
    decreases |xs|
  {
    if xs != [] {
      var pre := xs[..|xs| - 1];
      SortByCodeSorted(pre);
      InsertByCodeSorted(xs[|xs| - 1], SortByCode(pre));
    }
  }

  /** The sort keeps every record, each as often as it occurs. */
  lemma {:induction false} SortByCodeKeeps(xs: seq<GlyphInfo>)
    ensures multiset(SortByCode(xs)) == multiset(xs)
    decreases |xs|
  {
    if xs != [] {
      var pre := xs[..|xs| - 1];
      var last := xs[|xs| - 1];
      SortByCodeKeeps(pre);
      InsertByCodeKeeps(last, SortByCode(pre));
      assert SortByCode(xs) == InsertByCode(last, SortByCode(pre));
      assert xs == pre + [last];
      assert multiset(xs) == multiset(pre) + multiset{last};
    }
  }

  /** The sort orders by code and keeps every record. */
  lemma SortByCodeProperties(xs: seq<GlyphInfo>)
    ensures SortedByCode(SortByCode(xs))
    ensures multiset(SortByCode(xs)) == multiset(xs)
  {
    SortByCodeSorted(xs);
    SortByCodeKeeps(xs);
  }

  /** Records already in code order are left as they are. */
  lemma {:induction false} SortedStays(xs: seq<GlyphInfo>)
    requires SortedByCode(xs)
    ensures SortByCode(xs) == xs
    decreases |xs|
  {
    if xs != [] {
      var pre := xs[..|xs| - 1];
      assert SortedByCode(pre);
      SortedStays(pre);
      InsertByCodeLast(xs[|xs| - 1], pre);
      assert xs == pre + [xs[|xs| - 1]];
    }
  }

  /** A kept record is scaled from 1000 units per em: a glyph 1000 wide becomes `unitsPerEm` wide. */
  lemma FullWidth(unitsPerEm: int)
    ensures (GlyphWidth as real) * (unitsPerEm as real) / 1000.0 == unitsPerEm as real
  {
  }

  /**
   * For the records `createGlyph` allocates, every one is kept, in order, with its code,
   * a width of exactly `unitsPerEm`, and the layer flag set by an `@` or by layer 1.
   */
  lemma {:induction false} AllocatedInfos(gs: seq<Glyph>, start: int, unitsPerEm: int, fs: FontSpacePath, segs: SegmentCount)
    requires AllocatedFrom(gs, start)
    ensures var r := Infos(gs, unitsPerEm, fs, segs);
            && |r| == |gs|
            && (forall k :: 0 <= k < |r| ==>
                  && r[k].code == start + k && r[k].width == unitsPerEm as real
                  && r[k].isLayer2 == ('@' in gs[k].css || gs[k].index == 1)
                  && r[k].css == Unmarked(gs[k]).css && r[k].d == fs(gs[k].path))
    decreases |gs|
  {
    if gs != [] {
      var pre := gs[..|gs| - 1];
      var last := gs[|gs| - 1];
      assert AllocatedFrom(pre, start) by {
        forall i | 0 <= i < |pre|
          ensures WellAllocated(pre[i], start + i)
        {
          assert pre[i] == gs[i];
        }
      }
      AllocatedInfos(pre, start, unitsPerEm, fs, segs);
      assert WellAllocated(last, start + |gs| - 1);
      FullWidth(unitsPerEm);
      var prev := Infos(pre, unitsPerEm, fs, segs);
      var r := Infos(gs, unitsPerEm, fs, segs);
      assert r == prev + [InfoOf(last, unitsPerEm, fs, segs)];
      forall k | 0 <= k < |r|
        ensures && r[k].code == start + k && r[k].width == unitsPerEm as real
                && r[k].isLayer2 == ('@' in gs[k].css || gs[k].index == 1)
                && r[k].css == Unmarked(gs[k]).css && r[k].d == fs(gs[k].path)
      {
        if k < |prev| {
          assert r[k] == prev[k] && gs[k] == pre[k];
        }
      }
    }
  }

  /** The sort then leaves the records of `createGlyph` as they are. */
  lemma AllocatedInfosSorted(gs: seq<Glyph>, start: int, unitsPerEm: int, fs: FontSpacePath, segs: SegmentCount)
    requires AllocatedFrom(gs, start)
    ensures SortByCode(Infos(gs, unitsPerEm, fs, segs)) == Infos(gs, unitsPerEm, fs, segs)
  {
    AllocatedInfos(gs, start, unitsPerEm, fs, segs);
    SortedStays(Infos(gs, unitsPerEm, fs, segs));
  }

  /** Unmarking keeps records allocated, since it changes names only. */
  lemma UnmarkAllAllocated(gs: seq<Glyph>, start: int)
    requires AllocatedFrom(gs, start)
    ensures AllocatedFrom(UnmarkAll(gs), start)
  {
  }

  /**
   * For the records of a valid store, `collectGlyphsInfo` keeps the store valid, keeps
   * every record, and its sort changes nothing.
   */
  lemma CollectedAllocated(gs: seq<Glyph>, unitsPerEm: int, fs: FontSpacePath, segs: SegmentCount)
    requires AllocatedFrom(gs, FirstCode)
    ensures AllocatedFrom(UnmarkAll(gs), FirstCode) && |UnmarkAll(gs)| == |gs|
    ensures SortByCode(Infos(gs, unitsPerEm, fs, segs)) == Infos(gs, unitsPerEm, fs, segs)
    ensures |Infos(gs, unitsPerEm, fs, segs)| == |gs|
  {
    UnmarkAllAllocated(gs, FirstCode);
    AllocatedInfos(gs, FirstCode, unitsPerEm, fs, segs);
    AllocatedInfosSorted(gs, FirstCode, unitsPerEm, fs, segs);
  }

  /**
   * The glyph store of the batch: the records `createGlyph` pushes (`glyphs`, later
   * `cfg.glyphs`) and the next code to hand out (`allocatedRefCode`).
   */
  class GlyphStore {
    var glyphs: seq<Glyph>
    var allocatedRefCode: int

    /** The next code follows the records, which hold consecutive codes from 0xE800. */
    ghost predicate Valid()
      reads this
    {
      allocatedRefCode == FirstCode + |glyphs| && AllocatedFrom(glyphs, FirstCode)
    }

    constructor()
      ensures Valid() && glyphs == [] && allocatedRefCode == FirstCode
    {
      glyphs := [];
      allocatedRefCode := FirstCode;
    }

    /**
     * `createGlyph()(svgFile)` on the parsed file: a parse error is reported and the file
     * skipped; a missing `<svg>` throws (`thrown`); otherwise each layer whose normalised
     * path is not empty is pushed with the next code, and the others are reported.
     */
    method CreateGlyph(svgFile: string, doc: Document, pf: ParseFloat, tp: TransformPath, norm: NormalizePath)
      returns (thrown: bool)
      requires Valid()
      modifies this
      ensures Valid()
      ensures thrown <==> Split(doc, AllowedColors, pf, tp).NoSvgThrows?
      ensures glyphs == old(glyphs) + FileGlyphs(GlyphName(svgFile), Split(doc, AllowedColors, pf, tp), old(allocatedRefCode), norm)
    {
      var glyphName := GlyphName(svgFile);
      var result := Split(doc, AllowedColors, pf, tp);
      if result.ParseFailed? {
        return false;
      }
      if result.NoSvgThrows? {
        return true;
      }
      thrown := false;
      PushLayers(glyphName, result.layers, norm);
    }

    /**
     * The loop over the layers of one file: each layer whose normalised path is not empty
     * is pushed with the next code and its index in the file; the others are reported.
     */
    method PushLayers(glyphName: string, layers: seq<Layer>, norm: NormalizePath)
      requires Valid()
      modifies this
      ensures Valid()
      ensures glyphs == old(glyphs) + LayerGlyphs(glyphName, layers, old(allocatedRefCode), norm)
    {
      var i := 0;
      while i < |layers|
        invariant 0 <= i <= |layers|
        invariant glyphs == old(glyphs) + LayerGlyphs(glyphName, layers[..i], old(allocatedRefCode), norm)
        invariant Valid()
      {
        ghost var prev := LayerGlyphs(glyphName, layers[..i], old(allocatedRefCode), norm);
        assert allocatedRefCode == old(allocatedRefCode) + |prev|;
        LayerGlyphsStep(glyphName, layers, i, old(allocatedRefCode), norm);
        ghost var next := LayerGlyphs(glyphName, layers[..i + 1], old(allocatedRefCode), norm);
        var g := layers[i];
        var svgPath := norm(g.d, g.x, g.y, g.height);
        assert svgPath == NormPath(layers[i], norm);
        if svgPath != "" {
          var glyph := Glyph(glyphName, allocatedRefCode, CustomIcons, i, true, svgPath, GlyphWidth);
          assert next == prev + [glyph];
          AppendAllocated(glyphs, [glyph], FirstCode);
          GlyphsAssoc(old(glyphs), prev, [glyph]);
          glyphs := glyphs + [glyph];
          allocatedRefCode := allocatedRefCode + 1;
        } else {
          assert next == prev;
        }
        assert glyphs == old(glyphs) + next;
        i := i + 1;
      }
      assert layers[..i] == layers;
    }

    /**
     * `svgFiles.forEach(createGlyph())` over the files at `paths`, whose parsed contents are
     * `docs`: an exception from one file ends the loop (`aborted`).
     */
    method CreateGlyphs(paths: seq<string>, docs: seq<Document>, pf: ParseFloat, tp: TransformPath,
                        norm: NormalizePath) returns (aborted: bool)
      requires |docs| == |paths|
      requires Valid()
      modifies this
      ensures Valid()
      ensures glyphs == old(glyphs) + Batch(LoadAll(paths, docs, pf, tp), old(allocatedRefCode), norm).glyphs
      ensures aborted == Batch(LoadAll(paths, docs, pf, tp), old(allocatedRefCode), norm).aborted
    {
      ghost var files := LoadAll(paths, docs, pf, tp);
      aborted := false;
      var i := 0;
      while i < |paths| && !aborted
        invariant 0 <= i <= |paths|
        invariant Valid()
        invariant glyphs == old(glyphs) + Batch(files[..i], old(allocatedRefCode), norm).glyphs
        invariant aborted == Batch(files[..i], old(allocatedRefCode), norm).aborted
      {
        ghost var prev := Batch(files[..i], old(allocatedRefCode), norm);
        ghost var name := GlyphName(paths[i]);
        ghost var outcome := Split(docs[i], AllowedColors, pf, tp);
        ghost var start := allocatedRefCode;
        assert files[i] == Loaded(name, outcome);
        assert start == old(allocatedRefCode) + |prev.glyphs|;
        ghost var before := glyphs;
        aborted := CreateGlyph(paths[i], docs[i], pf, tp, norm);
        assert glyphs == before + FileGlyphs(name, outcome, start, norm);
        BatchExtend(files, i, name, outcome, old(allocatedRefCode), start, norm, old(glyphs), before, glyphs, aborted);
        i := i + 1;
      }
      if aborted {
        AbortedStays(files, i, old(allocatedRefCode), norm);
      } else {
        assert files[..i] == files;
      }
    }

    /**
     * `collectGlyphsInfo()`: for each selected custom glyph, strips the first `@` from its
     * name in place and records it; the records come back sorted by code. For the
     * records of a valid store the sort has nothing to do.
     */
    method CollectGlyphsInfo(unitsPerEm: int, fs: FontSpacePath, segs: SegmentCount) returns (r: seq<GlyphInfo>)
      requires Valid()
      modifies this
      ensures Valid()
      ensures glyphs == UnmarkAll(old(glyphs))
      ensures allocatedRefCode == old(allocatedRefCode)
      ensures r == SortByCode(Infos(old(glyphs), unitsPerEm, fs, segs))
      ensures r == Infos(old(glyphs), unitsPerEm, fs, segs) && |r| == |old(glyphs)|
    {
      CollectedAllocated(glyphs, unitsPerEm, fs, segs);
      var result := RecordSelected(unitsPerEm, fs, segs);
      r := SortByCode(result);
    }

    /**
     * The `forEach` of `collectGlyphsInfo()`: unmarks each selected custom glyph in place
     * and records it, in store order.
     */
    method RecordSelected(unitsPerEm: int, fs: FontSpacePath, segs: SegmentCount) returns (result: seq<GlyphInfo>)
      modifies this
      ensures glyphs == UnmarkAll(old(glyphs))
      ensures allocatedRefCode == old(allocatedRefCode)
      ensures result == Infos(old(glyphs), unitsPerEm, fs, segs)
    {
      result := [];
      var i := 0;
      while i < |glyphs|
        invariant 0 <= i <= |glyphs| == |old(glyphs)|
        invariant allocatedRefCode == old(allocatedRefCode)
        invariant UnmarkedUpTo(glyphs, old(glyphs), i)
        invariant result == Infos(old(glyphs)[..i], unitsPerEm, fs, segs)
      {
        InfosStep(old(glyphs), i, unitsPerEm, fs, segs);
        UnmarkedNext(glyphs, old(glyphs), i);
        var glyph := glyphs[i];
        assert glyph == old(glyphs)[i];
        if glyph.src == CustomIcons && glyph.selected {
          var isLayer2 := false;
          var css := glyph.css;
          if '@' in glyph.css {
            isLayer2 := true;
            css := ReplaceFirst(glyph.css, "@", "");
            glyphs := glyphs[i := glyph.(css := css)];
          }
          if glyph.index == 1 {
            isLayer2 := true;
          }
          assert css == Unmarked(glyph).css;
          assert isLayer2 == ('@' in glyph.css || glyph.index == 1);
          var sp := fs(glyph.path);
          var info := GlyphInfo(glyph.src, glyph.code, css, isLayer2,
                                (glyph.width as real) * (unitsPerEm as real) / 1000.0, sp, segs(sp));
          assert info == InfoOf(glyph, unitsPerEm, fs, segs);
          result := result + [info];
        }
        i := i + 1;
      }
      assert old(glyphs)[..i] == old(glyphs);
      UnmarkedAll(glyphs, old(glyphs));
    }
  }
}
