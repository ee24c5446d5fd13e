/**
 * The layer splitter (`split` and `flatten`, svg-split.js): parses the document, finds
 * the root `<svg>`, discovers its fill colours and produces one layer, or two when both
 * allowed colours are present, each layer being the flattened compound path of the
 * paths its colour selects together with the icon's frame.
 */
module SvgSplit {
  import opened Js
  import opened Dom
  import opened ColorDiscovery
  import opened FlattenWalk
  import opened Viewport

  /**
   * What the XML parser hands over: the message of the last error or fatal error its
   * handler saw, if any, and the document's top-level nodes.
   */
  datatype Document = Document(error: Option<string>, nodes: seq<Node>)

  /** One flattened layer: `{d, width, height, x, y}` and, on a frame error, `error`. */
  datatype Layer = Layer(d: string, width: Num, height: Num, x: Num, y: Num, error: Option<FrameError>)

  /**
   * The outcome of `split`: `{error}` for a parse error, `{glyphs}` otherwise; a
   * document without any `<svg>` element makes the colour walk read `childNodes` of
   * `undefined`, and the TypeError leaves `split` (and its caller) altogether.
   */
  datatype SplitResult = ParseFailed(message: string) | Glyphs(layers: seq<Layer>) | NoSvgThrows

  /** The paths a layer with this colour filter draws, in document order. */
  function LayerUses(svg: Node, color: Option<string>): seq<PathUse> {
    Keep(PathUses(ChildrenOf(svg), ""), color)
  }

  /**
   * `flatten(svg, color)`: on a frame error, an empty path with zero geometry that
   * carries the error; otherwise the rendering of the selected paths (the walk starts
   * with no transforms and an empty path) and the frame.
   */
  function Flatten(svg: Node, color: Option<string>, pf: ParseFloat, tp: TransformPath): Layer {
    match GetCoordinates(svg, pf)
    case Err(e) => Layer("", Finite(0.0), Finite(0.0), Finite(0.0), Finite(0.0), Some(e))
    case Ok(f) => Layer(Render(LayerUses(svg, color), tp), f.width, f.height, f.x, f.y, None)
  }

  /**
   * A layer carries an error exactly when the frame is in error, and then nothing else;
   * otherwise it draws the selected paths inside the frame.
   */
  lemma FlattenMeaning(svg: Node, color: Option<string>, pf: ParseFloat, tp: TransformPath)
    ensures var r := Flatten(svg, color, pf, tp);
            && (r.error.Some? <==> GetCoordinates(svg, pf).Err?)
            && (r.error.Some? ==> r.error.value == GetCoordinates(svg, pf).error && r.d == ""
                                  && r.width == r.height == r.x == r.y == Finite(0.0))
            && (r.error.None? ==> r.d == Render(LayerUses(svg, color), tp)
                                  && Frame(r.x, r.y, r.width, r.height) == GetCoordinates(svg, pf).value)
  {
  }

  /** `colors.includes(allowedColors[0]) && colors.includes(allowedColors[1])`. */
  predicate BothAllowedPresent(svg: Node, allowed: seq<string>) {
    |allowed| >= 2 && allowed[0] in DiscoverColors(svg) && allowed[1] in DiscoverColors(svg)
  }

  /**
   * `split(sourceXml, allowedColors)` on the parsed document: a parse error is reported
   * as is; otherwise the first `<svg>` in document order is split into two colour layers
   * when both allowed colours are discovered, else into one unfiltered layer.
   */
  function Split(doc: Document, allowed: seq<string>, pf: ParseFloat, tp: TransformPath): SplitResult {
    if doc.error.Some? then ParseFailed(doc.error.value)
    else match FirstByTag(doc.nodes, "svg")
      case None => NoSvgThrows
      case Some(svg) =>
        if BothAllowedPresent(svg, allowed) then
          Glyphs([Flatten(svg, Some(allowed[0]), pf, tp), Flatten(svg, Some(allowed[1]), pf, tp)])
        else Glyphs([Flatten(svg, None, pf, tp)])
  }

  /**
   * A parse error is passed on with its message; a parsed document without `<svg>`
   * throws; otherwise one or two layers of the first `<svg>`, two exactly when both
   * allowed colours are discovered, each filtered by its colour, or one unfiltered.
   */
  lemma SplitMeaning(doc: Document, allowed: seq<string>, pf: ParseFloat, tp: TransformPath)
    ensures var r := Split(doc, allowed, pf, tp);
            && (r.ParseFailed? <==> doc.error.Some?)
            && (r.ParseFailed? ==> r.message == doc.error.value)
            && (r.NoSvgThrows? <==> doc.error.None? && !HasTag(doc.nodes, "svg"))
            && (r.Glyphs? ==> FirstByTag(doc.nodes, "svg").Some? && 1 <= |r.layers| <= 2)
            && (r.Glyphs? ==> var svg := FirstByTag(doc.nodes, "svg").value;
                  if BothAllowedPresent(svg, allowed)
                  then r.layers == [Flatten(svg, Some(allowed[0]), pf, tp), Flatten(svg, Some(allowed[1]), pf, tp)]
                  else r.layers == [Flatten(svg, None, pf, tp)])
  {
  }

  /**
   * Two layers exactly when both allowed colours are declared by the own `style` of some
   * element the colour walk visits below the root.
   */
  lemma TwoLayersIff(doc: Document, allowed: seq<string>, pf: ParseFloat, tp: TransformPath)
    requires Split(doc, allowed, pf, tp).Glyphs?
    ensures var svg := FirstByTag(doc.nodes, "svg").value;
            |Split(doc, allowed, pf, tp).layers| == 2 <==>
              |allowed| >= 2 && allowed[0] in Fills(ChildrenOf(svg)) && allowed[1] in Fills(ChildrenOf(svg))
  {
  }

  /**
   * A colour the filter selects is never empty when discovered, so a two-layer split
   * really filters: each layer draws exactly the paths whose own fill is its colour, and
   * with two different colours no path is drawn in both.
   */
  lemma TwoLayerContents(svg: Node, allowed: seq<string>)
    requires BothAllowedPresent(svg, allowed)
    ensures forall i, u :: 0 <= i < 2 && u in LayerUses(svg, Some(allowed[i])) <==>
              0 <= i < 2 && u in PathUses(ChildrenOf(svg), "") && u.fill == Some(allowed[i])
    ensures allowed[0] != allowed[1] ==>
              forall u :: u in LayerUses(svg, Some(allowed[0])) ==> u !in LayerUses(svg, Some(allowed[1]))
  {
    var uses := PathUses(ChildrenOf(svg), "");
    assert WellFormedColor(allowed[0]) && WellFormedColor(allowed[1]);
    KeepProperties(uses, Some(allowed[0]));
    KeepProperties(uses, Some(allowed[1]));
    if allowed[0] != allowed[1] {
      FiltersDisjoint(uses, allowed[0], allowed[1]);
    }
  }

  /** With one layer, every path the walk reaches is drawn, whatever its fill. */
  lemma SingleLayerDrawsAll(svg: Node)
    ensures LayerUses(svg, None) == PathUses(ChildrenOf(svg), "")
  {
    KeepProperties(PathUses(ChildrenOf(svg), ""), None);
  }

  /**
   * An icon that uses only the secondary colour is not split: it yields one layer with
   * all of its paths, unfiltered.
   */
  lemma SecondaryOnlyGivesOneLayer(doc: Document, allowed: seq<string>, pf: ParseFloat, tp: TransformPath)
    requires doc.error.None? && HasTag(doc.nodes, "svg") && |allowed| >= 2
    requires allowed[0] !in Fills(ChildrenOf(FirstByTag(doc.nodes, "svg").value))
    ensures var svg := FirstByTag(doc.nodes, "svg").value;
            Split(doc, allowed, pf, tp) == Glyphs([Flatten(svg, None, pf, tp)])
            && (GetCoordinates(svg, pf).Ok? ==>
                  Split(doc, allowed, pf, tp).layers[0].d == Render(PathUses(ChildrenOf(svg), ""), tp))
  {
    SingleLayerDrawsAll(FirstByTag(doc.nodes, "svg").value);
  }

  /** A frame error reaches every layer, each with an empty path. */
  lemma FrameErrorInEveryLayer(doc: Document, allowed: seq<string>, pf: ParseFloat, tp: TransformPath)
    requires Split(doc, allowed, pf, tp).Glyphs?
    requires GetCoordinates(FirstByTag(doc.nodes, "svg").value, pf).Err?
    ensures forall i :: 0 <= i < |Split(doc, allowed, pf, tp).layers| ==>
              Split(doc, allowed, pf, tp).layers[i].error == Some(GetCoordinates(FirstByTag(doc.nodes, "svg").value, pf).error)
              && Split(doc, allowed, pf, tp).layers[i].d == ""
  {
  }

  /**
   * The root is the first `<svg>` in document order, wherever it sits; its own `style`
   * is not read, so a fill declared on it alone does not split the icon.
   */
  lemma RootStyleNotRead(attrs: map<string, string>, pf: ParseFloat, tp: TransformPath)
    requires attrs.Keys == {"style"} && attrs["style"] == "fill:#515151;"
    ensures Split(Document(None, [Element("svg", attrs, [])]), ["#515151", "#ff8000"], pf, tp)
         == Glyphs([Flatten(Element("svg", attrs, []), None, pf, tp)])
  {
    var svg := Element("svg", attrs, []);
    assert FirstByTag([svg], "svg") == Some(svg);
    assert Fills(ChildrenOf(svg)) == [];
  }
}
