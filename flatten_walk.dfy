/**
 * The flattening walk (`processSVG`, svg-split.js): visits the children of a node in
 * document order, threads each ancestor's `transform` attribute down the tree, and
 * appends every selected `<path>`, transformed by its accumulated list, to one compound
 * path string. The path library's `new SvgPath(d).transform(list).toString()` is the
 * parameter `tp`: its geometry is not modelled.
 */
module FlattenWalk {
  import opened Js
  import opened Dom
  import opened ColorDiscovery

  /** `new SvgPath(d).transform(transformList).toString()`, supplied by the path library. */
  type TransformPath = (string, string) -> string

  /**
   * The transform list an element passes on: the inherited list, then a space and the
   * element's own `transform` when it has a non-empty one. In SVG 1.1 section 7.6 a list
   * applies its right-most transform innermost, so ancestors wrap descendants.
   */
  function OwnTransforms(item: Node, parent: string): (r: string)
    ensures |parent| <= |r| && r[..|parent|] == parent
    ensures Attr(item, "transform") == "" ==> r == parent
  {
    var own := Attr(item, "transform");
    if own != "" then parent + " " + own else parent
  }

  /** `if (color)`: an absent or empty colour switches filtering off. */
  predicate FilterActive(color: Option<string>) {
    color.Some? && color.value != ""
  }

  /** One `<path>` the walk reaches: its `d`, its accumulated transform list, its own fill. */
  datatype PathUse = PathUse(d: string, transforms: string, fill: Option<string>)

  /** Every `<path>` reached under the children `cs`, in document order, before filtering. */
  function PathUses(cs: seq<Node>, t: string): seq<PathUse>
    decreases cs, 0
  {
    if cs == [] then [] else ItemUses(cs[0], t) + PathUses(cs[1..], t)
  }

  /**
   * The paths reached at one child: a `g` contributes its children's, a `path` itself,
   * and every other tag (as well as quiet tags and non-elements) nothing.
   */
  function ItemUses(n: Node, t: string): seq<PathUse>
    decreases n, 1
  {
    match n
    case NonElement => []
    case Element(name, _, kids) =>
      if IsQuietTag(name) then []
      else if name == "g" then PathUses(kids, OwnTransforms(n, t))
      else if name == "path" then [PathUse(Attr(n, "d"), OwnTransforms(n, t), StyleFill(n))]
      else []
  }

  /** The colour filter: with one active, only a path whose own style declares that fill. */
  predicate Selected(u: PathUse, color: Option<string>) {
    !FilterActive(color) || u.fill == Some(color.value)
  }

  /** The paths the filter lets through, in order. */
  function Keep(uses: seq<PathUse>, color: Option<string>): seq<PathUse>
  {
    if uses == [] then []
    else (if Selected(uses[0], color) then [uses[0]] else []) + Keep(uses[1..], color)
  }

  /**
   * Filtering keeps exactly the selected paths and never adds one; without an active
   * colour it keeps every path.
   */
  lemma {:induction false} KeepProperties(uses: seq<PathUse>, color: Option<string>)
    ensures |Keep(uses, color)| <= |uses|
    ensures forall u :: u in Keep(uses, color) <==> u in uses && Selected(u, color)
    ensures !FilterActive(color) ==> Keep(uses, color) == uses
  {
    if uses != [] {
      KeepProperties(uses[1..], color);
      assert forall u :: u in uses <==> u == uses[0] || u in uses[1..];
    }
  }

  /** The compound path: each kept path transformed by its list, concatenated in order. */
  function Render(uses: seq<PathUse>, tp: TransformPath): string {
    if uses == [] then "" else tp(uses[0].d, uses[0].transforms) + Render(uses[1..], tp)
  }

  lemma {:induction false} PathUsesAppend(a: seq<Node>, b: seq<Node>, t: string)
    ensures PathUses(a + b, t) == PathUses(a, t) + PathUses(b, t)
    decreases a
  {
    if a == [] {
      assert a + b == b;
    } else {
      assert (a + b)[0] == a[0];
      assert (a + b)[1..] == a[1..] + b;
      PathUsesAppend(a[1..], b, t);
    }
  }

  lemma {:induction false} KeepAppend(a: seq<PathUse>, b: seq<PathUse>, color: Option<string>)
    ensures Keep(a + b, color) == Keep(a, color) + Keep(b, color)
    decreases a
  {
    if a == [] {
      assert a + b == b;
    } else {
      assert (a + b)[0] == a[0];
      assert (a + b)[1..] == a[1..] + b;
      KeepAppend(a[1..], b, color);
    }
  }

  lemma {:induction false} RenderAppend(a: seq<PathUse>, b: seq<PathUse>, tp: TransformPath)
    ensures Render(a + b, tp) == Render(a, tp) + Render(b, tp)
    decreases a
  {
    if a == [] {
      assert a + b == b;
    } else {
      assert (a + b)[0] == a[0];
      assert (a + b)[1..] == a[1..] + b;
      RenderAppend(a[1..], b, tp);
    }
  }

  lemma ConcatAssoc(a: string, b: string, c: string)
    ensures (a + b) + c == a + (b + c)
  {
  }

  /** What one child adds to the running compound path. */
  lemma ItemStep(cs: seq<Node>, i: nat, t: string, color: Option<string>, tp: TransformPath)
    requires i < |cs|
    ensures Render(Keep(PathUses(cs[..i + 1], t), color), tp)
         == Render(Keep(PathUses(cs[..i], t), color), tp) + Render(Keep(ItemUses(cs[i], t), color), tp)
  {
    assert cs[..i + 1] == cs[..i] + [cs[i]];
    PathUsesAppend(cs[..i], [cs[i]], t);
    assert PathUses([cs[i]], t) == ItemUses(cs[i], t) by {
      assert [cs[i]][1..] == [];
    }
    KeepAppend(PathUses(cs[..i], t), ItemUses(cs[i], t), color);
    RenderAppend(Keep(PathUses(cs[..i], t), color), Keep(ItemUses(cs[i], t), color), tp);
  }

  /** A `<path>` child adds its transformed `d` exactly when the filter selects it. */
  lemma PathItemStep(item: Node, t: string, color: Option<string>, tp: TransformPath)
    requires item.Element? && item.name == "path"
    ensures Render(Keep(ItemUses(item, t), color), tp)
         == if !FilterActive(color) || StyleFill(item) == Some(color.value)
            then tp(Attr(item, "d"), OwnTransforms(item, t)) else ""
  {
    assert !IsQuietTag("path");
  }

  lemma GroupItemStep(item: Node, t: string)
    requires item.Element? && item.name == "g"
    ensures ItemUses(item, t) == PathUses(item.children, OwnTransforms(item, t))
  {
    assert !IsQuietTag("g");
  }

  /** Non-elements, quiet tags and tags other than `g` and `path` contribute nothing. */
  lemma OtherItemStep(item: Node, t: string)
    requires !item.Element? || IsQuietTag(item.name) || (item.name != "g" && item.name != "path")
    ensures ItemUses(item, t) == []
  {
  }

  /**
   * `processSVG(node, parentTransforms, path, color)`: the running path grows by the
   * rendering of every selected path below `node`, in document order; a `g`'s recursive
   * result replaces the running path.
   */
  method ProcessSvg(node: Node, parentTransforms: string, path: string, color: Option<string>, tp: TransformPath)
    returns (r: string)
    requires node.Element?
    ensures r == path + Render(Keep(PathUses(node.children, parentTransforms), color), tp)
    decreases node, 0
  {
    r := path;
    var i := 0;
    assert node.children[..0] == [];
    while i < |node.children|
      invariant 0 <= i <= |node.children|
      invariant r == path + Render(Keep(PathUses(node.children[..i], parentTransforms), color), tp)
    {
      ghost var before := r;
      r := ProcessItem(node.children[i], parentTransforms, r, color, tp);
      ghost var done := Render(Keep(PathUses(node.children[..i], parentTransforms), color), tp);
      ghost var added := Render(Keep(ItemUses(node.children[i], parentTransforms), color), tp);
      ItemStep(node.children, i, parentTransforms, color, tp);
      ConcatAssoc(path, done, added);
      i := i + 1;
    }
    assert node.children[..i] == node.children;
  }

  /**
   * The body of `processSVG`'s loop for one child `item`: a `g` recurses with its list, a
   * selected `path` appends its transformed `d`, and anything else leaves the path alone.
   */
  method ProcessItem(item: Node, parentTransforms: string, path: string, color: Option<string>, tp: TransformPath)
    returns (r: string)
    ensures r == path + Render(Keep(ItemUses(item, parentTransforms), color), tp)
    decreases item, 1
  {
    r := path;
    if item.Element? && !IsQuietTag(item.name) {
      var transforms := if Attr(item, "transform") != "" then parentTransforms + " " + Attr(item, "transform")
                        else parentTransforms;
      assert transforms == OwnTransforms(item, parentTransforms);
      if item.name == "g" {
        r := ProcessSvg(item, transforms, r, color, tp);
        GroupItemStep(item, parentTransforms);
      } else if item.name == "path" {
        var matches := true;
        if FilterActive(color) {
          var m := StyleFill(item);
          if m != Some(color.value) {
            matches := false;
          }
        }
        if matches {
          r := r + tp(Attr(item, "d"), transforms);
        }
        PathItemStep(item, parentTransforms, color, tp);
      } else {
        OtherItemStep(item, parentTransforms);
      }
    } else {
      OtherItemStep(item, parentTransforms);
    }
  }

  /**
   * Ancestors wrap descendants: every path reached below a node carries the node's
   * accumulated list as a prefix of its own.
   */
  lemma {:induction false} InheritedTransformsPrefix(cs: seq<Node>, t: string)
    ensures forall u :: u in PathUses(cs, t) ==> |t| <= |u.transforms| && u.transforms[..|t|] == t
    decreases cs, 0
  {
    if cs != [] {
      ItemTransformsPrefix(cs[0], t);
      InheritedTransformsPrefix(cs[1..], t);
    }
  }

  lemma {:induction false} ItemTransformsPrefix(n: Node, t: string)
    ensures forall u :: u in ItemUses(n, t) ==> |t| <= |u.transforms| && u.transforms[..|t|] == t
    decreases n, 1
  {
    if n.Element? && !IsQuietTag(n.name) && n.name == "g" {
      var t' := OwnTransforms(n, t);
      InheritedTransformsPrefix(n.children, t');
      forall u | u in ItemUses(n, t)
        ensures |t| <= |u.transforms| && u.transforms[..|t|] == t
      {
        assert u.transforms[..|t'|] == t';
        assert u.transforms[..|t|] == t'[..|t|];
      }
    }
  }

  /**
   * Two nested groups with transforms `T1` (outer) and `T2` (inner) around a path give
   * it the list " T1 T2": `T2` is applied first, `T1` around it.
   */
  lemma NestedGroupTransforms(t1: string, t2: string, d: string)
    requires t1 != "" && t2 != ""
    ensures PathUses([Element("g", map["transform" := t1], [
                        Element("g", map["transform" := t2], [
                          Element("path", map["d" := d], [])])])], "")
         == [PathUse(d, " " + t1 + " " + t2, None)]
  {
    var p := Element("path", map["d" := d], []);
    var inner := Element("g", map["transform" := t2], [p]);
    var outer := Element("g", map["transform" := t1], [inner]);
    assert ItemUses(p, " " + t1 + " " + t2) == [PathUse(d, " " + t1 + " " + t2, None)];
    assert PathUses([p], " " + t1 + " " + t2) == ItemUses(p, " " + t1 + " " + t2);
    assert Attr(inner, "transform") == t2 && Attr(outer, "transform") == t1;
    assert !IsQuietTag("g") && !IsQuietTag("path");
    assert OwnTransforms(outer, "") == " " + t1;
    assert OwnTransforms(inner, " " + t1) == " " + t1 + " " + t2;
    assert ItemUses(inner, " " + t1) == PathUses([p], " " + t1 + " " + t2);
    assert PathUses([inner], " " + t1) == ItemUses(inner, " " + t1);
    assert ItemUses(outer, "") == PathUses([inner], " " + t1);
  }

  /**
   * Fill is not inherited: a path without a style of its own is dropped by an active
   * filter even when its group declares exactly that fill.
   */
  lemma GroupFillNotInherited(color: string, d: string)
    requires color != ""
    ensures Keep(PathUses([Element("g", map["style" := "fill:" + color + ";"], [
                             Element("path", map["d" := d], [])])], ""), Some(color)) == []
  {
    var p := Element("path", map["d" := d], []);
    var g := Element("g", map["style" := "fill:" + color + ";"], [p]);
    assert StyleFill(p) == None;
    assert ItemUses(p, "") == [PathUse(d, "", None)];
    assert PathUses([p], "") == ItemUses(p, "");
    assert PathUses([g], "") == ItemUses(g, "");
  }

  /** With two different colours the two filtered selections share no path. */
  lemma FiltersDisjoint(uses: seq<PathUse>, c0: string, c1: string)
    requires c0 != "" && c1 != "" && c0 != c1
    ensures forall u :: u in Keep(uses, Some(c0)) ==> u !in Keep(uses, Some(c1))
  {
    KeepProperties(uses, Some(c0));
    KeepProperties(uses, Some(c1));
  }
}
