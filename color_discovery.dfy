/**
 * Colour discovery (`findAllFillColors`, svg-split.js): a walk over the children of the
 * root `<svg>` that reads the fill colour of each visited element's own `style` and
 * appends it to a shared list unless the list already holds it. The walk skips
 * non-element nodes and the subtrees of the "quiet" tags, and descends only into `g`.
 */
module ColorDiscovery {
  import opened Js
  import opened Dom
  import opened FillPattern

  /** The tags whose subtrees neither walker visits. */
  const QuietTags: set<string> := {"desc", "title", "metadata", "defs"}

  predicate IsQuietTag(name: string) {
    name in QuietTags
  }

  /**
   * The own property names of `Object.prototype` in Node.js. The source keeps the quiet
   * tags in a plain object literal, so looking one of these names up in it yields an
   * inherited, truthy member.
   */
  const ObjectPrototypeKeys: set<string> := {
    "constructor", "__defineGetter__", "__defineSetter__", "hasOwnProperty",
    "__lookupGetter__", "__lookupSetter__", "isPrototypeOf", "propertyIsEnumerable",
    "toString", "valueOf", "__proto__", "toLocaleString"
  }

  /** `quietTags[name]` as the source evaluates it: own keys and inherited ones. */
  predicate QuietLookupAsWritten(name: string) {
    name in QuietTags || name in ObjectPrototypeKeys
  }

  /**
   * The lookup as written also silences an element named `constructor`, which is not one
   * of the four quiet tags: its `style` is never read by colour discovery.
   */
  lemma PrototypeNameSilencedAsWritten()
    ensures QuietLookupAsWritten("constructor") && !IsQuietTag("constructor")
  {
    assert "constructor" in ObjectPrototypeKeys;
    assert "constructor" != "desc" && "constructor" != "title";
  }

  /**
   * With the four quiet tags alone, an element named `constructor` is visited like any
   * other: the fill its own style declares is read.
   */
  lemma ConstructorFillRead(color: string, kids: seq<Node>)
    requires WellFormedColor(color)
    ensures ItemFills(Element("constructor", map["style" := "fill:" + color + ";"], kids)) == [color]
  {
    var s := "fill:" + color + ";";
    var n := Element("constructor", map["style" := s], kids);
    assert s[..5] == "fill:" && s[5..5 + |color|] == color && s[5 + |color|] == ';';
    assert MatchesWith(s, 0, 5, color);
    MatchAtComplete(s, 0, 5, color);
    assert Attr(n, "style") == s;
    assert StyleFill(n) == Some(color);
    assert !IsQuietTag("constructor");
  }

  /** The declarations colour discovery reads as written, with the inherited lookup. */
  function FillsAsWritten(cs: seq<Node>): seq<string>
    decreases cs, 0
  {
    if cs == [] then [] else ItemFillsAsWritten(cs[0]) + FillsAsWritten(cs[1..])
  }

  function ItemFillsAsWritten(n: Node): seq<string>
    decreases n, 1
  {
    match n
    case NonElement => []
    case Element(name, _, kids) =>
      if QuietLookupAsWritten(name) then []
      else OptionSeq(StyleFill(n)) + (if name == "g" then FillsAsWritten(kids) else [])
  }

  /** No element of `xs` is named after a member of `Object.prototype`. */
  ghost predicate NoPrototypeNames(xs: seq<Node>) {
    forall x :: x in xs ==> !(x.Element? && x.name in ObjectPrototypeKeys)
  }

  /**
   * The walk as written and the four-tag walk read the same declarations whenever no
   * element of the tree is named after a member of `Object.prototype`.
   */
  lemma {:induction false} FillsAsWrittenAgree(cs: seq<Node>)
    requires NoPrototypeNames(PreOrder(cs))
    ensures FillsAsWritten(cs) == Fills(cs)
    decreases cs, 0
  {
    if cs != [] {
      ItemFillsAsWrittenAgree(cs[0]);
      FillsAsWrittenAgree(cs[1..]);
    }
  }

  lemma {:induction false} ItemFillsAsWrittenAgree(n: Node)
    requires NoPrototypeNames(ItemOrder(n))
    ensures ItemFillsAsWritten(n) == ItemFills(n)
    decreases n, 1
  {
    if n.Element? {
      assert n in ItemOrder(n);
      assert !QuietLookupAsWritten(n.name) <==> !IsQuietTag(n.name);
      if n.name == "g" {
        FillsAsWrittenAgree(n.children);
      }
    }
  }

  /**
   * The two walks part on an element named `constructor`: as written its declared fill
   * is never read, while the four-tag walk reads it.
   */
  lemma ConstructorWalksDiffer(color: string, kids: seq<Node>)
    requires WellFormedColor(color)
    ensures var n := Element("constructor", map["style" := "fill:" + color + ";"], kids);
            FillsAsWritten([n]) == [] && Fills([n]) == [color]
  {
    var n := Element("constructor", map["style" := "fill:" + color + ";"], kids);
    PrototypeNameSilencedAsWritten();
    ConstructorFillRead(color, kids);
    assert [n][1..] == [];
  }

  /** A colour as the fill pattern captures it: non-empty, no whitespace, no `;`. */
  predicate WellFormedColor(c: string) {
    c != [] && forall i :: 0 <= i < |c| ==> IsValueChar(c[i])
  }

  /** The colour an element's own `style` attribute declares, if any. */
  function StyleFill(n: Node): (r: Option<string>)
    ensures r.Some? ==> WellFormedColor(r.value)
  {
    var style := Attr(n, "style");
    ExtractFillMeaning(style);
    if style == "" then None else ExtractFill(style)
  }

  function OptionSeq(o: Option<string>): seq<string> {
    if o.Some? then [o.value] else []
  }

  /**
   * Every fill declaration colour discovery reads under the children `cs`, in the order
   * it reads them, duplicates kept.
   */
  function Fills(cs: seq<Node>): seq<string>
    decreases cs, 0
  {
    if cs == [] then [] else ItemFills(cs[0]) + Fills(cs[1..])
  }

  /** The declarations read at one child: its own style first, then, for `g`, its children's. */
  function ItemFills(n: Node): seq<string>
    decreases n, 1
  {
    match n
    case NonElement => []
    case Element(name, _, kids) =>
      if IsQuietTag(name) then []
      else OptionSeq(StyleFill(n)) + (if name == "g" then Fills(kids) else [])
  }

  /** Every colour read is one the fill pattern can capture: never empty, never falsy. */
  lemma {:induction false} FillsWellFormed(cs: seq<Node>)
    ensures forall i :: 0 <= i < |Fills(cs)| ==> WellFormedColor(Fills(cs)[i])
    decreases cs, 0
  {
    if cs != [] {
      ItemFillsWellFormed(cs[0]);
      FillsWellFormed(cs[1..]);
    }
  }

  lemma {:induction false} ItemFillsWellFormed(n: Node)
    ensures forall i :: 0 <= i < |ItemFills(n)| ==> WellFormedColor(ItemFills(n)[i])
    decreases n, 1
  {
    if n.Element? && !IsQuietTag(n.name) && n.name == "g" {
      FillsWellFormed(n.children);
    }
  }

  lemma {:induction false} FillsAppend(a: seq<Node>, b: seq<Node>)
    ensures Fills(a + b) == Fills(a) + Fills(b)
    decreases a
  {
    if a == [] {
      assert a + b == b;
    } else {
      assert (a + b)[0] == a[0];
      assert (a + b)[1..] == a[1..] + b;
      FillsAppend(a[1..], b);
    }
  }

  /**
   * What the walk does to the shared list: each colour of `xs`, in order, is appended
   * unless the list already holds it.
   */
  function AddNew(acc: seq<string>, xs: seq<string>): seq<string>
    decreases xs
  {
    if xs == [] then acc
    else AddNew(if xs[0] in acc then acc else acc + [xs[0]], xs[1..])
  }

  /**
   * The list only grows at its end, ends up holding exactly the old colours and the new
   * ones, and never holds a colour twice if it did not before.
   */
  lemma {:induction false} AddNewProperties(acc: seq<string>, xs: seq<string>)
    ensures |acc| <= |AddNew(acc, xs)| && AddNew(acc, xs)[..|acc|] == acc
    ensures forall x :: x in AddNew(acc, xs) <==> x in acc || x in xs
    ensures Distinct(acc) ==> Distinct(AddNew(acc, xs))
    decreases xs
  {
    if xs != [] {
      var next := if xs[0] in acc then acc else acc + [xs[0]];
      AddNewProperties(next, xs[1..]);
      assert AddNew(next, xs[1..])[..|acc|] == next[..|acc|];
      assert forall x :: x in xs <==> x == xs[0] || x in xs[1..];
    }
  }

  ghost predicate Distinct(s: seq<string>) {
    forall i, j :: 0 <= i < j < |s| ==> s[i] != s[j]
  }

  lemma {:induction false} AddNewAppend(acc: seq<string>, xs: seq<string>, ys: seq<string>)
    ensures AddNew(acc, xs + ys) == AddNew(AddNew(acc, xs), ys)
    decreases xs
  {
    if xs == [] {
      assert xs + ys == ys;
    } else {
      assert (xs + ys)[0] == xs[0];
      assert (xs + ys)[1..] == xs[1..] + ys;
      AddNewAppend(if xs[0] in acc then acc else acc + [xs[0]], xs[1..], ys);
    }
  }

  /**
   * First-encountered order: reading one more colour appends it exactly when it has not
   * been seen before, and otherwise leaves the list as it was.
   */
  lemma AddNewSnoc(acc: seq<string>, xs: seq<string>, x: string)
    ensures AddNew(acc, xs + [x]) == if x in AddNew(acc, xs) then AddNew(acc, xs) else AddNew(acc, xs) + [x]
  {
    AddNewAppend(acc, xs, [x]);
  }

  /** The colours discovered under the root `svg`: its own `style` is not read. */
  function DiscoverColors(svg: Node): (r: seq<string>)
    ensures Distinct(r)
    ensures forall c :: c in r <==> c in Fills(ChildrenOf(svg))
    ensures forall c :: c in r ==> WellFormedColor(c)
  {
    FillsWellFormed(ChildrenOf(svg));
    AddNewProperties([], Fills(ChildrenOf(svg)));
    AddNew([], Fills(ChildrenOf(svg)))
  }

  /**
   * The scope of the walk: a quiet subtree and a non-element declare nothing, and the
   * children of an element other than `g` are never read.
   */
  lemma FillScope(name: string, attrs: map<string, string>, kids: seq<Node>, others: seq<Node>)
    ensures IsQuietTag(name) ==> ItemFills(Element(name, attrs, kids)) == []
    ensures name != "g" ==> ItemFills(Element(name, attrs, kids)) == ItemFills(Element(name, attrs, others))
    ensures ItemFills(NonElement) == []
  {
  }

  /** Reading at most one colour. */
  lemma AddNewOption(acc: seq<string>, o: Option<string>)
    ensures AddNew(acc, OptionSeq(o)) == if o.Some? && o.value !in acc then acc + [o.value] else acc
  {
    if o.Some? {
      assert [o.value][1..] == [];
    }
  }

  /** The declarations read at one child, one case per kind of child. */
  lemma ItemFillsOf(n: Node)
    ensures ItemFills(n) == if n.Element? && !IsQuietTag(n.name)
                            then OptionSeq(StyleFill(n)) + (if n.name == "g" then Fills(n.children) else [])
                            else []
  {
  }

  /** The walk over the first `i + 1` children reads the first `i`, then child `i`. */
  lemma FillsStep(cs: seq<Node>, i: nat)
    requires i < |cs|
    ensures Fills(cs[..i + 1]) == Fills(cs[..i]) + ItemFills(cs[i])
  {
    assert Fills([cs[i]]) == ItemFills(cs[i]) by {
      assert [cs[i]][1..] == [];
    }
    assert cs[..i + 1] == cs[..i] + [cs[i]];
    FillsAppend(cs[..i], [cs[i]]);
  }

  /**
   * `findAllFillColors(node, colors)`: visits the children of `node` in order, pushes the
   * fill of each visible element's style if new, and recurses into `g` elements with the
   * same list.
   */
  method FindAllFillColors(node: Node, colors: seq<string>) returns (r: seq<string>)
    requires node.Element?
    ensures r == AddNew(colors, Fills(node.children))
    decreases node
  {
    r := colors;
    ghost var read: seq<string> := [];
    var i := 0;
    while i < |node.children|
      invariant 0 <= i <= |node.children|
      invariant read == Fills(node.children[..i])
      invariant r == AddNew(colors, read)
    {
      var item := node.children[i];
      ghost var before := r;
      ItemFillsOf(item);
      if item.Element? && !IsQuietTag(item.name) {
        var m := StyleFill(item);
        AddNewOption(before, m);
        if m.Some? && m.value !in r {
          r := r + [m.value];
        }
        assert r == AddNew(before, OptionSeq(m));
        if item.name == "g" {
          r := FindAllFillColors(item, r);
          AddNewAppend(before, OptionSeq(m), Fills(item.children));
        } else {
          assert ItemFills(item) == OptionSeq(m) + [] == OptionSeq(m);
        }
      } else {
        assert ItemFills(item) == [];
      }
      assert r == AddNew(before, ItemFills(item));
      FillsStep(node.children, i);
      AddNewAppend(colors, read, ItemFills(item));
      read := read + ItemFills(item);
      i := i + 1;
    }
    assert node.children[..i] == node.children;
  }
}
