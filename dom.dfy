/**
 * The parsed document as the SVG tools see it through xmldom: element nodes with a tag
 * name, string attributes and ordered children; every other node kind (text, comment,
 * processing instruction) is a `NonElement`, which both walkers skip.
 */
module Dom {
  import opened Js

  datatype Node =
    | Element(name: string, attrs: map<string, string>, children: seq<Node>)
    | NonElement

  /** `getAttribute(key)`: xmldom returns the empty string for a missing attribute. */
  function Attr(n: Node, key: string): string {
    if n.Element? && key in n.attrs then n.attrs[key] else ""
  }

  /** The children of a node; a non-element node has none that the walkers visit. */
  function ChildrenOf(n: Node): seq<Node> {
    if n.Element? then n.children else []
  }

  /** Some element somewhere in `ns` (at any depth) carries the tag `tag`. */
  ghost predicate HasTag(ns: seq<Node>, tag: string) {
    exists i :: 0 <= i < |ns| && ns[i].Element? && (ns[i].name == tag || HasTag(ns[i].children, tag))
  }

  /**
   * `getElementsByTagName(tag)[0]`: the first element named `tag` in document order
   * (a pre-order walk), or `None` where the source would read `undefined`.
   */
  function FirstByTag(ns: seq<Node>, tag: string): (r: Option<Node>)
    ensures r.Some? ==> r.value.Element? && r.value.name == tag
    ensures r.Some? <==> HasTag(ns, tag)
    decreases ns
  {
    if ns == [] then None
    else
      var found :=
        match ns[0]
        case NonElement => None
        case Element(name, _, kids) => if name == tag then Some(ns[0]) else FirstByTag(kids, tag);
      if found.Some? then found
      else
        var rest := FirstByTag(ns[1..], tag);
        assert HasTag(ns[1..], tag) ==> HasTag(ns, tag) by {
          if HasTag(ns[1..], tag) {
            var i :| 0 <= i < |ns[1..]| && ns[1..][i].Element? && (ns[1..][i].name == tag || HasTag(ns[1..][i].children, tag));
            assert ns[i + 1] == ns[1..][i];
          }
        }
        assert HasTag(ns, tag) ==> HasTag(ns[1..], tag) by {
          if HasTag(ns, tag) {
            var i :| 0 <= i < |ns| && ns[i].Element? && (ns[i].name == tag || HasTag(ns[i].children, tag));
            if i == 0 {
              assert false;
            }
            assert ns[1..][i - 1] == ns[i];
          }
        }
        rest
  }

  /** The elements under `ns` in document order: each element before its descendants. */
  function PreOrder(ns: seq<Node>): seq<Node>
    decreases ns, 0
  {
    if ns == [] then [] else ItemOrder(ns[0]) + PreOrder(ns[1..])
  }

  function ItemOrder(n: Node): seq<Node>
    decreases n, 1
  {
    match n
    case NonElement => []
    case Element(_, _, kids) => [n] + PreOrder(kids)
  }

  predicate Named(n: Node, tag: string) {
    n.Element? && n.name == tag
  }

  /** The first node of `xs` named `tag`, by a left-to-right scan. */
  function FirstNamed(xs: seq<Node>, tag: string): Option<Node> {
    if xs == [] then None
    else if Named(xs[0], tag) then Some(xs[0])
    else FirstNamed(xs[1..], tag)
  }

  /** Where the scan stops: the first node named `tag`, none before it; or no such node at all. */
  lemma {:induction false} FirstNamedIndex(xs: seq<Node>, tag: string) returns (k: nat)
    ensures FirstNamed(xs, tag).Some? ==>
              k < |xs| && xs[k] == FirstNamed(xs, tag).value && Named(xs[k], tag)
              && forall j :: 0 <= j < k ==> !Named(xs[j], tag)
    ensures FirstNamed(xs, tag).None? ==> forall j :: 0 <= j < |xs| ==> !Named(xs[j], tag)
    decreases |xs|
  {
    k := 0;
    if xs != [] && !Named(xs[0], tag) {
      var k' := FirstNamedIndex(xs[1..], tag);
      k := k' + 1;
      forall j | 0 < j < |xs|
        ensures xs[j] == xs[1..][j - 1]
      {
      }
    }
  }

  lemma {:induction false} FirstNamedAppend(a: seq<Node>, b: seq<Node>, tag: string)
    ensures FirstNamed(a + b, tag) == if FirstNamed(a, tag).Some? then FirstNamed(a, tag) else FirstNamed(b, tag)
    decreases |a|
  {
    if a == [] {
      assert a + b == b;
    } else {
      assert (a + b)[0] == a[0];
      assert (a + b)[1..] == a[1..] + b;
      FirstNamedAppend(a[1..], b, tag);
    }
  }

  /**
   * `getElementsByTagName(tag)[0]` is the first element named `tag` in document order:
   * the pre-order walk of `FirstByTag` finds what a scan of `PreOrder` finds.
   */
  lemma {:induction false} FirstByTagInOrder(ns: seq<Node>, tag: string)
    ensures FirstByTag(ns, tag) == FirstNamed(PreOrder(ns), tag)
    decreases ns
  {
    if ns != [] {
      FirstNamedAppend(ItemOrder(ns[0]), PreOrder(ns[1..]), tag);
      FirstByTagInOrder(ns[1..], tag);
      match ns[0]
      case NonElement =>
      case Element(_, _, kids) =>
        FirstNamedAppend([ns[0]], PreOrder(kids), tag);
        assert ([ns[0]] + PreOrder(kids))[1..] == PreOrder(kids);
        FirstByTagInOrder(kids, tag);
    }
  }
}
