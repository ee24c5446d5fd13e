/**
 * The viewport resolver (`getCoordinates`, svg-split.js): derives an icon's bounding
 * frame from the root element's `viewBox`, `x`, `y`, `width` and `height` attributes.
 * `parseFloat` is the parameter `pf`: its decimal syntax and rounding are not modelled,
 * only that it always yields a number (possibly NaN), never `undefined`.
 */
module Viewport {
  import opened Js
  import opened Dom

  type ParseFloat = string -> Number

  /** The characters the viewBox separator `/(?: *, *| +)/` is built from. */
  predicate IsSeparatorChar(c: char) { c == ' ' || c == ',' }

  /** The end of the run of U+0020 spaces starting at `q` (only the space, not `\s`). */
  function SpacesEnd(s: string, q: nat): (r: nat)
    requires q <= |s|
    ensures q <= r <= |s|
    ensures forall i :: q <= i < r ==> s[i] == ' '
    ensures r < |s| ==> s[r] != ' '
    decreases |s| - q
  {
    if q < |s| && s[q] == ' ' then SpacesEnd(s, q + 1) else q
  }

  /**
   * The separator tried exactly at `q`, returning where it ends: first the alternative
   * ` *, *` (spaces, one comma, spaces), else ` +`. Neither can match the empty string.
   */
  function SeparatorAt(s: string, q: nat): (r: Option<nat>)
    requires q < |s|
    ensures r.Some? ==> q < r.value <= |s| && forall i :: q <= i < r.value ==> IsSeparatorChar(s[i])
    ensures r.None? <==> !IsSeparatorChar(s[q])
  {
    var a := SpacesEnd(s, q);
    if a < |s| && s[a] == ',' then Some(SpacesEnd(s, a + 1))
    else if q < a then Some(a)
    else None
  }

  /**
   * `String.prototype.split` with that separator, from a token starting at `p`, the
   * scan having reached `q`: a match at `q` closes the token `s[p..q]` and the next
   * token starts where the match ends; at the end the rest is the last token.
   */
  function SplitFrom(s: string, p: nat, q: nat): seq<string>
    requires p <= q <= |s|
    decreases |s| - q
  {
    if q == |s| then [s[p..]]
    else match SeparatorAt(s, q)
      case None => SplitFrom(s, p, q + 1)
      case Some(e) => [s[p..q]] + SplitFrom(s, e, e)
  }

  /** `viewBoxAttr.split(/(?: *, *| +)/g)`. */
  function SplitViewBox(s: string): seq<string> {
    SplitFrom(s, 0, 0)
  }

  /** The characters of `s` that are not separator characters, in order. */
  function Strip(s: string): string {
    if s == [] then []
    else (if IsSeparatorChar(s[0]) then [] else [s[0]]) + Strip(s[1..])
  }

  function Concat(ts: seq<string>): string {
    if ts == [] then [] else ts[0] + Concat(ts[1..])
  }

  lemma {:induction false} StripAppend(a: string, b: string)
    ensures Strip(a + b) == Strip(a) + Strip(b)
    decreases a
  {
    if a == [] {
      assert a + b == b;
    } else {
      assert (a + b)[0] == a[0];
      assert (a + b)[1..] == a[1..] + b;
      StripAppend(a[1..], b);
    }
  }

  lemma {:induction false} StripOnly(a: string, keep: bool)
    requires forall i :: 0 <= i < |a| ==> IsSeparatorChar(a[i]) != keep
    ensures Strip(a) == if keep then a else []
    decreases a
  {
    if a != [] {
      StripOnly(a[1..], keep);
    }
  }

  /** Concatenated, the tokens give back every character of the input that is not a separator. */
  lemma {:induction false} SplitFromConcat(s: string, p: nat, q: nat)
    requires p <= q <= |s|
    requires forall i :: p <= i < q ==> !IsSeparatorChar(s[i])
    ensures Concat(SplitFrom(s, p, q)) == Strip(s[p..])
    decreases |s| - q
  {
    if q == |s| {
      StripOnly(s[p..], true);
      assert Concat([s[p..]]) == s[p..] + Concat([]);
    } else {
      match SeparatorAt(s, q)
      case None =>
        SplitFromConcat(s, p, q + 1);
      case Some(e) =>
        var rest := SplitFrom(s, e, e);
        assert SplitFrom(s, p, q) == [s[p..q]] + rest;
        calc {
          Concat([s[p..q]] + rest);
        == { assert ([s[p..q]] + rest)[1..] == rest; }
          s[p..q] + Concat(rest);
        == { SplitFromConcat(s, e, e); }
          s[p..q] + Strip(s[e..]);
        == { StripOnly(s[p..q], true); StripOnly(s[q..e], false); }
          Strip(s[p..q]) + Strip(s[q..e]) + Strip(s[e..]);
        == { StripAppend(s[p..q], s[q..e]); StripAppend(s[p..q] + s[q..e], s[e..]); }
          Strip(s[p..q] + s[q..e] + s[e..]);
        == { assert s[p..q] + s[q..e] + s[e..] == s[p..]; }
          Strip(s[p..]);
        }
    }
  }

  /** Every token is non-separator characters only, and there is at least one token. */
  lemma {:induction false} SplitFromClean(s: string, p: nat, q: nat)
    requires p <= q <= |s|
    requires forall i :: p <= i < q ==> !IsSeparatorChar(s[i])
    ensures |SplitFrom(s, p, q)| >= 1
    ensures forall k, i :: 0 <= k < |SplitFrom(s, p, q)| && 0 <= i < |SplitFrom(s, p, q)[k]| ==>
              !IsSeparatorChar(SplitFrom(s, p, q)[k][i])
    decreases |s| - q
  {
    if q < |s| {
      match SeparatorAt(s, q)
      case None =>
        SplitFromClean(s, p, q + 1);
      case Some(e) =>
        SplitFromClean(s, e, e);
        var rest := SplitFrom(s, e, e);
        forall k, i | 0 <= k < |[s[p..q]] + rest| && 0 <= i < |([s[p..q]] + rest)[k]|
          ensures !IsSeparatorChar(([s[p..q]] + rest)[k][i])
        {
          if k > 0 {
            assert ([s[p..q]] + rest)[k] == rest[k - 1];
          }
        }
    }
  }

  /** The viewBox tokens: at least one, free of separators, and together the non-separator characters. */
  lemma ViewBoxTokens(s: string)
    ensures |SplitViewBox(s)| >= 1
    ensures Concat(SplitViewBox(s)) == Strip(s)
    ensures forall k, i :: 0 <= k < |SplitViewBox(s)| && 0 <= i < |SplitViewBox(s)[k]| ==>
              !IsSeparatorChar(SplitViewBox(s)[k][i])
  {
    SplitFromConcat(s, 0, 0);
    SplitFromClean(s, 0, 0);
    assert s[0..] == s;
  }

  /** A string with neither spaces nor commas is one token: `"".split(...)` is `[""]`. */
  lemma {:induction false} NoSeparatorOneToken(s: string, p: nat, q: nat)
    requires p <= q <= |s|
    requires forall i :: q <= i < |s| ==> !IsSeparatorChar(s[i])
    ensures SplitFrom(s, p, q) == [s[p..]]
    decreases |s| - q
  {
    if q < |s| {
      NoSeparatorOneToken(s, p, q + 1);
    }
  }

  /** Scanning over non-separator characters does not change the split. */
  lemma {:induction false} SkipToken(s: string, p: nat, k: nat, q: nat)
    requires p <= k <= q <= |s|
    requires forall i :: k <= i < q ==> !IsSeparatorChar(s[i])
    ensures SplitFrom(s, p, k) == SplitFrom(s, p, q)
    decreases q - k
  {
    if k < q {
      SkipToken(s, p, k + 1, q);
    }
  }

  /** A token `s[p..q]` ended by a separator at `q`; the next token starts after it. */
  lemma TokenAt(s: string, p: nat, q: nat)
    requires p <= q < |s|
    requires forall i :: p <= i < q ==> !IsSeparatorChar(s[i])
    requires IsSeparatorChar(s[q])
    ensures SeparatorAt(s, q).Some?
    ensures SplitFrom(s, p, p) == [s[p..q]] + SplitFrom(s, SeparatorAt(s, q).value, SeparatorAt(s, q).value)
  {
    SkipToken(s, p, p, q);
  }

  /**
   * A separator at `q` after separator-free text makes that text the first token, and
   * more tokens follow; with `q == 0`, a leading space or comma yields an empty first
   * token, which counts towards the four.
   */
  lemma FirstToken(s: string, q: nat)
    requires q < |s| && IsSeparatorChar(s[q])
    requires forall i :: 0 <= i < q ==> !IsSeparatorChar(s[i])
    ensures |SplitViewBox(s)| >= 2 && SplitViewBox(s)[0] == s[..q]
  {
    TokenAt(s, 0, q);
    var e := SeparatorAt(s, q).value;
    SplitFromClean(s, e, e);
  }

  /** `viewBox[i]`: `undefined` past the end of the array. */
  function Nth(vs: seq<Number>, i: nat): Num {
    if i < |vs| then vs[i] else Undefined
  }

  /** `_.map(tokens, parseFloat)`. */
  function ParseAll(ts: seq<string>, pf: ParseFloat): seq<Number> {
    seq(|ts|, i requires 0 <= i < |ts| => pf(ts[i]))
  }

  /** The parsed viewBox array; a missing or empty attribute is split as `''`. */
  function ViewBoxValues(svg: Node, pf: ParseFloat): seq<Number> {
    ParseAll(SplitViewBox(Attr(svg, "viewBox")), pf)
  }

  /**
   * `attr[key]`: the parsed attribute when it is non-empty and does not end in `%`,
   * otherwise left `undefined` (percentages are unsupported and read as absent).
   */
  function ExplicitValue(svg: Node, key: string, pf: ParseFloat): Num {
    var v := Attr(svg, key);
    if |v| > 0 && v[|v| - 1] != '%' then pf(v) else Undefined
  }

  datatype Frame = Frame(x: Num, y: Num, width: Num, height: Num)

  datatype FrameError = ViewBoxTooShort | NegativeSize | MissingSize

  /** The messages of the `Error` objects the source creates. */
  function Message(e: FrameError): string {
    match e
    case ViewBoxTooShort => "Svg viewbox attr has less than 4 params"
    case NegativeSize => "Svg sizes can`t be negative"
    case MissingSize => "Not implemented yet. There is no width or height"
  }

  /** Each frame error has its own message, so the message tells which check failed. */
  lemma MessagesDistinct(e1: FrameError, e2: FrameError)
    ensures Message(e1) == Message(e2) <==> e1 == e2
  {
    assert |Message(ViewBoxTooShort)| == 39 && |Message(NegativeSize)| == 27 && |Message(MissingSize)| == 48;
  }

  /**
   * `getCoordinates(svg)`. The checks come in the source's order: a present viewBox
   * with fewer than four tokens, then a negative viewBox or explicit size, then, without
   * a viewBox, a size that is not truthy. With a viewBox and neither explicit size
   * truthy, the viewBox's third and fourth numbers become the size; otherwise the
   * explicit ones are kept as they are. The origin is the explicit `x`/`y` or 0.
   */
  function GetCoordinates(svg: Node, pf: ParseFloat): Result<Frame, FrameError>
  {
    var viewBoxAttr := Attr(svg, "viewBox");
    var viewBox := ViewBoxValues(svg, pf);
    if viewBoxAttr != "" && |viewBox| < 4 then Err(ViewBoxTooShort)
    else
      var width := ExplicitValue(svg, "width", pf);
      var height := ExplicitValue(svg, "height", pf);
      if IsNegative(Nth(viewBox, 2)) || IsNegative(Nth(viewBox, 3)) || IsNegative(width) || IsNegative(height) then
        Err(NegativeSize)
      else
        var x := Or(ExplicitValue(svg, "x", pf), Finite(0.0));
        var y := Or(ExplicitValue(svg, "y", pf), Finite(0.0));
        if viewBoxAttr == "" then
          if Truthy(width) && Truthy(height) then Ok(Frame(x, y, width, height)) else Err(MissingSize)
        else if !Truthy(width) && !Truthy(height) then Ok(Frame(x, y, viewBox[2], viewBox[3]))
        else Ok(Frame(x, y, width, height))
  }

  /**
   * The frame's error cases, each exactly when its condition holds, and what a frame
   * always satisfies: sizes that are not negative, a position that defaults to 0, and,
   * without a viewBox, both sizes truthy.
   */
  lemma GetCoordinatesMeaning(svg: Node, pf: ParseFloat)
    ensures var r := GetCoordinates(svg, pf);
            var tooShort := Attr(svg, "viewBox") != "" && |SplitViewBox(Attr(svg, "viewBox"))| < 4;
            && (r == Err(ViewBoxTooShort) <==> tooShort)
            && (r == Err(NegativeSize) <==>
                  !tooShort &&
                  (|| IsNegative(Nth(ViewBoxValues(svg, pf), 2)) || IsNegative(Nth(ViewBoxValues(svg, pf), 3))
                   || IsNegative(ExplicitValue(svg, "width", pf)) || IsNegative(ExplicitValue(svg, "height", pf))))
            && (r == Err(MissingSize) ==> Attr(svg, "viewBox") == "")
            && (r.Ok? ==> !IsNegative(r.value.width) && !IsNegative(r.value.height))
            && (r.Ok? ==> r.value.x == Or(ExplicitValue(svg, "x", pf), Finite(0.0))
                          && r.value.y == Or(ExplicitValue(svg, "y", pf), Finite(0.0)))
            && (r.Ok? && Attr(svg, "viewBox") == "" ==> Truthy(r.value.width) && Truthy(r.value.height))
  {
  }

  /**
   * The fallback policy: with a valid viewBox, the viewBox supplies the size exactly
   * when neither explicit size is truthy; otherwise both explicit values are kept, even
   * one that is missing.
   */
  lemma FallbackPolicy(svg: Node, pf: ParseFloat)
    requires GetCoordinates(svg, pf).Ok? && Attr(svg, "viewBox") != ""
    ensures var f := GetCoordinates(svg, pf).value;
            var w := ExplicitValue(svg, "width", pf);
            var h := ExplicitValue(svg, "height", pf);
            if !Truthy(w) && !Truthy(h)
            then f.width == pf(SplitViewBox(Attr(svg, "viewBox"))[2])
                 && f.height == pf(SplitViewBox(Attr(svg, "viewBox"))[3])
            else f.width == w && f.height == h
  {
  }

  /** Without a viewBox the explicit sizes are the frame, and both must be truthy. */
  lemma NoViewBoxNeedsBothSizes(svg: Node, pf: ParseFloat)
    requires Attr(svg, "viewBox") == ""
    requires !IsNegative(ExplicitValue(svg, "width", pf)) && !IsNegative(ExplicitValue(svg, "height", pf))
    ensures GetCoordinates(svg, pf).Ok? <==>
              Truthy(ExplicitValue(svg, "width", pf)) && Truthy(ExplicitValue(svg, "height", pf))
    ensures GetCoordinates(svg, pf).Err? ==> GetCoordinates(svg, pf).error == MissingSize
  {
    NoSeparatorOneToken("", 0, 0);
  }

  /**
   * A viewBox alone (no usable explicit size) with at least four tokens supplies the
   * size: the parsed third and fourth tokens, whatever they parse to, NaN included, as
   * long as neither is negative. The origin is the explicit `x`/`y` or 0.
   */
  lemma ViewBoxSuppliesSize(svg: Node, pf: ParseFloat)
    requires Attr(svg, "viewBox") != "" && |SplitViewBox(Attr(svg, "viewBox"))| >= 4
    requires Attr(svg, "width") == "" && Attr(svg, "height") == ""
    requires !IsNegative(pf(SplitViewBox(Attr(svg, "viewBox"))[2]))
    requires !IsNegative(pf(SplitViewBox(Attr(svg, "viewBox"))[3]))
    ensures GetCoordinates(svg, pf)
         == Ok(Frame(Or(ExplicitValue(svg, "x", pf), Finite(0.0)), Or(ExplicitValue(svg, "y", pf), Finite(0.0)),
                     pf(SplitViewBox(Attr(svg, "viewBox"))[2]), pf(SplitViewBox(Attr(svg, "viewBox"))[3])))
  {
  }

  /**
   * A percentage is read as absent: an `x`, `y`, `width` or `height` ending in `%`
   * resolves exactly as if the attribute were not there.
   */
  lemma PercentIsAbsent(name: string, attrs: map<string, string>, kids: seq<Node>, key: string, pf: ParseFloat)
    requires key in attrs && |attrs[key]| > 0 && attrs[key][|attrs[key]| - 1] == '%'
    requires key == "x" || key == "y" || key == "width" || key == "height"
    ensures GetCoordinates(Element(name, attrs, kids), pf) == GetCoordinates(Element(name, attrs - {key}, kids), pf)
  {
    var a := Element(name, attrs, kids);
    var b := Element(name, attrs - {key}, kids);
    SameExplicit(a, b, key, "x", pf);
    SameExplicit(a, b, key, "y", pf);
    SameExplicit(a, b, key, "width", pf);
    SameExplicit(a, b, key, "height", pf);
    assert Attr(a, "viewBox") == Attr(b, "viewBox");
    SameFrame(a, b, pf);
  }

  /** Dropping a percentage attribute leaves every explicit value as it was. */
  lemma SameExplicit(a: Node, b: Node, key: string, k: string, pf: ParseFloat)
    requires a.Element? && b.Element? && key in a.attrs && b.attrs == a.attrs - {key}
    requires |a.attrs[key]| > 0 && a.attrs[key][|a.attrs[key]| - 1] == '%'
    ensures ExplicitValue(a, k, pf) == ExplicitValue(b, k, pf)
  {
    if k != key {
      assert Attr(a, k) == Attr(b, k);
    }
  }

  /** The frame depends only on the viewBox text and the four explicit values. */
  lemma SameFrame(a: Node, b: Node, pf: ParseFloat)
    requires Attr(a, "viewBox") == Attr(b, "viewBox")
    requires ExplicitValue(a, "x", pf) == ExplicitValue(b, "x", pf)
    requires ExplicitValue(a, "y", pf) == ExplicitValue(b, "y", pf)
    requires ExplicitValue(a, "width", pf) == ExplicitValue(b, "width", pf)
    requires ExplicitValue(a, "height", pf) == ExplicitValue(b, "height", pf)
    ensures GetCoordinates(a, pf) == GetCoordinates(b, pf)
  {
  }

  /** Neither a viewBox nor explicit sizes: the frame cannot be resolved. */
  lemma NoDimensions(pf: ParseFloat)
    ensures GetCoordinates(Element("svg", map[], []), pf) == Err(MissingSize)
  {
    NoSeparatorOneToken("", 0, 0);
  }

  /** A negative third or fourth viewBox number is rejected, whatever the explicit sizes. */
  lemma NegativeViewBox(svg: Node, pf: ParseFloat)
    requires Attr(svg, "viewBox") != "" && |SplitViewBox(Attr(svg, "viewBox"))| >= 4
    requires IsNegative(pf(SplitViewBox(Attr(svg, "viewBox"))[2])) || IsNegative(pf(SplitViewBox(Attr(svg, "viewBox"))[3]))
    ensures GetCoordinates(svg, pf) == Err(NegativeSize)
  {
  }

  /**
   * The length check counts tokens, not numbers: whether a viewBox is too short does
   * not depend on what `parseFloat` makes of its tokens.
   */
  lemma TokensNotNumbers(svg: Node, pf: ParseFloat, pf': ParseFloat)
    ensures GetCoordinates(svg, pf) == Err(ViewBoxTooShort) <==> GetCoordinates(svg, pf') == Err(ViewBoxTooShort)
  {
  }
}
