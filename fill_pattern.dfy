/**
 * The fill-colour extraction both SVG walkers apply to a `style` attribute: the regular
 * expression `/fill:\s*([^\s;]+)[\s;]/i`, used with `String.prototype.match` (no `g`
 * flag), so only the leftmost match counts and its first group is the colour.
 */
module FillPattern {
  import opened Js

  /** A character that may end the colour value: whitespace or `;`. */
  predicate IsTerminator(c: char) { IsSpace(c) || c == ';' }

  /** A character of the colour value: `[^\s;]`. */
  predicate IsValueChar(c: char) { !IsTerminator(c) }

  /** `fill:` at position `p`; the `i` flag lets the letters match in either case. */
  predicate KeywordAt(s: string, p: nat) {
    && p + 5 <= |s|
    && (s[p] == 'f' || s[p] == 'F')
    && (s[p + 1] == 'i' || s[p + 1] == 'I')
    && (s[p + 2] == 'l' || s[p + 2] == 'L')
    && (s[p + 3] == 'l' || s[p + 3] == 'L')
    && s[p + 4] == ':'
  }

  /** The end of the longest run of whitespace starting at `q` (the greedy `\s*`). */
  function SkipSpaces(s: string, q: nat): (r: nat)
    requires q <= |s|
    ensures q <= r <= |s|
    ensures forall i :: q <= i < r ==> IsSpace(s[i])
    ensures r < |s| ==> !IsSpace(s[r])
    decreases |s| - q
  {
    if q < |s| && IsSpace(s[q]) then SkipSpaces(s, q + 1) else q
  }

  /** The end of the longest run of value characters starting at `q` (the greedy `[^\s;]+`). */
  function ValueEnd(s: string, q: nat): (r: nat)
    requires q <= |s|
    ensures q <= r <= |s|
    ensures forall i :: q <= i < r ==> IsValueChar(s[i])
    ensures r < |s| ==> !IsValueChar(s[r])
    decreases |s| - q
  {
    if q < |s| && IsValueChar(s[q]) then ValueEnd(s, q + 1) else q
  }

  /**
   * The expression tried at position `p` only: the captured colour, if it matches there.
   * Greedy matching without backtracking is enough, because giving back whitespace or
   * value characters can never make the next item match.
   */
  function MatchAt(s: string, p: nat): Option<string>
    requires p <= |s|
  {
    if !KeywordAt(s, p) then None
    else
      var w := SkipSpaces(s, p + 5);
      var e := ValueEnd(s, w);
      if w < e < |s| then Some(s[w..e]) else None
  }

  /**
   * Any way at all of matching at `p` with the value `c` starting at `w`: keyword,
   * whitespace, a non-empty value and one terminator character after it.
   */
  ghost predicate MatchesWith(s: string, p: nat, w: nat, c: string) {
    && KeywordAt(s, p)
    && p + 5 <= w
    && c != []
    && w + |c| < |s|
    && (forall i :: p + 5 <= i < w ==> IsSpace(s[i]))
    && s[w..w + |c|] == c
    && (forall i :: 0 <= i < |c| ==> IsValueChar(c[i]))
    && IsTerminator(s[w + |c|])
  }

  /** What `MatchAt` captures is a match in the sense of the regular expression. */
  lemma MatchAtSound(s: string, p: nat)
    requires p <= |s| && MatchAt(s, p).Some?
    ensures MatchesWith(s, p, SkipSpaces(s, p + 5), MatchAt(s, p).value)
  {
    var w := SkipSpaces(s, p + 5);
    var e := ValueEnd(s, w);
    var c := s[w..e];
    assert forall i :: 0 <= i < |c| ==> c[i] == s[w + i];
  }

  /** Every match at `p`, however the quantifiers are split, captures what `MatchAt` captures. */
  lemma MatchAtComplete(s: string, p: nat, w: nat, c: string)
    requires p <= |s| && MatchesWith(s, p, w, c)
    ensures MatchAt(s, p) == Some(c)
  {
    var w0 := SkipSpaces(s, p + 5);
    assert forall i :: 0 <= i < |c| ==> s[w + i] == c[i];
    assert s[w] == c[0] && !IsSpace(s[w]);
    if w < w0 || w0 < w {
      assert false;
    }
    var e := ValueEnd(s, w);
    if e < w + |c| {
      assert false;
    }
  }

  /** The leftmost match of the expression in `s` lies at `p` and captures `c`. */
  ghost predicate LeftmostAt(s: string, p: nat, c: string) {
    p <= |s| && MatchAt(s, p) == Some(c) && forall j :: 0 <= j < p ==> MatchAt(s, j).None?
  }

  /** The colour of the first match at `p` or after it. */
  function FirstMatchFrom(s: string, p: nat): Option<string>
    requires p <= |s|
    decreases |s| - p
  {
    var m := MatchAt(s, p);
    if m.Some? then m
    else if p == |s| then None
    else FirstMatchFrom(s, p + 1)
  }

  /** The search from `p` finds the first position at or after `p` where the expression matches. */
  lemma FirstMatchFromMeaning(s: string, p: nat)
    requires p <= |s|
    ensures FirstMatchFrom(s, p).Some? ==>
              exists q :: p <= q <= |s| && MatchAt(s, q) == FirstMatchFrom(s, p)
                          && forall j :: p <= j < q ==> MatchAt(s, j).None?
    ensures FirstMatchFrom(s, p).None? ==> forall q :: p <= q <= |s| ==> MatchAt(s, q).None?
  {
    var q := FirstMatchPosition(s, p);
    FirstMatchFromNone(s, p);
  }

  /** Where the search from `p` stops, when it finds a match. */
  lemma {:induction false} FirstMatchPosition(s: string, p: nat) returns (q: nat)
    requires p <= |s|
    ensures FirstMatchFrom(s, p).Some? ==>
              p <= q <= |s| && MatchAt(s, q) == FirstMatchFrom(s, p) && forall j :: p <= j < q ==> MatchAt(s, j).None?
    decreases |s| - p
  {
    q := p;
    if MatchAt(s, p).None? && p < |s| {
      q := FirstMatchPosition(s, p + 1);
    }
  }

  /** A search that finds nothing has passed only positions where the expression does not match. */
  lemma {:induction false} FirstMatchFromNone(s: string, p: nat)
    requires p <= |s|
    ensures FirstMatchFrom(s, p).None? ==> forall q :: p <= q <= |s| ==> MatchAt(s, q).None?
    decreases |s| - p
  {
    if MatchAt(s, p).None? && p < |s| {
      FirstMatchFromNone(s, p + 1);
    }
  }

  /**
   * `style.match(/fill:\s*([^\s;]+)[\s;]/i)[1]`, or `None` where `match` returns null.
   */
  function ExtractFill(style: string): Option<string> {
    FirstMatchFrom(style, 0)
  }

  /**
   * The colour of the leftmost match, which is never empty and holds no whitespace or
   * `;`; no colour exactly when the expression matches nowhere.
   */
  lemma ExtractFillMeaning(style: string)
    ensures var r := ExtractFill(style);
            && (r.Some? ==> exists p :: LeftmostAt(style, p, r.value))
            && (r.None? <==> forall p :: 0 <= p <= |style| ==> MatchAt(style, p).None?)
            && (r.Some? ==> r.value != [] && forall i :: 0 <= i < |r.value| ==> IsValueChar(r.value[i]))
  {
    var r := FirstMatchFrom(style, 0);
    FirstMatchFromMeaning(style, 0);
    if r.Some? {
      var p :| 0 <= p <= |style| && MatchAt(style, p) == r && forall j :: 0 <= j < p ==> MatchAt(style, j).None?;
      MatchAtSound(style, p);
      assert LeftmostAt(style, p, r.value);
    }
  }

  /** The terminator is required: a style with no whitespace and no `;` never yields a colour. */
  lemma {:induction false} NoTerminatorNoFill(style: string)
    requires forall i :: 0 <= i < |style| ==> !IsTerminator(style[i])
    ensures ExtractFill(style) == None
  {
    forall p | 0 <= p <= |style|
      ensures MatchAt(style, p).None?
    {
      if MatchAt(style, p).Some? {
        MatchAtSound(style, p);
      }
    }
    ExtractFillMeaning(style);
  }

  /**
   * A declaration at the very end of a style, its value followed by neither whitespace
   * nor `;` (as in `fill:#fff`), declares nothing.
   */
  lemma FillAtEndIgnored(color: string)
    requires forall i :: 0 <= i < |color| ==> IsValueChar(color[i])
    ensures ExtractFill("fill:" + color) == None
  {
    var s := "fill:" + color;
    KeywordNoTerminator();
    forall i | 0 <= i < |s|
      ensures !IsTerminator(s[i])
    {
      if i < 5 {
        assert s[i] == "fill:"[i];
      } else {
        assert s[i] == color[i - 5];
      }
    }
    NoTerminatorNoFill(s);
  }

  lemma KeywordNoTerminator()
    ensures forall i :: 0 <= i < 5 ==> !IsTerminator("fill:"[i])
  {
  }

  /** Only the first declaration counts, and the property name is matched in any case. */
  lemma FirstDeclarationWins()
    ensures ExtractFill("FILL: red;fill:blue;") == Some("red")
  {
    var s := "FILL: red;fill:blue;";
    assert s[6..9] == "red";
    assert MatchesWith(s, 0, 6, "red");
    MatchAtComplete(s, 0, 6, "red");
  }
}
