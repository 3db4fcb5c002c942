/** `convertCSSAttributes` (tools/convert-svgs.js): the attribute
    `isolation="isolate"` is folded into the element's style as a leading
    `isolation: isolate; ` declaration by three global replacements applied in
    order: isolation before style, style before isolation, and a lone isolation. */
module Isolation {
  import opened Text
  import opened Patterns

  /** The attribute that React does not accept. */
  const Isolate: string := "isolation=\"isolate\""

  /** The opening of a style attribute, `style="`. */
  const StyleOpen: string := "style=\""

  /** What the third replacement writes for a lone `isolation="isolate"`. */
  const IsolateStyle: string := "style=\"isolation: isolate\""

  /** The declaration put in front of an existing style value. */
  const IsolateDeclaration: string := "isolation: isolate; "

  /** The style attribute with the isolation declaration put in front of its value. */
  function Folded(value: string): string {
    StyleOpen + IsolateDeclaration + value + "\""
  }

  /** A match found at the start of a text: its replacement and its length. */
  datatype Replacement = Replacement(text: string, length: nat)

  /** `isolation="isolate"\s+([^>]*?)style="([^"]*)"` at the start of `s`, replaced
      by `${between}style="isolation: isolate; ${styleValue}"`. The white-space run
      is taken whole, since a shorter one only moves the start of `between` into
      white space, where `style="` cannot begin. The first `style="` of the tag is
      the one used: when it has no closing quote, no later one has either. */
  function IsolationThenStyleAt(s: string): (r: Option<Replacement>)
    ensures r.Some? ==> 0 < r.value.length <= |s|
  {
    if Isolate <= s then BeforeStyle(s, |Isolate|, StyleOpen) else None
  }

  /** The rest of the first pattern once `e` characters have matched at the start:
      a white-space run, then the lazy scan to `pattern` (`style="`) and the quoted
      style value there. */
  function BeforeStyle(s: string, e: nat, pattern: string): (r: Option<Replacement>)
    requires e <= |s|
    ensures r.Some? ==> 0 < r.value.length <= |s|
  {
    var w := SpaceRun(s, e);
    var q := e + w;
    if w == 0 then None
    else
      match FindBeforeTagEnd(s, q, pattern)
      case Some(x) => StyleValueAt(s, q, x)
      case None => None
  }

  /** The end of the first pattern: the quoted style value at `x`, with the
      attributes from `q` to `x` moved in front of the folded style. */
  function StyleValueAt(s: string, q: nat, x: nat): (r: Option<Replacement>)
    requires 0 < q <= x <= |s|
    ensures r.Some? ==> 0 < r.value.length <= |s|
  {
    match QuotedAt(s[x..], "style")
    case Some(v) => Some(Replacement(s[q..x] + Folded(v), x + QuotedLength("style", v)))
    case None => None
  }

  /** The first replacement, applied globally from left to right. */
  function FoldIsolationBeforeStyle(s: string): string
    decreases |s|
  {
    match IsolationThenStyleAt(s)
    case Some(m) => m.text + FoldIsolationBeforeStyle(s[m.length..])
    case None => if s == [] then [] else [s[0]] + FoldIsolationBeforeStyle(s[1..])
  }

  /** `style="([^"]*)"\s+([^>]*?)isolation="isolate"` at the start of `s`, replaced
      by `style="isolation: isolate; ${styleValue}"${between}`: the white space after
      the style attribute is not part of `between` and disappears. */
  function StyleThenIsolationAt(s: string): (r: Option<Replacement>)
    ensures r.Some? ==> 0 < r.value.length <= |s|
  {
    match QuotedAt(s, "style")
    case Some(v) => AfterStyle(s, v, Isolate)
    case None => None
  }

  /** The rest of the second pattern once `style="v"` has matched at the start:
      a white-space run, then the lazy scan to `pattern`. */
  function AfterStyle(s: string, v: string, pattern: string): (r: Option<Replacement>)
    requires QuotedLength("style", v) <= |s|
    ensures r.Some? ==> 0 < r.value.length <= |s|
  {
    var e := QuotedLength("style", v);
    var w := SpaceRun(s, e);
    var q := e + w;
    if w == 0 then None
    else
      match FindBeforeTagEnd(s, q, pattern)
      case Some(x) => Some(Replacement(Folded(v) + s[q..x], x + |pattern|))
      case None => None
  }

  /** The second replacement, applied globally from left to right. */
  function FoldStyleBeforeIsolation(s: string): string
    decreases |s|
  {
    match StyleThenIsolationAt(s)
    case Some(m) => m.text + FoldStyleBeforeIsolation(s[m.length..])
    case None => if s == [] then [] else [s[0]] + FoldStyleBeforeIsolation(s[1..])
  }

  /** The third replacement: every remaining `isolation="isolate"` becomes
      `style="isolation: isolate"`. */
  function IsolationToStyle(s: string): string
    decreases |s|
  {
    if Isolate <= s then IsolateStyle + IsolationToStyle(s[|Isolate|..])
    else if s == [] then []
    else [s[0]] + IsolationToStyle(s[1..])
  }

  /** What `convertCSSAttributes` returns: the three replacements in order. */
  function CssConverted(content: string): string {
    IsolationToStyle(FoldStyleBeforeIsolation(FoldIsolationBeforeStyle(content)))
  }

  /** `convertCSSAttributes`: `content` is replaced three times, and afterwards no
      `isolation="isolate"` is left. */
  method ConvertCssAttributes(content: string) returns (r: string)
    ensures r == CssConverted(content)
    ensures !Contains(r, Isolate)
  {
    r := content;
    r := FoldIsolationBeforeStyle(r);
    r := FoldStyleBeforeIsolation(r);
    r := IsolationToStyle(r);
    ConvertLeavesNoIsolation(content);
  }

  // ---------------------------------------------------------------------------
  // No isolation attribute is left

  /** No proper suffix of the attribute starts the replacement text. */
  lemma SuffixNotReplacementStart(k: nat, x: string)
    requires 1 <= k < |Isolate|
    ensures !(Isolate[k..] <= IsolateStyle + x)
  {
    var m := if Isolate[k] == 's' then 1 else 0;
    assert Isolate[k..][m] != (IsolateStyle + x)[m];
  }

  /** The attribute neither occurs inside the replacement text nor starts in it. */
  lemma ReplacementNotOpening(j: nat, x: string)
    requires j < |IsolateStyle|
    ensures !(Isolate <= (IsolateStyle + x)[j..])
  {
    var m := if j == 7 then 9 else if j == 13 then 1 else if j == 18 then 6 else 0;
    assert (IsolateStyle + x)[j..][m] == IsolateStyle[j + m];
    assert Isolate[m] != IsolateStyle[j + m];
  }

  /** If the output of the third replacement starts with a proper suffix of the
      attribute, the input already did. */
  lemma {:induction false} SuffixComesFromInput(t: string, k: nat)
    requires 1 <= k < |Isolate|
    ensures Isolate[k..] <= IsolationToStyle(t) ==> Isolate[k..] <= t
    decreases |t|
  {
    if Isolate <= t {
      SuffixNotReplacementStart(k, IsolationToStyle(t[|Isolate|..]));
    } else if t != [] && Isolate[k..] <= IsolationToStyle(t) {
      var x := IsolationToStyle(t[1..]);
      assert IsolationToStyle(t) == [t[0]] + x;
      if k + 1 < |Isolate| {
        SuffixComesFromInput(t[1..], k + 1);
      }
      SuffixStep(Isolate, k, t, x);
    }
  }

  /** A suffix of `p` that starts `[t[0]] + x` also starts `t`, provided the next
      shorter suffix starts the rest of `t` whenever it starts `x`. */
  lemma SuffixStep(p: string, k: nat, t: string, x: string)
    requires k < |p| && t != []
    requires k + 1 < |p| && p[k + 1..] <= x ==> p[k + 1..] <= t[1..]
    ensures p[k..] <= [t[0]] + x ==> p[k..] <= t
  {
    var out := [t[0]] + x;
    if p[k..] <= out {
      assert p[k..] == [p[k]] + p[k + 1..];
      assert p[k] == out[0] == t[0];
      if k + 1 < |p| {
        assert p[k + 1..] <= x by {
          forall i | 0 <= i < |p[k + 1..]| ensures p[k + 1..][i] == x[i] {
            assert p[k..][i + 1] == out[i + 1];
          }
        }
        assert t == [t[0]] + t[1..];
      }
    }
  }

  /** After the third replacement no `isolation="isolate"` is left anywhere. */
  lemma {:induction false} NoIsolationLeft(s: string)
    ensures !Contains(IsolationToStyle(s), Isolate)
    decreases |s|
  {
    var out := IsolationToStyle(s);
    if Isolate <= s {
      var x := IsolationToStyle(s[|Isolate|..]);
      assert out == IsolateStyle + x;
      NoIsolationLeft(s[|Isolate|..]);
      forall i | 0 <= i <= |out| ensures !(Isolate <= out[i..]) {
        if i < |IsolateStyle| {
          ReplacementNotOpening(i, x);
        } else {
          assert out[i..] == x[i - |IsolateStyle|..];
        }
      }
    } else if s != [] {
      var x := IsolationToStyle(s[1..]);
      assert out == [s[0]] + x;
      NoIsolationLeft(s[1..]);
      forall i | 0 <= i <= |out| ensures !(Isolate <= out[i..]) {
        if i == 0 {
          SuffixComesFromInput(s[1..], 1);
          SuffixStep(Isolate, 0, s, x);
        } else {
          assert out[i..] == x[i - 1..];
        }
      }
    }
  }

  /** `convertCSSAttributes` leaves no `isolation="isolate"` in the markup. */
  lemma ConvertLeavesNoIsolation(content: string)
    ensures !Contains(CssConverted(content), Isolate)
  {
    NoIsolationLeft(FoldStyleBeforeIsolation(FoldIsolationBeforeStyle(content)));
  }

  // ---------------------------------------------------------------------------
  // Folding into an existing style

  /** The first replacement matches at the start once its parts have been found. */
  lemma BeforeFound(s: string, w: nat, x: nat, v: string)
    requires Isolate <= s && 0 < w && |Isolate| + w <= x <= |s|
    requires SpaceRun(s, |Isolate|) == w
    requires FindBeforeTagEnd(s, |Isolate| + w, StyleOpen) == Some(x)
    requires QuotedAt(s[x..], "style") == Some(v)
    ensures IsolationThenStyleAt(s)
      == Some(Replacement(s[|Isolate| + w..x] + Folded(v), x + QuotedLength("style", v)))
  {
    BeforeValueFound(s, |Isolate|, |Isolate| + w, x, StyleOpen);
    StyleValueFound(s, |Isolate| + w, x, v);
  }

  /** The rest of the first pattern, once the white space and the style attribute
      have been found after the first `e` characters. */
  lemma BeforeValueFound(s: string, e: nat, q: nat, x: nat, pattern: string)
    requires 0 < e < q <= x <= |s|
    requires SpaceRun(s, e) == q - e
    requires FindBeforeTagEnd(s, q, pattern) == Some(x)
    ensures BeforeStyle(s, e, pattern) == StyleValueAt(s, q, x)
  {
  }

  /** The end of the first pattern, once the style value has been found. */
  lemma StyleValueFound(s: string, q: nat, x: nat, v: string)
    requires 0 < q <= x <= |s|
    requires QuotedAt(s[x..], "style") == Some(v)
    ensures StyleValueAt(s, q, x) == Some(Replacement(s[q..x] + Folded(v), x + QuotedLength("style", v)))
  {
  }

  /** Once the first pattern matches at the start, the global replacement writes
      its replacement and goes on after the match. */
  lemma FoldBeforeMatched(s: string, m: Replacement)
    requires IsolationThenStyleAt(s) == Some(m)
    ensures FoldIsolationBeforeStyle(s) == m.text + FoldIsolationBeforeStyle(s[m.length..])
  {
  }

  /** The first replacement, once its parts have been found: the attributes between
      the two, the folded style, and the rest of the text replaced in turn. */
  lemma FoldBeforeFound(s: string, w: nat, between: string, x: nat, v: string, rest: string)
    requires Isolate <= s && 0 < w && |Isolate| + w <= x <= |s|
    requires SpaceRun(s, |Isolate|) == w
    requires FindBeforeTagEnd(s, |Isolate| + w, StyleOpen) == Some(x)
    requires s[|Isolate| + w..x] == between
    requires QuotedAt(s[x..], "style") == Some(v)
    requires x + QuotedLength("style", v) <= |s| && s[x + QuotedLength("style", v)..] == rest
    ensures FoldIsolationBeforeStyle(s) == between + Folded(v) + FoldIsolationBeforeStyle(rest)
  {
    var m := Replacement(between + Folded(v), x + QuotedLength("style", v));
    BeforeFound(s, w, x, v);
    FoldBeforeMatched(s, m);
    assert s[m.length..] == rest;
  }

  /** The second replacement matches at the start once its parts have been found:
      the style attribute up to `e`, white space up to `q`, and the isolation
      attribute at `x`. */
  lemma AfterFound(s: string, v: string, e: nat, q: nat, x: nat)
    requires QuotedAt(s, "style") == Some(v) && e == QuotedLength("style", v)
    requires e < q <= x <= |s|
    requires SpaceRun(s, e) == q - e
    requires FindBeforeTagEnd(s, q, Isolate) == Some(x)
    ensures StyleThenIsolationAt(s) == Some(Replacement(Folded(v) + s[q..x], x + |Isolate|))
  {
    AfterValueFound(s, v, e, q, x, Isolate);
  }

  /** The rest of the second pattern, once the white space (up to `q`) and the
      pattern (at `x`) have been found after the style value. */
  lemma AfterValueFound(s: string, v: string, e: nat, q: nat, x: nat, pattern: string)
    requires e == QuotedLength("style", v) && e < q <= x && x + |pattern| <= |s|
    requires SpaceRun(s, e) == q - e
    requires FindBeforeTagEnd(s, q, pattern) == Some(x)
    ensures AfterStyle(s, v, pattern) == Some(Replacement(Folded(v) + s[q..x], x + |pattern|))
  {
  }

  lemma FoldAfterMatched(s: string, m: Replacement)
    requires StyleThenIsolationAt(s) == Some(m)
    ensures FoldStyleBeforeIsolation(s) == m.text + FoldStyleBeforeIsolation(s[m.length..])
  {
  }

  /** The second replacement, once its parts have been found: the folded style, the
      attributes from `q` to `x`, and the rest of the text replaced in turn. */
  lemma FoldAfterFound(s: string, v: string, e: nat, q: nat, x: nat, rest: string)
    requires QuotedAt(s, "style") == Some(v) && e == QuotedLength("style", v)
    requires e < q <= x && x + |Isolate| <= |s|
    requires SpaceRun(s, e) == q - e
    requires FindBeforeTagEnd(s, q, Isolate) == Some(x)
    requires s[x + |Isolate|..] == rest
    ensures FoldStyleBeforeIsolation(s) == Folded(v) + s[q..x] + FoldStyleBeforeIsolation(rest)
  {
    var m := Replacement(Folded(v) + s[q..x], x + |Isolate|);
    AfterFound(s, v, e, q, x);
    FoldAfterMatched(s, m);
    assert s[m.length..] == rest;
  }

  // ---------------------------------------------------------------------------
  // Whole tags

  /** The first replacement on a tag laid out as `isolation="isolate"`, white space
      up to `q`, attributes up to `x` that hold no `>` and no `style="`, and the style
      attribute `style="v"` followed by `rest`. */
  lemma FoldBeforeLaidOut(s: string, q: nat, x: nat, v: string, rest: string)
    requires Isolate <= s && |Isolate| < q <= x < |s|
    requires AllSpace(s[|Isolate|..q]) && !IsSpace(s[q])
    requires '>' !in s[q..x] && StartsNowhereIn(StyleOpen, s[q..x])
    requires '"' !in v && s[x..] == StyleOpen + v + "\"" + rest
    ensures FoldIsolationBeforeStyle(s) == s[q..x] + Folded(v) + FoldIsolationBeforeStyle(rest)
  {
    var t := s[x..];
    assert StyleOpen == "style" + "=\"";
    QuotedOf(t, "style", v, rest);
    assert s[x + QuotedLength("style", v)..] == t[QuotedLength("style", v)..];
    SpaceRunTo(s, |Isolate|, q);
    FindAfterAt(s, q, x, StyleOpen);
    FoldBeforeFound(s, q - |Isolate|, s[q..x], x, v, rest);
  }

  /** `isolation="isolate"`, white space, attributes and then the style attribute
      of the same tag: the first replacement moves the attributes in front of the
      style attribute, puts the isolation declaration first in its value, and drops
      the isolation attribute and the white space after it. */
  lemma IsolationFoldsIntoStyle(ws: string, between: string, v: string, rest: string)
    requires ws != [] && AllSpace(ws)
    requires between == [] || !IsSpace(between[0])
    requires '>' !in between
    requires StartsNowhereIn(StyleOpen, between)
    requires '"' !in v
    ensures FoldIsolationBeforeStyle(Isolate + ws + between + (StyleOpen + v + "\"" + rest))
      == between + Folded(v) + FoldIsolationBeforeStyle(rest)
  {
    var tail := StyleOpen + v + "\"" + rest;
    var s := Isolate + ws + between + tail;
    var q := |Isolate| + |ws|;
    var x := q + |between|;
    assert Isolate <= s;
    assert s[|Isolate|..q] == ws;
    assert s[q] == if between == [] then tail[0] else between[0];
    assert s[q..x] == between;
    assert s[x..] == tail;
    FoldBeforeLaidOut(s, q, x, v, rest);
  }

  /** Through all three replacements: `isolation="isolate"` before the style
      attribute of its tag ends up as the leading declaration of that style, with
      the attributes between them kept in front of it, provided the result holds
      no other isolation attribute for the later passes to act on. */
  lemma IsolationBeforeStyleConverted(ws: string, between: string, v: string, rest: string)
    requires ws != [] && AllSpace(ws)
    requires between == [] || !IsSpace(between[0])
    requires '>' !in between
    requires StartsNowhereIn(StyleOpen, between)
    requires '"' !in v
    requires !Contains(between + Folded(v) + rest, Isolate)
    ensures CssConverted(Isolate + ws + between + (StyleOpen + v + "\"" + rest))
      == between + Folded(v) + rest
  {
    IsolationFoldsIntoStyle(ws, between, v, rest);
    var t := between + Folded(v) + rest;
    var k := |between + Folded(v)|;
    assert !Contains(rest, Isolate) by {
      assert t[k..] == rest;
      if Contains(rest, Isolate) {
        ContainsSuffix(t, Isolate, k);
      }
    }
    FoldBeforeAbsent(rest);
    FoldAfterAbsent(t);
    IsolationToStyleAbsent(t);
  }

  /** The second replacement on a tag laid out as the style attribute `style="v"`
      up to `e`, white space up to `q`, attributes up to `x` that hold no `>` and
      in which the isolation attribute does not start, then `isolation="isolate"`
      followed by `rest`. */
  lemma FoldAfterLaidOut(s: string, v: string, e: nat, q: nat, x: nat, rest: string)
    requires '"' !in v && e == QuotedLength("style", v) && e < q <= x < |s|
    requires s[..e] == StyleOpen + v + "\""
    requires AllSpace(s[e..q]) && !IsSpace(s[q])
    requires '>' !in s[q..x] && StartsNowhereIn(Isolate, s[q..x])
    requires s[x..] == Isolate + rest
    ensures FoldStyleBeforeIsolation(s) == Folded(v) + s[q..x] + FoldStyleBeforeIsolation(rest)
  {
    assert StyleOpen == "style" + "=\"";
    QuotedPrefix(s, "style", v);
    SpaceRunTo(s, e, q);
    FindAfterAt(s, q, x, Isolate);
    assert s[x + |Isolate|..] == s[x..][|Isolate|..];
    FoldAfterFound(s, v, e, q, x, rest);
  }

  /** The style attribute, white space, attributes and then `isolation="isolate"` in
      the same tag: the second replacement puts the isolation declaration first in
      the style value, keeps the attributes after it, and drops the isolation
      attribute and the white space after the style attribute. */
  lemma StyleAbsorbsIsolation(v: string, ws: string, between: string, rest: string)
    requires '"' !in v
    requires ws != [] && AllSpace(ws)
    requires between == [] || !IsSpace(between[0])
    requires '>' !in between
    requires StartsNowhereIn(Isolate, between)
    ensures FoldStyleBeforeIsolation((StyleOpen + v + "\"") + ws + between + (Isolate + rest))
      == Folded(v) + between + FoldStyleBeforeIsolation(rest)
  {
    var head := StyleOpen + v + "\"";
    var tail := Isolate + rest;
    var s := head + ws + between + tail;
    var e := |head|;
    var q := e + |ws|;
    var x := q + |between|;
    assert s[..e] == head;
    assert s[e..q] == ws;
    assert s[q] == if between == [] then tail[0] else between[0];
    assert s[q..x] == between;
    assert s[x..] == tail;
    FoldAfterLaidOut(s, v, e, q, x, rest);
  }

  /** The first replacement leaves a text alone when it matches at no position. */
  lemma {:induction false} FoldBeforeUnmatched(s: string)
    requires forall i :: 0 <= i < |s| ==> IsolationThenStyleAt(s[i..]).None?
    ensures FoldIsolationBeforeStyle(s) == s
    decreases |s|
  {
    if s != [] {
      assert s[0..] == s;
      forall i | 0 <= i < |s[1..]| ensures IsolationThenStyleAt(s[1..][i..]).None? {
        assert s[1..][i..] == s[i + 1..];
      }
      FoldBeforeUnmatched(s[1..]);
      assert [s[0]] + s[1..] == s;
    }
  }

  /** The isolation attribute does not start inside a quoted style attribute that
      white space follows: its first quote would have to be the closing one, and
      then white space would stand where `isolate` begins. */
  lemma NotInStyleAttribute(s: string, v: string, e: nat, i: nat)
    requires '"' !in v && e == QuotedLength("style", v) && i < e < |s|
    requires s[..e] == StyleOpen + v + "\"" && IsSpace(s[e])
    ensures !(Isolate <= s[i..])
  {
    var head := StyleOpen + v + "\"";
    assert forall k :: 0 <= k < e ==> s[k] == head[k];
    var j := e - 1 - i;
    // A position where the text and the attribute differ.
    var m := if i < |StyleOpen| || j == 0 then 0 else if j < 10 then j else if j == 10 then 11 else 10;
    if i < |StyleOpen| {
      assert s[i] == StyleOpen[i];
    } else if 0 < j && j != 10 {
      assert s[i + m] == if j < 10 then '"' else v[i + m - |StyleOpen|];
    }
    assert s[i..][m] != Isolate[m];
  }

  /** The first replacement matches nowhere in a tag laid out as the style
      attribute up to `e`, white space up to `q`, attributes up to `x` in which
      the isolation attribute does not start, and `isolation="isolate"` with no
      style attribute after it in the tag and no other isolation attribute after
      it. */
  lemma StyleFirstUnmatched(s: string, v: string, e: nat, q: nat, x: nat, rest: string)
    requires '"' !in v && e == QuotedLength("style", v) && e < q <= x < |s|
    requires s[..e] == StyleOpen + v + "\""
    requires AllSpace(s[e..q])
    requires StartsNowhereIn(Isolate, s[q..x])
    requires s[x..] == Isolate + rest && !Contains(rest, Isolate)
    requires forall y :: 0 <= y <= |rest| && NoTagEnd(rest, 0, y) ==> !(StyleOpen <= rest[y..])
    ensures forall i :: 0 <= i < |s| ==> IsolationThenStyleAt(s[i..]).None?
  {
    assert IsSpace(s[e]) by {
      assert s[e] == s[e..q][0];
    }
    forall i | 0 <= i < |s| ensures IsolationThenStyleAt(s[i..]).None? {
      if i < e {
        NotInStyleAttribute(s, v, e, i);
      } else if i < q {
        assert s[i] == s[e..q][i - e] && s[i..][0] == s[i];
      } else if i < x {
        BetweenNoIsolation(s, q, x, i, rest);
      } else if i == x {
        LoneIsolationUnmatched(rest);
      } else {
        AfterIsolation(s, x, i, rest);
      }
    }
  }

  /** The isolation attribute starts nowhere in attributes in which it does not
      start even running on into the one that follows them. */
  lemma BetweenNoIsolation(s: string, q: nat, x: nat, i: nat, rest: string)
    requires q <= i < x <= |s| && StartsNowhereIn(Isolate, s[q..x])
    requires s[x..] == Isolate + rest
    ensures !(Isolate <= s[i..])
  {
    var b := s[q..x][i - q..];
    assert s[i..] == (b + Isolate) + rest;
    PrefixOfPrefix(Isolate, b + Isolate, rest);
  }

  /** After a leading isolation attribute, a text without one holds none. */
  lemma AfterIsolation(s: string, x: nat, i: nat, rest: string)
    requires x < i < |s| && s[x..] == Isolate + rest && !Contains(rest, Isolate)
    ensures !(Isolate <= s[i..])
  {
    if i < x + |Isolate| {
      assert s[i..] == Isolate[i - x..] + rest;
      IsolateNoOverlap(i - x, rest);
    } else {
      assert s[i..] == rest[i - x - |Isolate|..];
    }
  }

  /** Through all three replacements: the style attribute, white space, attributes
      and then `isolation="isolate"` in one tag, with no style attribute after the
      isolation attribute in that tag, become the style attribute with the
      isolation declaration in front, followed directly by those attributes,
      provided the result holds no other isolation attribute. */
  lemma StyleBeforeIsolationConverted(v: string, ws: string, between: string, rest: string)
    requires '"' !in v
    requires ws != [] && AllSpace(ws)
    requires between == [] || !IsSpace(between[0])
    requires '>' !in between
    requires StartsNowhereIn(Isolate, between)
    requires forall y :: 0 <= y <= |rest| && NoTagEnd(rest, 0, y) ==> !(StyleOpen <= rest[y..])
    requires !Contains(Folded(v) + between + rest, Isolate)
    ensures CssConverted((StyleOpen + v + "\"") + ws + between + (Isolate + rest))
      == Folded(v) + between + rest
  {
    var head := StyleOpen + v + "\"";
    var tail := Isolate + rest;
    var s := head + ws + between + tail;
    var e := |head|;
    var q := e + |ws|;
    var x := q + |between|;
    var t := Folded(v) + between + rest;
    assert !Contains(rest, Isolate) by {
      assert t[|Folded(v) + between|..] == rest;
      if Contains(rest, Isolate) {
        ContainsSuffix(t, Isolate, |Folded(v) + between|);
      }
    }
    assert s[..e] == head;
    assert s[e..q] == ws;
    assert s[q] == if between == [] then tail[0] else between[0];
    assert s[q..x] == between;
    assert s[x..] == tail;
    StyleFirstUnmatched(s, v, e, q, x, rest);
    FoldBeforeUnmatched(s);
    FoldAfterLaidOut(s, v, e, q, x, rest);
    FoldAfterAbsent(rest);
    IsolationToStyleAbsent(t);
  }

  /** The attribute matches itself only where it starts: it does not start again
      inside itself. */
  lemma IsolateNoOverlap(j: nat, x: string)
    requires 1 <= j < |Isolate|
    ensures !(Isolate <= Isolate[j..] + x)
  {
    var m := if j == 6 then 1 else if j == 11 then 6 else 0;
    assert (Isolate[j..] + x)[m] == Isolate[j + m];
    assert Isolate[m] != Isolate[j + m];
  }

  /** After a leading attribute, a text without it holds no other. */
  lemma NoIsolationAfterFirst(rest: string)
    requires !Contains(rest, Isolate)
    ensures !Contains((Isolate + rest)[1..], Isolate)
  {
    var t := (Isolate + rest)[1..];
    var n := |Isolate| - 1;
    forall i | 0 <= i <= |t| ensures !(Isolate <= t[i..]) {
      if i < n {
        assert t[i..] == Isolate[1 + i..] + rest;
        IsolateNoOverlap(1 + i, rest);
      } else {
        assert t[i..] == rest[i - n..];
      }
    }
  }

  /** Neither folding replacement matches at an isolation attribute that no style
      attribute follows in the same tag. */
  lemma LoneIsolationUnmatched(rest: string)
    requires forall y :: 0 <= y <= |rest| && NoTagEnd(rest, 0, y) ==> !(StyleOpen <= rest[y..])
    ensures IsolationThenStyleAt(Isolate + rest) == None
    ensures StyleThenIsolationAt(Isolate + rest) == None
  {
    var s := Isolate + rest;
    NoStyleAfterIsolation(rest);
    assert Isolate <= s;
    assert s[0] == 'i' && ("style" + "=\"")[0] == 's';
  }

  /** The white space after a lone isolation attribute leads to no `style="`. */
  lemma NoStyleAfterIsolation(rest: string)
    requires forall y :: 0 <= y <= |rest| && NoTagEnd(rest, 0, y) ==> !(StyleOpen <= rest[y..])
    ensures BeforeStyle(Isolate + rest, |Isolate|, StyleOpen) == None
  {
    var s := Isolate + rest;
    var n := |Isolate|;
    var w := SpaceRun(s, n);
    if w > 0 {
      SpaceRunIsMaximal(s, n);
      assert NoTagEnd(s, n, n + w);
      NoStyleInTag(rest, n + w);
    }
  }

  /** With no `>` between the isolation attribute and `k`, the lazy scan for
      `style="` from `k` fails when none follows in the tag. */
  lemma NoStyleInTag(rest: string, k: nat)
    requires |Isolate| <= k <= |Isolate + rest| && NoTagEnd(Isolate + rest, |Isolate|, k)
    requires forall y :: 0 <= y <= |rest| && NoTagEnd(rest, 0, y) ==> !(StyleOpen <= rest[y..])
    ensures FindBeforeTagEnd(Isolate + rest, k, StyleOpen) == None
  {
    var s := Isolate + rest;
    var n := |Isolate|;
    forall y | k <= y <= |s| && NoTagEnd(s, k, y) ensures !(StyleOpen <= s[y..]) {
      assert s[y..] == rest[y - n..];
      forall i | 0 <= i < y - n ensures rest[i] != '>' {
        assert rest[i] == s[n + i];
      }
      assert NoTagEnd(rest, 0, y - n);
    }
    FindNone(s, k, StyleOpen);
  }

  /** An isolation attribute with no style attribute after it in its tag, and no
      other isolation attribute after it, becomes `style="isolation: isolate"`
      through all three replacements; the rest is left as it is. */
  lemma LoneIsolation(rest: string)
    requires !Contains(rest, Isolate)
    requires forall y :: 0 <= y <= |rest| && NoTagEnd(rest, 0, y) ==> !(StyleOpen <= rest[y..])
    ensures CssConverted(Isolate + rest) == IsolateStyle + rest
  {
    var s := Isolate + rest;
    LoneIsolationUnmatched(rest);
    NoIsolationAfterFirst(rest);
    FoldBeforeAbsent(s[1..]);
    FoldAfterAbsent(s[1..]);
    assert [s[0]] + s[1..] == s;
    assert FoldIsolationBeforeStyle(s) == s;
    assert FoldStyleBeforeIsolation(s) == s;
    assert Isolate <= s && s[|Isolate|..] == rest;
    IsolationToStyleAbsent(rest);
  }

  // ---------------------------------------------------------------------------
  // Markup without the attribute

  lemma {:induction false} FoldBeforeAbsent(s: string)
    requires !Contains(s, Isolate)
    ensures FoldIsolationBeforeStyle(s) == s
    decreases |s|
  {
    if s != [] {
      assert !(Isolate <= s[0..]);
      assert s[0..] == s;
      ContainsTail(s, Isolate);
      FoldBeforeAbsent(s[1..]);
      assert [s[0]] + s[1..] == s;
    }
  }

  lemma {:induction false} FoldAfterAbsent(s: string)
    requires !Contains(s, Isolate)
    ensures FoldStyleBeforeIsolation(s) == s
    decreases |s|
  {
    if s != [] {
      AfterMatchHasIsolation(s);
      ContainsTail(s, Isolate);
      FoldAfterAbsent(s[1..]);
      assert [s[0]] + s[1..] == s;
    }
  }

  lemma {:induction false} IsolationToStyleAbsent(s: string)
    requires !Contains(s, Isolate)
    ensures IsolationToStyle(s) == s
    decreases |s|
  {
    if s != [] {
      assert s[0..] == s;
      ContainsTail(s, Isolate);
      IsolationToStyleAbsent(s[1..]);
      assert [s[0]] + s[1..] == s;
    }
  }

  /** The second replacement only matches where the attribute occurs. */
  lemma AfterMatchHasIsolation(s: string)
    ensures StyleThenIsolationAt(s).Some? ==> Contains(s, Isolate)
  {
    match QuotedAt(s, "style") {
      case Some(v) =>
        var e := QuotedLength("style", v);
        var q := e + SpaceRun(s, e);
        match FindBeforeTagEnd(s, q, Isolate) {
          case Some(x) => ContainsAt(s, Isolate, x);
          case None =>
        }
      case None =>
    }
  }

  /** Markup without `isolation="isolate"` passes through `convertCSSAttributes`
      unchanged. */
  lemma ConvertAbsent(content: string)
    requires !Contains(content, Isolate)
    ensures CssConverted(content) == content
  {
    FoldBeforeAbsent(content);
    FoldAfterAbsent(content);
    IsolationToStyleAbsent(content);
  }
}
