/** Pieces of the regular expressions that the conversion passes of
    tools/convert-svgs.js share, each tried at the start of a text. */
module Patterns {
  import opened Text

  /** `name="([^"]*)"` at the start of `s`: the captured value. The pattern matches
      exactly when `name="` is followed, somewhere later, by a closing quote; the
      value is everything up to the first one. */
  function QuotedAt(s: string, name: string): (r: Option<string>)
    ensures r.Some? ==> QuotedLength(name, r.value) <= |s|
  {
    var k := |name| + 2;
    if name + "=\"" <= s then
      match IndexOf(s, '"', k)
      case Some(j) => Some(s[k..j])
      case None => None
    else None
  }

  /** The pattern matches exactly when `name="` is followed, somewhere later, by a
      closing quote, and then the match is `name="`, a quote-free value and `"`. */
  lemma QuotedAtMeaning(s: string, name: string)
    ensures var r := QuotedAt(s, name);
      && (r.Some? <==> name + "=\"" <= s && '"' in s[|name| + 2..])
      && (r.Some? ==> '"' !in r.value && name + "=\"" + r.value + "\"" <= s)
  {
    var k := |name| + 2;
    if name + "=\"" <= s {
      match IndexOf(s, '"', k)
      case Some(j) =>
        assert s[..j + 1] == s[..k] + s[k..j] + "\"";
      case None =>
    }
  }

  /** Length of a whole `name="value"` match. */
  function QuotedLength(name: string, value: string): nat {
    |name| + |value| + 3
  }

  /** The value is captured up to, and not beyond, its closing quote. */
  lemma QuotedOf(s: string, name: string, v: string, rest: string)
    requires '"' !in v
    requires s == name + "=\"" + v + "\"" + rest
    ensures QuotedAt(s, name) == Some(v)
    ensures s[QuotedLength(name, v)..] == rest
  {
    var k := |name| + 2;
    assert s[..k] == name + "=\"";
    assert s[k..] == v + "\"" + rest;
    assert s[k + |v|] == s[k..][|v|];
    assert s[k..k + |v|] == v;
    assert s[k + |v| + 1..] == rest;
  }

  /** A text that starts with `name="v"` matches with the value `v`. */
  lemma QuotedPrefix(s: string, name: string, v: string)
    requires '"' !in v && QuotedLength(name, v) <= |s|
    requires s[..QuotedLength(name, v)] == name + "=\"" + v + "\""
    ensures QuotedAt(s, name) == Some(v)
  {
    var e := QuotedLength(name, v);
    assert s == s[..e] + s[e..];
    QuotedOf(s, name, v, s[e..]);
  }

  /** Length of the run of white space (`\s+` taken greedily) starting at `from`. */
  function SpaceRun(s: string, from: nat): (n: nat)
    requires from <= |s|
    ensures from + n <= |s|
    decreases |s| - from
  {
    if from < |s| && IsSpace(s[from]) then 1 + SpaceRun(s, from + 1) else 0
  }

  /** The run is all white space and cannot be extended. */
  lemma {:induction false} SpaceRunIsMaximal(s: string, from: nat)
    requires from <= |s|
    ensures forall i :: from <= i < from + SpaceRun(s, from) ==> IsSpace(s[i])
    ensures from + SpaceRun(s, from) == |s| || !IsSpace(s[from + SpaceRun(s, from)])
    decreases |s| - from
  {
    if from < |s| && IsSpace(s[from]) {
      SpaceRunIsMaximal(s, from + 1);
    }
  }

  /** `([^>]*?)P`: the first position `x` at or after `from`, before any `>`, at
      which the text continues with `pattern`. */
  function FindBeforeTagEnd(s: string, from: nat, pattern: string): (r: Option<nat>)
    requires from <= |s|
    ensures r.Some? ==> from <= r.value <= |s| && pattern <= s[r.value..]
    decreases |s| - from
  {
    if pattern <= s[from..] then Some(from)
    else if from == |s| || s[from] == '>' then None
    else FindBeforeTagEnd(s, from + 1, pattern)
  }

  /** No `>` lies in `s[from..y]`. */
  predicate NoTagEnd(s: string, from: nat, y: nat)
    requires from <= y <= |s|
  {
    forall i :: from <= i < y ==> s[i] != '>'
  }

  /** The position found is the first one where the pattern starts, and no `>`
      lies before it; when none is found, the pattern starts nowhere before the
      first `>`. */
  lemma {:induction false} FindIsFirst(s: string, from: nat, pattern: string)
    requires from <= |s|
    ensures var r := FindBeforeTagEnd(s, from, pattern);
      && (r.Some? ==> NoTagEnd(s, from, r.value) && forall y :: from <= y < r.value ==> !(pattern <= s[y..]))
      && (r.None? ==> forall y :: from <= y <= |s| && NoTagEnd(s, from, y) ==> !(pattern <= s[y..]))
    decreases |s| - from
  {
    if !(pattern <= s[from..]) && from < |s| && s[from] != '>' {
      FindIsFirst(s, from + 1, pattern);
      var r := FindBeforeTagEnd(s, from + 1, pattern);
      assert FindBeforeTagEnd(s, from, pattern) == r;
      if r.Some? {
        forall y | from <= y < r.value ensures !(pattern <= s[y..]) {
          if from < y { assert from + 1 <= y; }
        }
      } else {
        forall y | from <= y <= |s| && NoTagEnd(s, from, y) ensures !(pattern <= s[y..]) {
          if from < y { assert NoTagEnd(s, from + 1, y); }
        }
      }
    } else if !(pattern <= s[from..]) {
      assert FindBeforeTagEnd(s, from, pattern).None?;
      forall y | from < y <= |s| ensures !NoTagEnd(s, from, y) {
        assert s[from] == '>';
      }
    }
  }

  /** When the pattern starts nowhere before the first `>`, the lazy scan fails. */
  lemma {:induction false} FindNone(s: string, from: nat, pattern: string)
    requires from <= |s|
    requires forall y :: from <= y <= |s| && NoTagEnd(s, from, y) ==> !(pattern <= s[y..])
    ensures FindBeforeTagEnd(s, from, pattern) == None
    decreases |s| - from
  {
    assert NoTagEnd(s, from, from);
    if from < |s| && s[from] != '>' {
      forall y | from + 1 <= y <= |s| && NoTagEnd(s, from + 1, y) ensures !(pattern <= s[y..]) {
        assert NoTagEnd(s, from, y);
      }
      FindNone(s, from + 1, pattern);
    }
  }

  lemma {:induction false} SpaceRunOf(s: string, from: nat, n: nat)
    requires from + n <= |s|
    requires forall i :: from <= i < from + n ==> IsSpace(s[i])
    requires from + n == |s| || !IsSpace(s[from + n])
    ensures SpaceRun(s, from) == n
    decreases n
  {
    if n > 0 {
      SpaceRunOf(s, from + 1, n - 1);
    }
  }

  /** The lazy scan stops at the first position where the pattern starts. */
  lemma {:induction false} FindAt(s: string, from: nat, pattern: string, x: nat)
    requires from <= x <= |s| && '>' !in s[from..x] && pattern <= s[x..]
    requires forall y :: from <= y < x ==> !(pattern <= s[y..])
    ensures FindBeforeTagEnd(s, from, pattern) == Some(x)
    decreases x - from
  {
    if from < x {
      assert s[from] == s[from..x][0];
      assert s[from + 1..x] == s[from..x][1..];
      FindAt(s, from + 1, pattern, x);
    }
  }

  /** A pattern that starts a text, and is no longer than a prefix of it, starts
      that prefix. */
  lemma PrefixOfPrefix(p: string, a: string, b: string)
    requires |p| <= |a|
    ensures p <= a + b ==> p <= a
  {
    assert (a + b)[..|p|] == a[..|p|];
  }

  /** The pattern starts at no position of `between`, not even one where it would
      run on into a following occurrence of itself. */
  predicate StartsNowhereIn(pattern: string, between: string) {
    forall y :: 0 <= y < |between| ==> !(pattern <= between[y..] + pattern)
  }

  /** White space from `e` to `q` that the text at `q` does not continue: the
      white-space run from `e` ends at `q`. */
  lemma SpaceRunTo(s: string, e: nat, q: nat)
    requires e <= q < |s| && AllSpace(s[e..q]) && !IsSpace(s[q])
    ensures SpaceRun(s, e) == q - e
  {
    forall i | e <= i < q ensures IsSpace(s[i]) {
      assert s[i] == s[e..q][i - e];
    }
    SpaceRunOf(s, e, q - e);
  }

  /** Attributes from `q` to `x` that contain no `>` and in which the pattern does
      not start, followed by the pattern: the lazy scan from `q` stops at `x`. */
  lemma FindAfterAt(s: string, q: nat, x: nat, pattern: string)
    requires q <= x <= |s| && '>' !in s[q..x] && pattern <= s[x..]
    requires StartsNowhereIn(pattern, s[q..x])
    ensures FindBeforeTagEnd(s, q, pattern) == Some(x)
  {
    var between := s[q..x];
    forall y | q <= y < x ensures !(pattern <= s[y..]) {
      var r := s[x + |pattern|..];
      assert s[x..] == pattern + r;
      assert s[y..] == (between[y - q..] + pattern) + r;
      PrefixOfPrefix(pattern, between[y - q..] + pattern, r);
    }
    FindAt(s, q, pattern, x);
  }
}
