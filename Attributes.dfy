/** `convertSVGAttributes` (tools/convert-svgs.js): hyphenated SVG presentation
    attributes written as `key="value"` after a white-space character become their
    React spelling, one table entry after another, each a global regular-expression
    replacement of `\s<key>="([^"]*)"` by ` <name>="$1"`. */
module Attributes {
  import opened Text

  /** The `attributeMap` table, in declaration order: hyphenated key, React name. */
  const AttributeTable: seq<(string, string)> := [
    ("stroke-width", "strokeWidth"),
    ("stroke-miterlimit", "strokeMiterlimit"),
    ("stroke-linecap", "strokeLinecap"),
    ("stroke-linejoin", "strokeLinejoin"),
    ("stroke-dasharray", "strokeDasharray"),
    ("stroke-dashoffset", "strokeDashoffset"),
    ("fill-opacity", "fillOpacity"),
    ("stroke-opacity", "strokeOpacity"),
    ("font-family", "fontFamily"),
    ("font-size", "fontSize"),
    ("font-weight", "fontWeight"),
    ("text-anchor", "textAnchor"),
    ("text-decoration", "textDecoration"),
    ("clip-path", "clipPath"),
    ("clip-rule", "clipRule"),
    ("fill-rule", "fillRule")
  ]

  /** A match of `\s<key>="([^"]*)"` at the start of the text: the captured value
      and the length of the whole match. */
  datatype AttributeMatch = AttributeMatch(value: string, length: nat)

  /** The text opens an attribute `key="`: a white-space character, the key, `="`. */
  predicate OpensAttribute(s: string, key: string) {
    |s| > 0 && IsSpace(s[0]) && key + "=\"" <= s[1..]
  }

  /** The regular expression tried at the start of `s`: it matches exactly when the
      attribute opens there and its value is closed by a later quote, and then the
      match is the white space, the key, `="`, the quote-free value and `"`. */
  function AttributeAt(s: string, key: string): (r: Option<AttributeMatch>)
    ensures r.Some? <==> OpensAttribute(s, key) && '"' in s[|key| + 3..]
    ensures r.Some? ==> |key| + 4 <= r.value.length <= |s|
  {
    var k := |key| + 3;
    if OpensAttribute(s, key) then
      match IndexOf(s, '"', k)
      case Some(j) => Some(AttributeMatch(s[k..j], j + 1))
      case None => None
    else None
  }

  /** A match is the white space, the key, `="`, a quote-free value and `"`. */
  lemma MatchShape(s: string, key: string)
    requires AttributeAt(s, key).Some?
    ensures var m := AttributeAt(s, key).value;
      '"' !in m.value && s[..m.length] == [s[0]] + key + "=\"" + m.value + "\""
  {
    var k := |key| + 3;
    var j := IndexOf(s, '"', k).value;
    assert s[1..][..k - 1] == key + "=\"";
    assert s[..j + 1] == [s[0]] + s[1..][..k - 1] + s[k..j] + "\"";
  }

  /** One global replacement: every match, scanning left to right and resuming
      after each, becomes a space, the new name, `="`, the same value and `"`. */
  function RenameAttribute(s: string, key: string, name: string): string
    decreases |s|
  {
    match AttributeAt(s, key)
    case Some(m) =>
      " " + name + "=\"" + m.value + "\"" + RenameAttribute(s[m.length..], key, name)
    case None =>
      if s == [] then [] else [s[0]] + RenameAttribute(s[1..], key, name)
  }

  /** The replacements of the first `|t|` table entries, applied in table order. */
  function RenameAll(s: string, t: seq<(string, string)>): string {
    if t == [] then s
    else RenameAttribute(RenameAll(s, t[..|t| - 1]), t[|t| - 1].0, t[|t| - 1].1)
  }

  /** `convertSVGAttributes`: the table entries are applied one after another. */
  method ConvertSvgAttributes(content: string) returns (r: string)
    ensures r == RenameAll(content, AttributeTable)
  {
    r := content;
    for i := 0 to |AttributeTable|
      invariant r == RenameAll(content, AttributeTable[..i])
    {
      var (key, name) := AttributeTable[i];
      assert AttributeTable[..i + 1][..i] == AttributeTable[..i];
      r := RenameAttribute(r, key, name);
    }
    assert AttributeTable[..|AttributeTable|] == AttributeTable;
  }

  /** Text in which the key does not occur is left as it is. */
  lemma {:induction false} RenameAbsent(s: string, key: string, name: string)
    requires !Contains(s, key)
    ensures RenameAttribute(s, key, name) == s
    decreases |s|
  {
    if |s| > 0 {
      ContainsTail(s, key);
      RenameAbsent(s[1..], key, name);
      assert [s[0]] + s[1..] == s;
    }
  }

  /** A matched attribute is rewritten with the new name and its value copied
      unchanged; the rest of the text is scanned from after the closing quote. */
  lemma RenameStep(w: char, key: string, name: string, v: string, rest: string)
    requires IsSpace(w) && '"' !in v
    ensures RenameAttribute([w] + key + "=\"" + v + "\"" + rest, key, name)
      == " " + name + "=\"" + v + "\"" + RenameAttribute(rest, key, name)
  {
    var s := [w] + key + "=\"" + v + "\"" + rest;
    var n := |key| + |v| + 4;
    MatchOf(s, w, key, v, rest);
    assert s[n..] == rest;
  }

  /** The match at the start of such a text is the whole attribute. */
  lemma MatchOf(s: string, w: char, key: string, v: string, rest: string)
    requires IsSpace(w) && '"' !in v
    requires s == [w] + key + "=\"" + v + "\"" + rest
    ensures AttributeAt(s, key) == Some(AttributeMatch(v, |key| + |v| + 4))
  {
    var k := |key| + 3;
    OpensOf(s, w, key, v + "\"" + rest);
    IndexAfterValue(s, k, v, rest);
    MatchAt(s, key, k + |v|);
  }

  /** A white-space character, the key and `="` open the attribute. */
  lemma OpensOf(s: string, w: char, key: string, tail: string)
    requires IsSpace(w) && s == [w] + key + "=\"" + tail
    ensures OpensAttribute(s, key) && s[|key| + 3..] == tail
  {
    var opening := key + "=\"";
    assert s == [w] + opening + tail;
    assert s[1..] == opening + tail;
  }

  /** The match once the attribute opens and its closing quote has been found. */
  lemma MatchAt(s: string, key: string, j: nat)
    requires OpensAttribute(s, key)
    requires |key| + 3 <= |s| && IndexOf(s, '"', |key| + 3) == Some(j)
    ensures AttributeAt(s, key) == Some(AttributeMatch(s[|key| + 3..j], j + 1))
  {
  }

  lemma IndexAfterValue(s: string, k: nat, v: string, rest: string)
    requires k <= |s| && s[k..] == v + "\"" + rest && '"' !in v
    ensures IndexOf(s, '"', k) == Some(k + |v|) && s[k..k + |v|] == v
  {
    assert s[k + |v|] == s[k..][|v|];
    assert s[k..k + |v|] == v;
  }

  /** Text in which no key of the table occurs is left as it is by all of them. */
  lemma {:induction false} RenameAllAbsent(s: string, t: seq<(string, string)>)
    requires forall i :: 0 <= i < |t| ==> !Contains(s, t[i].0)
    ensures RenameAll(s, t) == s
  {
    if t != [] {
      RenameAllAbsent(s, t[..|t| - 1]);
      RenameAbsent(s, t[|t| - 1].0, t[|t| - 1].1);
    }
  }

  /** Renaming a key to itself changes only the white-space character in front of
      each match, which becomes a space: with only spaces as white space, nothing
      changes at all. */
  lemma {:induction false} RenameToItself(s: string, key: string)
    requires forall i :: 0 <= i < |s| ==> IsSpace(s[i]) ==> s[i] == ' '
    ensures RenameAttribute(s, key, key) == s
    decreases |s|
  {
    match AttributeAt(s, key)
    case Some(m) =>
      var n := m.length;
      MatchShape(s, key);
      assert s[0] == ' ';
      RenameToItself(s[n..], key);
      assert s[..n] == " " + key + "=\"" + m.value + "\"";
      assert s[..n] + s[n..] == s;
    case None =>
      if s != [] {
        RenameToItself(s[1..], key);
        assert [s[0]] + s[1..] == s;
      }
  }

  /** `convertSVGAttributes` leaves content without any of the sixteen keys alone. */
  lemma ConvertAbsent(content: string)
    requires forall i :: 0 <= i < |AttributeTable| ==> !Contains(content, AttributeTable[i].0)
    ensures RenameAll(content, AttributeTable) == content
  {
    RenameAllAbsent(content, AttributeTable);
  }
}
