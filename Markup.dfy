/** `parseSVG` (tools/convert-svgs.js): strip XML declarations, take the view box
    and the markup between the outer `<svg …>` and `</svg>`, and run the three
    conversion passes over that markup. */
module Markup {
  import opened Text
  import opened Patterns
  import Attributes
  import Isolation
  import Styles

  /** The view box used when the file declares none. */
  const DefaultViewBox := "0 0 100 100"

  // ---------------------------------------------------------------------------
  // `<\?xml[^?]*\?>`

  /** Length of an XML declaration at the start of `s`: `<?xml`, then everything up
      to the first `?`, which must be followed by `>`. */
  function XmlDeclarationAt(s: string): (n: Option<nat>)
    ensures n.Some? ==> 7 <= n.value <= |s| && s[n.value - 2..n.value] == "?>"
  {
    if "<?xml" <= s then
      match IndexOf(s, '?', 5)
      case Some(j) => if j + 1 < |s| && s[j + 1] == '>' then Some(j + 2) else None
      case None => None
    else None
  }

  /** `replace(/<\?xml[^?]*\?>/g, '')`: every declaration, scanning left to right, is dropped. */
  function StripXmlDeclarations(s: string): (r: string)
    ensures |r| <= |s|
    decreases |s|
  {
    match XmlDeclarationAt(s)
    case Some(n) => StripXmlDeclarations(s[n..])
    case None => if s == [] then [] else [s[0]] + StripXmlDeclarations(s[1..])
  }

  /** A declaration at the start is removed whole: what follows its `?>` is kept. */
  lemma XmlDeclarationRemoved(body: string, rest: string)
    requires '?' !in body
    ensures StripXmlDeclarations("<?xml" + body + "?>" + rest) == StripXmlDeclarations(rest)
  {
    var s := "<?xml" + body + "?>" + rest;
    assert s[..5] == "<?xml";
    var j := 5 + |body|;
    assert s[j] == '?' && s[j + 1] == '>';
    assert s[5..j] == body;
    assert IndexOf(s, '?', 5) == Some(j);
    assert s[j + 2..] == rest;
  }

  /** Text without `<?xml` is left as it is. */
  lemma {:induction false} StripXmlAbsent(s: string)
    requires !Contains(s, "<?xml")
    ensures StripXmlDeclarations(s) == s
    decreases |s|
  {
    if s != [] {
      assert s[0..] == s;
      ContainsTail(s, "<?xml");
      StripXmlAbsent(s[1..]);
      assert [s[0]] + s[1..] == s;
    }
  }

  // ---------------------------------------------------------------------------
  // `match(/viewBox="([^"]*)"/)`

  /** The first position at or after `from` where `name="…"` matches. */
  function FirstQuoted(s: string, name: string, from: nat): (r: Option<nat>)
    requires from <= |s|
    ensures r.Some? ==> from <= r.value <= |s| && QuotedAt(s[r.value..], name).Some?
    decreases |s| - from
  {
    if QuotedAt(s[from..], name).Some? then Some(from)
    else if from == |s| then None
    else FirstQuoted(s, name, from + 1)
  }

  /** No match before the position found; none anywhere when there is none. */
  lemma {:induction false} FirstQuotedIsFirst(s: string, name: string, from: nat)
    requires from <= |s|
    ensures var r := FirstQuoted(s, name, from);
      && (r.Some? ==> forall y :: from <= y < r.value ==> QuotedAt(s[y..], name).None?)
      && (r.None? ==> forall y :: from <= y <= |s| ==> QuotedAt(s[y..], name).None?)
    decreases |s| - from
  {
    if QuotedAt(s[from..], name).None? && from < |s| {
      FirstQuotedIsFirst(s, name, from + 1);
      var r := FirstQuoted(s, name, from + 1);
      assert FirstQuoted(s, name, from) == r;
      var end := if r.Some? then r.value else |s| + 1;
      forall y | from <= y < end ensures QuotedAt(s[y..], name).None? {
        if from < y {
          assert from + 1 <= y;
        }
      }
    }
  }

  /** The value of the first `viewBox="…"`, else the default. */
  function ViewBoxOf(s: string): (r: string)
    ensures r == DefaultViewBox || '"' !in r
  {
    match FirstQuoted(s, "viewBox", 0)
    case Some(i) => QuotedAt(s[i..], "viewBox").value
    case None => DefaultViewBox
  }

  /** A file that names no view box gets `0 0 100 100`. */
  lemma {:induction false} ViewBoxDefault(s: string)
    requires !Contains(s, "viewBox=\"")
    ensures ViewBoxOf(s) == DefaultViewBox
  {
    match FirstQuoted(s, "viewBox", 0)
    case Some(i) =>
      assert QuotedAt(s[i..], "viewBox").Some?;
      ContainsAt(s, "viewBox=\"", i);
    case None =>
  }

  /** The view box is the value of the first match, and no match starts before it. */
  lemma ViewBoxIsFirst(s: string)
    requires FirstQuoted(s, "viewBox", 0).Some?
    ensures var i := FirstQuoted(s, "viewBox", 0).value;
      && QuotedAt(s[i..], "viewBox") == Some(ViewBoxOf(s))
      && forall y :: 0 <= y < i ==> QuotedAt(s[y..], "viewBox").None?
  {
    FirstQuotedIsFirst(s, "viewBox", 0);
  }

  // ---------------------------------------------------------------------------
  // `match(/<svg[^>]*>([\s\S]*)<\/svg>/)`

  const SvgOpen := "<svg"
  const SvgClose := "</svg>"

  /** The last position at or after `from` where `pattern` starts. */
  function LastFrom(s: string, from: nat, pattern: string): (r: Option<nat>)
    requires from <= |s|
    ensures r.Some? ==> from <= r.value <= |s| && pattern <= s[r.value..]
    decreases |s| - from
  {
    var later := if from < |s| then LastFrom(s, from + 1, pattern) else None;
    if later.Some? then later
    else if pattern <= s[from..] then Some(from)
    else None
  }

  /** `[\s\S]*` before the closing tag is greedy: no occurrence after the one found,
      and none at all when nothing is found. */
  lemma {:induction false} LastIsLast(s: string, from: nat, pattern: string)
    requires from <= |s|
    ensures var r := LastFrom(s, from, pattern);
      && (r.Some? ==> forall y :: r.value < y <= |s| ==> !(pattern <= s[y..]))
      && (r.None? ==> forall y :: from <= y <= |s| ==> !(pattern <= s[y..]))
    decreases |s| - from
  {
    if from < |s| {
      LastIsLast(s, from + 1, pattern);
    }
  }

  /** The regular expression tried at position `i`: the end `j` of the opening tag
      (its first `>`) and the start `k` of the last closing tag after it. */
  function SvgMatchAt(s: string, i: nat): (r: Option<(nat, nat)>)
    requires i <= |s|
    ensures r.Some? ==> i + 4 < r.value.0 <= r.value.1 <= |s|
  {
    if SvgOpen <= s[i..] then
      match IndexOf(s, '>', i + 4)
      case Some(j) =>
        (match LastFrom(s, j + 1, SvgClose)
         case Some(k) => Some((j + 1, k))
         case None => None)
      case None => None
    else None
  }

  /** The captured body of the first position where the expression matches. */
  function SvgBody(s: string, i: nat): (r: Option<string>)
    requires i <= |s|
    decreases |s| - i
  {
    match SvgMatchAt(s, i)
    case Some(jk) => Some(s[jk.0..jk.1])
    case None => if i == |s| then None else SvgBody(s, i + 1)
  }

  /** The captured body is bounded by an opening tag whose attributes hold no `>`
      and by the LAST closing tag after it. */
  lemma SvgMatchShape(s: string, i: nat)
    requires i <= |s| && SvgMatchAt(s, i).Some?
    ensures var (j, k) := SvgMatchAt(s, i).value;
      && SvgOpen <= s[i..] && s[j - 1] == '>' && '>' !in s[i + 4..j - 1]
      && SvgClose <= s[k..] && forall y :: k < y <= |s| ==> !(SvgClose <= s[y..])
  {
    assert SvgOpen <= s[i..];
    var j := IndexOf(s, '>', i + 4).value;
    LastIsLast(s, j + 1, SvgClose);
  }

  /** Without `<svg` anywhere there is no body. */
  lemma {:induction false} NoSvgNoBody(s: string, i: nat)
    requires i <= |s| && forall y :: i <= y <= |s| ==> !(SvgOpen <= s[y..])
    ensures SvgBody(s, i) == None
    decreases |s| - i
  {
    if i < |s| {
      NoSvgNoBody(s, i + 1);
    }
  }

  /** Without a `</svg>` after any `<svg` there is no body either: the greedy
      capture needs a closing tag after the opening one. */
  lemma {:induction false} NoCloseNoBody(s: string, i: nat)
    requires i <= |s|
    requires forall y, z :: i <= y < z <= |s| && SvgOpen <= s[y..] ==> !(SvgClose <= s[z..])
    ensures SvgBody(s, i) == None
    decreases |s| - i
  {
    if SvgOpen <= s[i..] {
      var j := IndexOf(s, '>', i + 4);
      if j.Some? {
        assert LastFrom(s, j.value + 1, SvgClose).None?;
      }
    }
    assert SvgMatchAt(s, i).None?;
    if i < |s| {
      NoCloseNoBody(s, i + 1);
    }
  }

  /** `contentMatch ? contentMatch[1].trim() : ''`. */
  function InnerMarkup(s: string): string {
    match SvgBody(s, 0)
    case Some(b) => Trim(b)
    case None => []
  }

  /** What `parseSVG` returns. */
  datatype Parsed = Parsed(viewBox: string, innerContent: string)

  /** The three conversion passes in the order `parseSVG` applies them. */
  function ConvertMarkup(inner: string): string {
    Styles.ConvertStyleAttributes(
      Isolation.CssConverted(Attributes.RenameAll(inner, Attributes.AttributeTable)))
  }

  /** `parseSVG`. */
  method ParseSvg(svgContent: string) returns (p: Parsed)
    ensures p.viewBox == ViewBoxOf(StripXmlDeclarations(svgContent))
    ensures p.innerContent == ConvertMarkup(InnerMarkup(StripXmlDeclarations(svgContent)))
    ensures p.viewBox == DefaultViewBox || '"' !in p.viewBox
  {
    var content := StripXmlDeclarations(svgContent);
    var viewBox := ViewBoxOf(content);
    var innerContent := InnerMarkup(content);
    innerContent := Attributes.ConvertSvgAttributes(innerContent);
    innerContent := Isolation.ConvertCssAttributes(innerContent);
    innerContent := Styles.ConvertStyleAttributes(innerContent);
    p := Parsed(viewBox, innerContent);
  }

  /** The passes map empty markup to empty markup. */
  lemma ConvertEmpty()
    ensures ConvertMarkup([]) == []
  {
    forall i | 0 <= i < |Attributes.AttributeTable|
      ensures !Contains([], Attributes.AttributeTable[i].0)
    {
      assert Attributes.AttributeTable[i].0 != [];
    }
    Attributes.RenameAllAbsent([], Attributes.AttributeTable);
    assert !Contains([], Isolation.Isolate);
    Isolation.ConvertAbsent([]);
    assert !Contains([], "style=\"");
    Styles.ConvertStyleAbsent([]);
  }

  /** A file where the expression finds no match, for instance one without
      `<svg` (`NoSvgNoBody`) or without a `</svg>` after it (`NoCloseNoBody`),
      yields empty content rather than an error. */
  lemma NoSvgEmptyContent(s: string)
    requires SvgBody(StripXmlDeclarations(s), 0).None?
    ensures InnerMarkup(StripXmlDeclarations(s)) == []
    ensures ConvertMarkup(InnerMarkup(StripXmlDeclarations(s))) == []
  {
    ConvertEmpty();
  }
}
