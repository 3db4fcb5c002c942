/** `parseStyleAttribute` and `convertStyleAttributes` (tools/convert-svgs.js): a
    CSS declaration list becomes a JSX style object. The object is modelled as an
    association list in insertion order: assigning a property that is already there
    keeps its place and replaces its value, as a JavaScript object does for keys
    that are not integer-like. */
module Styles {
  import opened Text
  import opened Patterns
  import opened Naming

  /** The style object: property names and values, in insertion order. */
  type StyleObject = seq<(string, string)>

  /** No property name occurs twice. */
  predicate DistinctKeys(m: StyleObject) {
    forall i, j :: 0 <= i < j < |m| ==> m[i].0 != m[j].0
  }

  /** `styles[key]`. */
  function Lookup(m: StyleObject, key: string): Option<string> {
    if m == [] then None
    else if m[0].0 == key then Some(m[0].1)
    else Lookup(m[1..], key)
  }

  /** `styles[key] = value`. */
  function Put(m: StyleObject, key: string, value: string): (r: StyleObject)
    ensures |r| == |m| || |r| == |m| + 1
  {
    if m == [] then [(key, value)]
    else if m[0].0 == key then [(key, value)] + m[1..]
    else [m[0]] + Put(m[1..], key, value)
  }

  /** Assigning a property that is already present keeps it at its place and
      replaces only its value. */
  lemma {:induction false} PutKeepsPlace(m: StyleObject, i: nat, value: string)
    requires i < |m|
    requires forall j :: 0 <= j < i ==> m[j].0 != m[i].0
    ensures Put(m, m[i].0, value) == m[..i] + [(m[i].0, value)] + m[i + 1..]
    decreases i
  {
    if i > 0 {
      var t := m[1..];
      forall j | 0 <= j < i - 1 ensures t[j].0 != t[i - 1].0 {
        assert t[j] == m[j + 1];
      }
      PutKeepsPlace(t, i - 1, value);
      assert t[i - 1] == m[i];
      assert m[..i] == [m[0]] + t[..i - 1];
      assert m[i + 1..] == t[i..];
    }
  }

  /** One declaration `property: value`: both sides trimmed, the value being what
      lies between the first and the second colon; an entry only when both are
      non-empty, under the camel-cased property name. */
  function Declaration(d: string): Option<(string, string)> {
    var pieces := Split(d, ':');
    var property := Trim(pieces[0]);
    var value := if |pieces| > 1 then Trim(pieces[1]) else [];
    if property != [] && value != [] then Some((ToCamelCase(property), value)) else None
  }

  /** The object after one more declaration. */
  function Declare(m: StyleObject, d: string): StyleObject {
    match Declaration(d)
    case Some(kv) => Put(m, kv.0, kv.1)
    case None => m
  }

  /** The object built from the declarations in order. */
  function StylesOf(ds: seq<string>): StyleObject {
    if ds == [] then [] else Declare(StylesOf(ds[..|ds| - 1]), ds[|ds| - 1])
  }

  /** `.filter(d => d.trim())`: the declarations that are not blank. */
  function NonBlank(ds: seq<string>): (r: seq<string>)
    ensures |r| <= |ds|
  {
    if ds == [] then []
    else if Trim(ds[|ds| - 1]) != [] then NonBlank(ds[..|ds| - 1]) + [ds[|ds| - 1]]
    else NonBlank(ds[..|ds| - 1])
  }

  /** `parseStyleAttribute`: split on `;`, drop the blank declarations, and assign
      each one that has a property and a value. */
  method ParseStyleAttribute(styleString: string) returns (styles: StyleObject)
    ensures styles == StylesOf(Split(styleString, ';'))
    ensures DistinctKeys(styles)
  {
    var declarations := NonBlank(Split(styleString, ';'));
    styles := [];
    for i := 0 to |declarations|
      invariant styles == StylesOf(declarations[..i])
    {
      var entry := Declaration(declarations[i]);
      StylesPrefix(declarations, i);
      if entry.Some? {
        styles := Put(styles, entry.value.0, entry.value.1);
      }
    }
    assert declarations[..|declarations|] == declarations;
    ParsedStyles(Split(styleString, ';'));
  }

  /** Skipping the blank declarations changes nothing, and the object has
      distinct keys. */
  lemma ParsedStyles(ds: seq<string>)
    ensures StylesOf(NonBlank(ds)) == StylesOf(ds)
    ensures DistinctKeys(StylesOf(ds))
  {
    BlankDeclarationsIgnored(ds);
    StylesDistinct(ds);
  }

  lemma StylesPrefix(ds: seq<string>, i: nat)
    requires i < |ds|
    ensures StylesOf(ds[..i + 1]) == Declare(StylesOf(ds[..i]), ds[i])
  {
    assert ds[..i + 1][..i] == ds[..i];
  }

  // ---------------------------------------------------------------------------
  // The object: lookups, distinct keys, order

  lemma {:induction false} PutLookup(m: StyleObject, key: string, value: string, k: string)
    ensures Lookup(Put(m, key, value), k) == if k == key then Some(value) else Lookup(m, k)
  {
    if m != [] && m[0].0 != key {
      PutLookup(m[1..], key, value, k);
      assert Put(m, key, value)[1..] == Put(m[1..], key, value);
    }
  }

  /** Every key of `Put(m, key, value)` is `key` or a key of `m`, and the other way round. */
  lemma {:induction false} PutKeys(m: StyleObject, key: string, value: string)
    ensures forall i :: 0 <= i < |Put(m, key, value)| ==>
      Put(m, key, value)[i].0 == key || exists j :: 0 <= j < |m| && m[j].0 == Put(m, key, value)[i].0
  {
    if m != [] && m[0].0 != key {
      PutKeys(m[1..], key, value);
      var r := Put(m, key, value);
      forall i | 0 <= i < |r| && r[i].0 != key
        ensures exists j :: 0 <= j < |m| && m[j].0 == r[i].0
      {
        if i == 0 {
          assert m[0].0 == r[0].0;
        } else {
          assert r[i] == Put(m[1..], key, value)[i - 1];
          var j :| 0 <= j < |m[1..]| && m[1..][j].0 == r[i].0;
          assert m[j + 1].0 == r[i].0;
        }
      }
    } else if m != [] {
      var r := Put(m, key, value);
      forall i | 0 <= i < |r| && r[i].0 != key
        ensures exists j :: 0 <= j < |m| && m[j].0 == r[i].0
      {
        assert m[i].0 == r[i].0;
      }
    }
  }

  lemma {:induction false} PutDistinct(m: StyleObject, key: string, value: string)
    requires DistinctKeys(m)
    ensures DistinctKeys(Put(m, key, value))
  {
    if m != [] {
      var r := Put(m, key, value);
      if m[0].0 == key {
        forall i, j | 0 <= i < j < |r| ensures r[i].0 != r[j].0 {
          assert r[j] == m[j];
          if i > 0 { assert r[i] == m[i]; }
        }
      } else {
        PutDistinct(m[1..], key, value);
        PutKeys(m[1..], key, value);
        var t := Put(m[1..], key, value);
        assert r == [m[0]] + t;
        forall i, j | 0 <= i < j < |r| ensures r[i].0 != r[j].0 {
          if i == 0 {
            assert r[j] == t[j - 1];
            if t[j - 1].0 != key {
              var k :| 0 <= k < |m[1..]| && m[1..][k].0 == t[j - 1].0;
              assert m[k + 1].0 == t[j - 1].0;
            }
          } else {
            assert r[i] == t[i - 1] && r[j] == t[j - 1];
          }
        }
      }
    }
  }

  /** Assigning a property that is not there yet appends it. */
  lemma {:induction false} PutFresh(m: StyleObject, key: string, value: string)
    requires forall i :: 0 <= i < |m| ==> m[i].0 != key
    ensures Put(m, key, value) == m + [(key, value)]
  {
    if m != [] {
      PutFresh(m[1..], key, value);
      assert m == [m[0]] + m[1..];
    }
  }

  /** The object never holds a property twice. */
  lemma {:induction false} StylesDistinct(ds: seq<string>)
    ensures DistinctKeys(StylesOf(ds))
  {
    if ds != [] {
      StylesDistinct(ds[..|ds| - 1]);
      match Declaration(ds[|ds| - 1])
      case Some(kv) => PutDistinct(StylesOf(ds[..|ds| - 1]), kv.0, kv.1);
      case None =>
    }
  }

  /** The entries of the declarations that have a property and a value, in order. */
  function ValidPairs(ds: seq<string>): seq<(string, string)> {
    if ds == [] then []
    else
      match Declaration(ds[|ds| - 1])
      case Some(kv) => ValidPairs(ds[..|ds| - 1]) + [kv]
      case None => ValidPairs(ds[..|ds| - 1])
  }

  /** The value of the last entry with that key. */
  function LastValue(ps: seq<(string, string)>, key: string): Option<string> {
    if ps == [] then None
    else if ps[|ps| - 1].0 == key then Some(ps[|ps| - 1].1)
    else LastValue(ps[..|ps| - 1], key)
  }

  /** A repeated property takes the value of its last declaration; a property that
      no valid declaration names is absent. */
  lemma {:induction false} StylesLookup(ds: seq<string>, key: string)
    ensures Lookup(StylesOf(ds), key) == LastValue(ValidPairs(ds), key)
  {
    if ds != [] {
      var init := ds[..|ds| - 1];
      StylesLookup(init, key);
      match Declaration(ds[|ds| - 1])
      case Some(kv) =>
        PutLookup(StylesOf(init), kv.0, kv.1, key);
        assert (ValidPairs(init) + [kv])[..|ValidPairs(init)|] == ValidPairs(init);
      case None =>
    }
  }

  /** When no property is declared twice, the object lists the valid declarations
      exactly, in declaration order. */
  lemma {:induction false} StylesInOrder(ds: seq<string>)
    requires DistinctKeys(ValidPairs(ds))
    ensures StylesOf(ds) == ValidPairs(ds)
  {
    if ds != [] {
      var init := ds[..|ds| - 1];
      match Declaration(ds[|ds| - 1])
      case Some(kv) =>
        var ps := ValidPairs(init) + [kv];
        assert DistinctKeys(ValidPairs(init)) by {
          forall i, j | 0 <= i < j < |ValidPairs(init)|
            ensures ValidPairs(init)[i].0 != ValidPairs(init)[j].0
          {
            assert ps[i] == ValidPairs(init)[i] && ps[j] == ValidPairs(init)[j];
          }
        }
        StylesInOrder(init);
        forall i | 0 <= i < |ValidPairs(init)| ensures ValidPairs(init)[i].0 != kv.0 {
          assert ps[i] == ValidPairs(init)[i] && ps[|ps| - 1] == kv;
        }
        PutFresh(StylesOf(init), kv.0, kv.1);
      case None =>
        StylesInOrder(init);
    }
  }

  /** The blank declarations the source filters out contribute nothing anyway. */
  lemma {:induction false} BlankDeclarationsIgnored(ds: seq<string>)
    ensures StylesOf(NonBlank(ds)) == StylesOf(ds)
  {
    if ds != [] {
      var init, d := ds[..|ds| - 1], ds[|ds| - 1];
      BlankDeclarationsIgnored(init);
      if Trim(d) != [] {
        var nb := NonBlank(init) + [d];
        assert nb[..|nb| - 1] == NonBlank(init);
      } else {
        BlankHasNoEntry(d);
      }
    }
  }

  lemma BlankHasNoEntry(d: string)
    requires Trim(d) == []
    ensures Declaration(d) == None
  {
    var p := Split(d, ':')[0];
    assert p == d[..|p|];
    forall i | 0 <= i < |p| ensures IsSpace(p[i]) {
      assert p[i] == d[i];
    }
  }

  // ---------------------------------------------------------------------------
  // Declarations

  /** `property: value` with nothing or a further `:…` after the value: the entry is
      the camel-cased trimmed property with the trimmed value. */
  lemma DeclarationOf(p: string, v: string, more: string)
    requires ':' !in p && ':' !in v
    requires more == [] || more[0] == ':'
    requires Trim(p) != [] && Trim(v) != []
    ensures Declaration(p + ":" + v + more) == Some((ToCamelCase(Trim(p)), Trim(v)))
  {
    DeclarationPieces(p, v, more);
  }

  /** The first two pieces of `p:v` followed by nothing or by `:…`. */
  lemma DeclarationPieces(p: string, v: string, more: string)
    requires ':' !in p && ':' !in v
    requires more == [] || more[0] == ':'
    ensures var pieces := Split(p + ":" + v + more, ':');
      |pieces| > 1 && pieces[0] == p && pieces[1] == v
  {
    var b := ":" + v + more;
    assert p + ":" + v + more == p + b;
    SplitAfterPrefix(p, b, ':');
    assert b[1..] == v + more;
    SplitAfterPrefix(v, more, ':');
    if more != [] {
      assert Split(more, ':')[0] == [];
    }
  }

  /** `if (property && value)`: an empty property or an empty value, after
      trimming, gives no entry. */
  lemma EmptySideNoEntry(p: string, v: string, more: string)
    requires ':' !in p && ':' !in v
    requires more == [] || more[0] == ':'
    requires Trim(p) == [] || Trim(v) == []
    ensures Declaration(p + ":" + v + more) == None
  {
    DeclarationPieces(p, v, more);
  }

  /** Without a colon there is no value, so no entry. */
  lemma NoColonNoEntry(d: string)
    requires ':' !in d
    ensures Declaration(d) == None
  {
    SplitNoSeparator(d, ':');
  }

  // ---------------------------------------------------------------------------
  // Emission

  /** `${key}: "${value}"`. */
  function EntryText(kv: (string, string)): string {
    kv.0 + ": \"" + kv.1 + "\""
  }

  /** `style={{…}}` with the entries joined by `, `. */
  function StyleProp(m: StyleObject): string {
    "style={{" + Join(Map(EntryText, m), ", ") + "}}"
  }

  /** A style without any valid declaration becomes `style={{}}`. */
  lemma {:induction false} NoEntriesEmptyObject(ds: seq<string>)
    requires forall i :: 0 <= i < |ds| ==> Declaration(ds[i]).None?
    ensures StylesOf(ds) == []
    ensures StyleProp(StylesOf(ds)) == "style={{}}"
  {
    if ds != [] {
      NoEntriesEmptyObject(ds[..|ds| - 1]);
      assert Declaration(ds[|ds| - 1]).None?;
    }
  }

  /** `convertStyleAttributes`: every `style="…"`, scanning left to right, becomes
      the JSX object of its declarations. */
  function ConvertStyleAttributes(s: string): string
    decreases |s|
  {
    match QuotedAt(s, "style")
    case Some(v) =>
      assert QuotedLength("style", v) <= |s| by {
        assert "style" + "=\"" + v + "\"" <= s;
      }
      StyleProp(StylesOf(Split(v, ';'))) + ConvertStyleAttributes(s[QuotedLength("style", v)..])
    case None => if s == [] then [] else [s[0]] + ConvertStyleAttributes(s[1..])
  }

  /** A style attribute at the start is rewritten and the scan resumes after it. */
  lemma ConvertStyleStep(s: string, v: string, rest: string)
    requires '"' !in v
    requires s == "style" + "=\"" + v + "\"" + rest
    ensures ConvertStyleAttributes(s) == StyleProp(StylesOf(Split(v, ';'))) + ConvertStyleAttributes(rest)
  {
    QuotedOf(s, "style", v, rest);
  }

  /** Markup without `style="` is left as it is. */
  lemma {:induction false} ConvertStyleAbsent(s: string)
    requires !Contains(s, "style=\"")
    ensures ConvertStyleAttributes(s) == s
    decreases |s|
  {
    if s != [] {
      assert s[0..] == s && "style" + "=\"" == "style=\"";
      assert QuotedAt(s, "style") == None;
      ContainsTail(s, "style=\"");
      ConvertStyleAbsent(s[1..]);
      assert [s[0]] + s[1..] == s;
    }
  }
}
