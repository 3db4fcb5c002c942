/** Names derived from an illustration's file stem: the PascalCase component
    identifier (with leading digits spelled out), the human-readable title, and the
    camelCase form of a CSS property name (tools/convert-svgs.js). */
module Naming {
  import opened Text

  predicate IsWord(w: string) {
    |w| > 0 && IsUpper(w[0]) && forall i :: 0 <= i < |w| ==> IsLetter(w[i])
  }

  /** The `numberToWord` table: the English word for a decimal digit. */
  function DigitWord(d: char): (w: string)
    requires IsDigit(d)
    ensures IsWord(w)
  {
    match d
    case '0' => "Zero" case '1' => "One" case '2' => "Two" case '3' => "Three" case '4' => "Four"
    case '5' => "Five" case '6' => "Six" case '7' => "Seven" case '8' => "Eight" case _ => "Nine"
  }

  /** Length of the run of digits at the start of `s` (what `^(\d+)` matches). */
  function LeadingDigits(s: string): (n: nat)
    ensures n <= |s|
    ensures forall i :: 0 <= i < n ==> IsDigit(s[i])
    ensures n == |s| || !IsDigit(s[n])
  {
    if s != [] && IsDigit(s[0]) then 1 + LeadingDigits(s[1..]) else 0
  }

  /** The digits spelled out one word per digit, in order. */
  function SpellDigits(ds: string): (r: string)
    requires forall i :: 0 <= i < |ds| ==> IsDigit(ds[i])
    ensures r == [] <==> ds == []
    ensures ds != [] ==> IsUpper(r[0])
    ensures forall i :: 0 <= i < |r| ==> IsLetter(r[i])
  {
    if ds == [] then [] else DigitWord(ds[0]) + SpellDigits(ds[1..])
  }

  /** `convertLeadingNumbers`: the leading digit run is spelled out, the rest is kept. */
  function ConvertLeadingNumbers(s: string): (r: string)
    ensures r == [] || !IsDigit(r[0])
    ensures (s == [] || !IsDigit(s[0])) ==> r == s
  {
    var n := LeadingDigits(s);
    SpellDigits(s[..n]) + s[n..]
  }

  /** Only the leading digit run is rewritten, into letters; everything after it is kept. */
  lemma LeadingNumbersKeepRest(s: string)
    ensures var r, n := ConvertLeadingNumbers(s), LeadingDigits(s);
      && |r| >= |s| - n && r[|r| - (|s| - n)..] == s[n..]
      && forall i :: 0 <= i < |r| - (|s| - n) ==> IsLetter(r[i])
  {
    var n := LeadingDigits(s);
    var r := SpellDigits(s[..n]) + s[n..];
    assert r[|r| - (|s| - n)..] == s[n..];
  }

  /** One token of a PascalCase name. */
  function PascalWord(w: string): string {
    Capitalize(ConvertLeadingNumbers(w))
  }

  /** `toPascalCase`: leading numbers of the whole stem are spelled out first, then
      the stem is split on `-` and every token is spelled out again and capitalised. */
  function ToPascalCase(s: string): string {
    Join(Map(PascalWord, Split(ConvertLeadingNumbers(s), '-')), "")
  }

  /** The title shared by the component and its registry entry: hyphen tokens
      capitalised and joined by single spaces; digits stay as they are. */
  function TitleOf(stem: string): string {
    Join(Map(Capitalize, Split(stem, '-')), " ")
  }

  /** `toCamelCase`: every `-x` with `x` in `a`-`z` becomes `X`, scanning left to right. */
  function ToCamelCase(s: string): (r: string)
    ensures |r| <= |s|
  {
    if |s| >= 2 && s[0] == '-' && IsLower(s[1]) then [ToUpper(s[1])] + ToCamelCase(s[2..])
    else if s == [] then []
    else [s[0]] + ToCamelCase(s[1..])
  }

  /** No `-` followed by a lower-case letter survives; a leading lower-case letter
      is the input's own; text without such a pair is unchanged. */
  lemma {:induction false} CamelCaseShape(s: string)
    ensures var r := ToCamelCase(s);
      && (forall i :: 0 <= i < |r| - 1 ==> r[i] == '-' ==> !IsLower(r[i + 1]))
      && (|r| > 0 && IsLower(r[0]) ==> |s| > 0 && s[0] == r[0])
      && ((forall i :: 0 <= i < |s| - 1 ==> s[i] == '-' ==> !IsLower(s[i + 1])) ==> r == s)
  {
    if |s| >= 2 && s[0] == '-' && IsLower(s[1]) {
      CamelCaseShape(s[2..]);
    } else if s != [] {
      CamelCaseShape(s[1..]);
      assert forall i :: 1 <= i < |s| - 1 ==> s[1..][i - 1] == s[i];
    }
  }

  /** A hyphen before a lower-case letter is dropped and the letter raised; the
      scan goes on after the letter. */
  lemma CamelCaseJoins(c: char, b: string)
    requires IsLower(c)
    ensures ToCamelCase("-" + [c] + b) == [ToUpper(c)] + ToCamelCase(b)
  {
    assert ("-" + [c] + b)[2..] == b;
  }

  /** Any other character is kept and the scan goes on with the next one. */
  lemma CamelCaseKeeps(c: char, b: string)
    requires c != '-' || b == [] || !IsLower(b[0])
    ensures ToCamelCase([c] + b) == [c] + ToCamelCase(b)
  {
    assert ([c] + b)[1..] == b;
  }

  /** A word without hyphens is kept up to a `-x`, which becomes `X`. */
  lemma {:induction false} CamelCaseAfterWord(a: string, c: char, b: string)
    requires '-' !in a && IsLower(c)
    ensures ToCamelCase(a + "-" + [c] + b) == a + [ToUpper(c)] + ToCamelCase(b)
  {
    var s := a + "-" + [c] + b;
    if a == [] {
      assert s[0] == '-' && s[1] == c && s[2..] == b;
    } else {
      var t := a[1..] + "-" + [c] + b;
      assert s[0] == a[0] && s[1..] == t;
      CamelCaseAfterWord(a[1..], c, b);
      assert ToCamelCase(s) == [a[0]] + ToCamelCase(t);
    }
  }

  /** A CSS property of the illustrations becomes its React style key. */
  lemma CamelCaseFontSize()
    ensures ToCamelCase("font-size") == "fontSize"
  {
    var word, rest := "font", "ize";
    CamelCaseAfterWord(word, 's', rest);
    assert word + "-" + ['s'] + rest == "font-size";
    assert ToUpper('s') == 'S';
    CamelCaseShape(rest);
  }

  /** Only the hyphen right before the letter goes: of `--b`, one hyphen stays. */
  lemma CamelCaseDoubleHyphen()
    ensures ToCamelCase("a--b") == "a-B"
  {
    CamelCaseJoins('b', []);
    assert ToCamelCase("-b") == "B";
    CamelCaseKeeps('-', "-b");
    CamelCaseKeeps('a', "--b");
  }

  // ---------------------------------------------------------------------------
  // Identifier synthesis

  /** The whole-stem pass of `toPascalCase` changes nothing: the name is the
      per-token conversion of the hyphen tokens of the stem. */
  lemma {:induction false} PascalCaseTokens(s: string)
    ensures ToPascalCase(s) == Join(Map(PascalWord, Split(s, '-')), "")
  {
    var n := LeadingDigits(s);
    var d, t := s[..n], s[n..];
    assert s == d + t;
    var c := ConvertLeadingNumbers(s);
    assert c == SpellDigits(d) + t;
    SplitAfterPrefix(SpellDigits(d), t, '-');
    SplitAfterPrefix(d, t, '-');
    var T := Split(t, '-');
    assert T[0] <= t;
    assert T[0] == [] || !IsDigit(T[0][0]);
    FirstTokenAgrees(d, T[0]);
    var A := [SpellDigits(d) + T[0]] + T[1..];
    var B := [d + T[0]] + T[1..];
    assert Map(PascalWord, A) == Map(PascalWord, B);
  }

  lemma FirstTokenAgrees(d: string, t: string)
    requires forall i :: 0 <= i < |d| ==> IsDigit(d[i])
    requires t == [] || !IsDigit(t[0])
    ensures PascalWord(SpellDigits(d) + t) == PascalWord(d + t)
  {
    LeadingDigitsOf(d, t);
    assert (d + t)[..|d|] == d && (d + t)[|d|..] == t;
    if d != [] {
      assert (SpellDigits(d) + t)[0] == SpellDigits(d)[0];
    }
  }

  lemma {:induction false} LeadingDigitsOf(d: string, t: string)
    requires forall i :: 0 <= i < |d| ==> IsDigit(d[i])
    requires t == [] || !IsDigit(t[0])
    ensures LeadingDigits(d + t) == |d|
  {
    if d != [] {
      assert (d + t)[1..] == d[1..] + t;
      LeadingDigitsOf(d[1..], t);
    } else {
      assert d + t == t;
    }
  }

  /** For a stem without digits the name is the plain capitalised join of its tokens. */
  lemma DigitFreePascalCase(s: string)
    requires forall i :: 0 <= i < |s| ==> !IsDigit(s[i])
    ensures ToPascalCase(s) == Join(Map(Capitalize, Split(s, '-')), "")
  {
    PascalCaseTokens(s);
    var ws := Split(s, '-');
    forall i | 0 <= i < |ws| ensures ws[i] == [] || !IsDigit(ws[i][0]) {
      if ws[i] != [] { SplitPiecesFrom(s, '-', i, 0); }
    }
    DigitFreeWords(ws);
  }

  lemma {:induction false} DigitFreeWords(ws: seq<string>)
    requires forall i :: 0 <= i < |ws| ==> ws[i] == [] || !IsDigit(ws[i][0])
    ensures Map(PascalWord, ws) == Map(Capitalize, ws)
  {
    if ws != [] {
      DigitFreeWords(ws[1..]);
      assert PascalWord(ws[0]) == Capitalize(ws[0]);
    }
  }

  /** The file name "3d-world" gives "ThreedWorld": only the first character of
      the spelled-out token is upper case. */
  lemma ThreedWorldExample()
    ensures ToPascalCase("3d-world") == "ThreedWorld"
  {
    PascalExample("3d-world", "3", "d", "world", "ThreedWorld");
  }

  /** The file name "24-hours" gives "TwoFourHours": one word per digit. */
  lemma TwoFourHoursExample()
    ensures ToPascalCase("24-hours") == "TwoFourHours"
  {
    PascalExample("24-hours", "24", "", "hours", "TwoFourHours");
  }

  /** Shape of both examples: a digit run `d` with tail `t`, a hyphen, a word. */
  lemma PascalExample(s: string, d: string, t: string, w: string, r: string)
    requires d != [] && forall i :: 0 <= i < |d| ==> IsDigit(d[i])
    requires t == [] || !IsDigit(t[0])
    requires w != [] && !IsDigit(w[0]) && '-' !in d + t && '-' !in w
    requires s == d + t + "-" + w && r == SpellDigits(d) + t + Capitalize(w)
    ensures ToPascalCase(s) == r
  {
    PascalCaseTokens(s);
    SplitTwo(d + t, w, '-');
    var m := Map(PascalWord, [d + t, w]);
    assert m[0] == PascalWord(d + t) && m[1] == PascalWord(w);
    PascalWordOfDigits(d, t);
    assert PascalWord(w) == Capitalize(w);
    JoinPair(m);
  }

  lemma JoinPair(m: seq<string>)
    requires |m| == 2
    ensures Join(m, "") == m[0] + m[1]
  {
    assert m[1..] == [m[1]];
  }

  lemma PascalWordOfDigits(d: string, t: string)
    requires d != [] && forall i :: 0 <= i < |d| ==> IsDigit(d[i])
    requires t == [] || !IsDigit(t[0])
    ensures PascalWord(d + t) == SpellDigits(d) + t
  {
    ConvertDigitsThen(d, t);
    var c := SpellDigits(d) + t;
    assert c[0] == SpellDigits(d)[0];
    CapitalizeUpper(c);
  }

  /** A digit run followed by a non-digit: exactly the run is spelled out. */
  lemma ConvertDigitsThen(d: string, t: string)
    requires forall i :: 0 <= i < |d| ==> IsDigit(d[i])
    requires t == [] || !IsDigit(t[0])
    ensures ConvertLeadingNumbers(d + t) == SpellDigits(d) + t
  {
    LeadingDigitsOf(d, t);
    assert (d + t)[..|d|] == d && (d + t)[|d|..] == t;
  }

  lemma CapitalizeUpper(c: string)
    requires c != [] && !IsLower(c[0])
    ensures Capitalize(c) == c
  {
    assert [c[0]] + c[1..] == c;
  }

  predicate IsStemChar(c: char) {
    IsLetter(c) || IsDigit(c) || c == '-'
  }

  /** A syntactically valid component type name: an upper-case ASCII letter
      followed by ASCII letters and digits. */
  predicate IsTypeName(r: string) {
    |r| > 0 && IsUpper(r[0]) && forall i :: 0 <= i < |r| ==> IsLetter(r[i]) || IsDigit(r[i])
  }

  predicate AlphaNum(w: string) {
    forall i :: 0 <= i < |w| ==> IsLetter(w[i]) || IsDigit(w[i])
  }

  /** A stem made of letters, digits and hyphens, with at least one letter or digit,
      gives a valid type name. */
  lemma PascalCaseIsTypeName(s: string)
    requires forall i :: 0 <= i < |s| ==> IsStemChar(s[i])
    requires exists i :: 0 <= i < |s| && s[i] != '-'
    ensures IsTypeName(ToPascalCase(s))
  {
    PascalCaseTokens(s);
    var ws := Split(s, '-');
    forall i | 0 <= i < |ws| ensures AlphaNum(ws[i]) {
      forall j | 0 <= j < |ws[i]| ensures IsLetter(ws[i][j]) || IsDigit(ws[i][j]) {
        SplitPiecesFrom(s, '-', i, j);
      }
    }
    var k :| 0 <= k < |s| && s[k] != '-';
    NonEmptyPiece(s, '-', k);
    var p := Map(PascalWord, ws);
    forall i | 0 <= i < |p| ensures AlphaNum(p[i]) && (p[i] == [] || IsUpper(p[i][0])) {
      PascalWordShape(ws[i]);
    }
    var i :| 0 <= i < |ws| && ws[i] != [];
    PascalWordShape(ws[i]);
    TypeNameJoin(p);
  }

  /** A non-separator character leaves some piece of the split non-empty. */
  lemma {:induction false} NonEmptyPiece(s: string, sep: char, k: nat)
    requires k < |s| && s[k] != sep
    ensures exists i :: 0 <= i < |Split(s, sep)| && Split(s, sep)[i] != []
  {
    var rest := Split(s[1..], sep);
    if s[0] == sep {
      NonEmptyPiece(s[1..], sep, k - 1);
      var i :| 0 <= i < |rest| && rest[i] != [];
      assert Split(s, sep)[i + 1] == rest[i];
    } else {
      assert Split(s, sep)[0] != [];
    }
  }

  lemma PascalWordShape(w: string)
    requires AlphaNum(w)
    ensures AlphaNum(PascalWord(w))
    ensures PascalWord(w) == [] <==> w == []
    ensures w != [] ==> IsUpper(PascalWord(w)[0])
  {
    LeadingNumbersAlphaNum(w);
    CapitalizeAlphaNum(ConvertLeadingNumbers(w));
  }

  /** Spelling out the leading digits keeps a word alphanumeric, keeps it non-empty
      and makes it start with a letter. */
  lemma LeadingNumbersAlphaNum(w: string)
    requires AlphaNum(w)
    ensures var c := ConvertLeadingNumbers(w);
      AlphaNum(c) && (c == [] <==> w == []) && (w != [] ==> IsLetter(c[0]))
  {
    var c := ConvertLeadingNumbers(w);
    var n := LeadingDigits(w);
    var spelled, rest := SpellDigits(w[..n]), w[n..];
    assert c == spelled + rest;
    assert AlphaNum(spelled);
    assert AlphaNum(rest) by {
      forall i | 0 <= i < |rest| ensures IsLetter(rest[i]) || IsDigit(rest[i]) {
        assert rest[i] == w[n + i];
      }
    }
    AlphaNumConcat(spelled, rest);
    if w != [] && n > 0 {
      assert c[0] == spelled[0];
    }
  }

  /** Capitalising an alphanumeric word keeps it alphanumeric and turns a leading
      letter upper case. */
  lemma CapitalizeAlphaNum(c: string)
    requires AlphaNum(c)
    ensures AlphaNum(Capitalize(c))
    ensures c != [] && IsLetter(c[0]) ==> IsUpper(Capitalize(c)[0])
  {
    var u := Capitalize(c);
    forall i | 0 <= i < |u| ensures IsLetter(u[i]) || IsDigit(u[i]) {
      if i > 0 { assert u[i] == c[i]; }
    }
  }

  /** Tokens made of letters and digits, each empty or starting upper case, with one
      of them non-empty, concatenate to a type name. */
  lemma {:induction false} TypeNameJoin(p: seq<string>)
    requires forall i :: 0 <= i < |p| ==> AlphaNum(p[i]) && (p[i] == [] || IsUpper(p[i][0]))
    requires exists i :: 0 <= i < |p| && p[i] != []
    ensures IsTypeName(Join(p, ""))
  {
    if |p| > 1 {
      var tail := Join(p[1..], "");
      assert Join(p, "") == p[0] + tail;
      if p[0] == [] {
        var i :| 0 <= i < |p| && p[i] != [];
        assert p[1..][i - 1] == p[i];
        TypeNameJoin(p[1..]);
        assert p[0] + tail == tail;
      } else {
        AlphaNumJoin(p[1..]);
        AlphaNumConcat(p[0], tail);
      }
    }
  }

  lemma AlphaNumConcat(a: string, b: string)
    requires AlphaNum(a) && AlphaNum(b)
    ensures AlphaNum(a + b)
  {
    forall i | 0 <= i < |a + b| ensures IsLetter((a + b)[i]) || IsDigit((a + b)[i]) {
      if i >= |a| { assert (a + b)[i] == b[i - |a|]; }
    }
  }

  lemma {:induction false} AlphaNumJoin(p: seq<string>)
    requires forall i :: 0 <= i < |p| ==> AlphaNum(p[i])
    ensures AlphaNum(Join(p, ""))
  {
    if |p| > 1 {
      AlphaNumJoin(p[1..]);
      AlphaNumConcat(p[0], Join(p[1..], ""));
    }
  }

  // ---------------------------------------------------------------------------
  // Titles

  /** Reference definition of a title, character by character: every `-` becomes
      `sep`, and the character at the start of a token is upper-cased. */
  function Spelled(s: string, atStart: bool, sep: string): string {
    if s == [] then []
    else if s[0] == '-' then sep + Spelled(s[1..], true, sep)
    else [if atStart then ToUpper(s[0]) else s[0]] + Spelled(s[1..], false, sep)
  }

  function CapitalizeIf(w: string, b: bool): string {
    if b then Capitalize(w) else w
  }

  /** Joining the capitalised tokens of a hyphenated stem is the character-wise rewrite. */
  lemma {:induction false} JoinCapitalizedIsSpelled(s: string, atStart: bool, sep: string)
    ensures var ws := Split(s, '-');
      Join([CapitalizeIf(ws[0], atStart)] + Map(Capitalize, ws[1..]), sep) == Spelled(s, atStart, sep)
  {
    var ws := Split(s, '-');
    if s == [] {
    } else if s[0] == '-' {
      var rest := Split(s[1..], '-');
      assert ws == [[]] + rest;
      assert ws[1..] == rest;
      JoinCapitalizedIsSpelled(s[1..], true, sep);
      assert [Capitalize(rest[0])] + Map(Capitalize, rest[1..]) == Map(Capitalize, rest);
      var j := Join(Map(Capitalize, rest), sep);
      assert Join([CapitalizeIf([], atStart)] + Map(Capitalize, rest), sep) == [] + sep + j;
    } else {
      var rest := Split(s[1..], '-');
      assert ws == [[s[0]] + rest[0]] + rest[1..];
      JoinCapitalizedIsSpelled(s[1..], false, sep);
      var x := if atStart then ToUpper(s[0]) else s[0];
      assert CapitalizeIf(ws[0], atStart) == [x] + rest[0];
      JoinHead([x], rest[0], Map(Capitalize, rest[1..]), sep);
    }
  }

  /** The title of a stem, character by character: hyphens become spaces and the
      first character of every token is upper-cased; nothing else changes. */
  lemma TitleIsSpelled(stem: string)
    ensures TitleOf(stem) == Spelled(stem, true, " ")
  {
    JoinCapitalizedIsSpelled(stem, true, " ");
    var ws := Split(stem, '-');
    assert [Capitalize(ws[0])] + Map(Capitalize, ws[1..]) == Map(Capitalize, ws);
  }

  lemma {:induction false} SpelledLength(s: string, atStart: bool)
    ensures |Spelled(s, atStart, " ")| == |s|
  {
    if s != [] { SpelledLength(s[1..], s[0] == '-'); }
  }

  /** A title is as long as its stem. */
  lemma TitleLength(stem: string)
    ensures |TitleOf(stem)| == |stem|
  {
    TitleIsSpelled(stem);
    SpelledLength(stem, true);
  }

  /** For a stem without spaces, the words of the title are exactly the capitalised
      hyphen tokens (no digit is spelled out). */
  lemma TitleWords(stem: string)
    requires ' ' !in stem
    ensures Split(TitleOf(stem), ' ') == Map(Capitalize, Split(stem, '-'))
  {
    var ws := Split(stem, '-');
    var cs := Map(Capitalize, ws);
    forall i | 0 <= i < |cs| ensures ' ' !in cs[i] {
      if ' ' in cs[i] {
        var j :| 0 <= j < |cs[i]| && cs[i][j] == ' ';
        if j > 0 { assert cs[i][j] == ws[i][j]; } else { assert ToUpper(ws[i][0]) == ' '; }
        SplitPiecesFrom(stem, '-', i, j);
        assert false;
      }
    }
    SplitJoin(cs, ' ');
  }

  function RemoveSpaces(s: string): (r: string)
    ensures ' ' !in r
  {
    if s == [] then [] else (if s[0] == ' ' then [] else [s[0]]) + RemoveSpaces(s[1..])
  }

  lemma {:induction false} RemoveSpacesSpelled(s: string, atStart: bool)
    requires ' ' !in s
    ensures RemoveSpaces(Spelled(s, atStart, " ")) == Spelled(s, atStart, "")
  {
    if s != [] {
      RemoveSpacesSpelled(s[1..], s[0] == '-');
      var tail := Spelled(s[1..], s[0] == '-', " ");
      if s[0] == '-' {
        assert Spelled(s, atStart, " ") == [' '] + tail;
        assert ([' '] + tail)[1..] == tail;
      } else {
        var x := if atStart then ToUpper(s[0]) else s[0];
        assert Spelled(s, atStart, " ") == [x] + tail;
        assert ([x] + tail)[1..] == tail;
      }
    }
  }

  /** For a stem without digits or spaces, the component name is its title with
      the spaces taken out. */
  lemma PascalCaseIsTitleWithoutSpaces(stem: string)
    requires ' ' !in stem
    requires forall i :: 0 <= i < |stem| ==> !IsDigit(stem[i])
    ensures ToPascalCase(stem) == RemoveSpaces(TitleOf(stem))
  {
    DigitFreePascalCase(stem);
    TitleIsSpelled(stem);
    JoinCapitalizedIsSpelled(stem, true, "");
    var ws := Split(stem, '-');
    assert [Capitalize(ws[0])] + Map(Capitalize, ws[1..]) == Map(Capitalize, ws);
    RemoveSpacesSpelled(stem, true);
  }
}
