/** The search and install helpers of the registry browser (lib/registry-utils.ts):
    normalising text for search, filtering the registry's items by a query, and the
    install command for each package manager. */
module Search {
  import opened Text
  import opened Registry

  // ---------------------------------------------------------------------------
  // `normalizeForSearch`

  /** `[a-z0-9]`: the characters that survive normalisation. */
  predicate IsSearchChar(c: char) {
    IsLower(c) || IsDigit(c)
  }

  predicate IsNormalized(s: string) {
    forall i :: 0 <= i < |s| ==> IsSearchChar(s[i])
  }

  /** `replace(/[^a-z0-9]/g, "")`: the search characters, in order. */
  function KeepSearchChars(s: string): (r: string)
    ensures IsNormalized(r)
    ensures |r| <= |s|
  {
    if s == [] then [] else (if IsSearchChar(s[0]) then [s[0]] else []) + KeepSearchChars(s[1..])
  }

  /** `str.toLowerCase().replace(/[^a-z0-9]/g, "")`. */
  function NormalizeForSearch(s: string): string {
    KeepSearchChars(LowerCase(s))
  }

  /** Normalised text holds letters `a`-`z` and digits only, and is no longer than the input. */
  lemma NormalizedAlphabet(s: string)
    ensures IsNormalized(NormalizeForSearch(s)) && |NormalizeForSearch(s)| <= |s|
  {
  }

  /** Text already made of search characters is kept as it is. */
  lemma {:induction false} KeepNormalized(s: string)
    requires IsNormalized(s)
    ensures KeepSearchChars(s) == s
  {
    if s != [] {
      KeepNormalized(s[1..]);
      assert [s[0]] + s[1..] == s;
    }
  }

  /** Lower-casing leaves letters `a`-`z` and digits alone. */
  lemma LowerNormalized(s: string)
    requires IsNormalized(s)
    ensures LowerCase(s) == s
  {
  }

  /** Normalised text is its own normal form. */
  lemma NormalizeFixesNormalized(s: string)
    requires IsNormalized(s)
    ensures NormalizeForSearch(s) == s
  {
    LowerNormalized(s);
    KeepNormalized(s);
  }

  /** Normalising twice is normalising once. */
  lemma NormalizeIdempotent(s: string)
    ensures NormalizeForSearch(NormalizeForSearch(s)) == NormalizeForSearch(s)
  {
    NormalizeFixesNormalized(NormalizeForSearch(s));
  }

  /** Lower-casing twice is lower-casing once. */
  lemma LowerCaseIdempotent(s: string)
    ensures LowerCase(LowerCase(s)) == LowerCase(s)
  {
  }

  /** Normalisation ignores letter case. */
  lemma NormalizeIgnoresCase(s: string)
    ensures NormalizeForSearch(LowerCase(s)) == NormalizeForSearch(s)
  {
    LowerCaseIdempotent(s);
  }

  /** Normalisation distributes over concatenation. */
  lemma {:induction false} KeepAppend(a: string, b: string)
    ensures KeepSearchChars(a + b) == KeepSearchChars(a) + KeepSearchChars(b)
  {
    if a != [] {
      assert (a + b)[0] == a[0] && (a + b)[1..] == a[1..] + b;
      KeepAppend(a[1..], b);
      assert KeepSearchChars(a + b) == (if IsSearchChar(a[0]) then [a[0]] else []) + KeepSearchChars(a[1..] + b);
    } else {
      assert a + b == b;
    }
  }

  /** Punctuation, spaces and other characters outside `[A-Za-z0-9]` vanish: a hyphen
      or a space between two words does not change what the words match. */
  lemma NormalizeDropsSeparator(a: string, c: char, b: string)
    requires !IsSearchChar(ToLower(c))
    ensures NormalizeForSearch(a + [c] + b) == NormalizeForSearch(a) + NormalizeForSearch(b)
  {
    assert LowerCase(a + [c] + b) == LowerCase(a) + [ToLower(c)] + LowerCase(b);
    KeepAppend(LowerCase(a) + [ToLower(c)], LowerCase(b));
    KeepAppend(LowerCase(a), [ToLower(c)]);
  }

  /** "Up-2" and "up 2" both normalise to "up2". */
  lemma NormalizeExample()
    ensures NormalizeForSearch("Up-2") == NormalizeForSearch("up 2") == "up2"
  {
    NormalizeDropsSeparator("Up", '-', "2");
    NormalizeDropsSeparator("up", ' ', "2");
    assert "Up" + ['-'] + "2" == "Up-2" && "up" + [' '] + "2" == "up 2";
    assert LowerCase("Up") == "up";
    NormalizeFixesNormalized("up");
    NormalizeFixesNormalized("2");
  }

  // ---------------------------------------------------------------------------
  // `filterItems`

  /** The registry as the browser loads it: `null` until it arrives. */
  datatype Catalog = Catalog(items: seq<RegistryItem>)

  /** At most this many items are shown. */
  const Limit := 10

  /** `slice(0, 10)`. */
  function FirstShown(items: seq<RegistryItem>): (r: seq<RegistryItem>)
    ensures |r| <= Limit && r <= items
    ensures |r| == if |items| < Limit then |items| else Limit
  {
    if |items| <= Limit then items else items[..Limit]
  }

  /** The item's normalised name or normalised title contains the normalised query. */
  predicate Matches(item: RegistryItem, normalized: string) {
    Contains(NormalizeForSearch(item.name), normalized) || Contains(NormalizeForSearch(item.title), normalized)
  }

  /** `items.filter(…)`: the matching items, in their order. */
  function Matching(items: seq<RegistryItem>, normalized: string): (r: seq<RegistryItem>)
    ensures |r| <= |items|
    ensures forall k :: 0 <= k < |r| ==> Matches(r[k], normalized) && r[k] in items
  {
    if items == [] then []
    else (if Matches(items[0], normalized) then [items[0]] else []) + Matching(items[1..], normalized)
  }

  /** `filterItems`. The registry being null gives nothing; a blank query shows the
      first items; otherwise the first matching items are shown. */
  function FilterItems(registry: Option<Catalog>, searchQuery: string): (r: seq<RegistryItem>)
    ensures registry.None? ==> r == []
    ensures |r| <= Limit
  {
    match registry
    case None => []
    case Some(catalog) =>
      if Trim(searchQuery) == [] then FirstShown(catalog.items)
      else FirstShown(Matching(catalog.items, NormalizeForSearch(searchQuery)))
  }

  /** A blank or whitespace-only query shows the first `min(10, n)` items, in order. */
  lemma BlankQueryShowsFirst(catalog: Catalog, searchQuery: string)
    requires AllSpace(searchQuery)
    ensures FilterItems(Some(catalog), searchQuery)
      == catalog.items[..if |catalog.items| < Limit then |catalog.items| else Limit]
  {
  }

  /** For a query that is not blank, every item shown matches it. */
  lemma ShownItemsMatch(catalog: Catalog, searchQuery: string)
    requires !AllSpace(searchQuery)
    ensures forall k :: 0 <= k < |FilterItems(Some(catalog), searchQuery)| ==>
      Matches(FilterItems(Some(catalog), searchQuery)[k], NormalizeForSearch(searchQuery))
      && FilterItems(Some(catalog), searchQuery)[k] in catalog.items
  {
    var m := Matching(catalog.items, NormalizeForSearch(searchQuery));
    assert FilterItems(Some(catalog), searchQuery) <= m;
  }

  /** For a query that is not blank, the items shown are the first up to 10 of the
      matching items. */
  lemma ShownAreFirstMatches(catalog: Catalog, searchQuery: string)
    requires !AllSpace(searchQuery)
    ensures var m := Matching(catalog.items, NormalizeForSearch(searchQuery));
      FilterItems(Some(catalog), searchQuery) == m[..if |m| < Limit then |m| else Limit]
  {
  }

  /** Filtering a concatenation filters each part: the matches keep the items' order. */
  lemma {:induction false} MatchingAppend(a: seq<RegistryItem>, b: seq<RegistryItem>, normalized: string)
    ensures Matching(a + b, normalized) == Matching(a, normalized) + Matching(b, normalized)
  {
    if a != [] {
      assert (a + b)[0] == a[0] && (a + b)[1..] == a[1..] + b;
      MatchingAppend(a[1..], b, normalized);
      assert Matching(a + b, normalized)
        == (if Matches(a[0], normalized) then [a[0]] else []) + Matching(a[1..] + b, normalized);
    } else {
      assert a + b == b;
    }
  }

  /** Filtering keeps every matching item as often as it occurs and no other item. */
  lemma {:induction false} MatchingCounts(items: seq<RegistryItem>, normalized: string, x: RegistryItem)
    ensures multiset(Matching(items, normalized))[x] == if Matches(x, normalized) then multiset(items)[x] else 0
  {
    if items != [] {
      var head := if Matches(items[0], normalized) then [items[0]] else [];
      MatchingCounts(items[1..], normalized, x);
      assert Matching(items, normalized) == head + Matching(items[1..], normalized);
      assert multiset(items) == multiset{items[0]} + multiset(items[1..]) by {
        assert items == [items[0]] + items[1..];
      }
    }
  }

  /** The empty string is part of every string. */
  lemma ContainsEmpty(s: string)
    ensures Contains(s, [])
  {
    assert [] <= s[0..];
  }

  /** When every item matches, filtering keeps them all. */
  lemma {:induction false} AllMatch(items: seq<RegistryItem>)
    ensures Matching(items, []) == items
  {
    if items != [] {
      ContainsEmpty(NormalizeForSearch(items[0].name));
      assert Matches(items[0], []);
      AllMatch(items[1..]);
      assert Matching(items, []) == [items[0]] + Matching(items[1..], []);
      assert [items[0]] + items[1..] == items;
    }
  }

  /** A query that is not blank but has no letter or digit, such as "--", matches
      every item and so shows the same first items as a blank query. */
  lemma PunctuationQueryShowsFirst(catalog: Catalog, searchQuery: string)
    requires NormalizeForSearch(searchQuery) == []
    ensures FilterItems(Some(catalog), searchQuery) == FilterItems(Some(catalog), "")
  {
    AllMatch(catalog.items);
  }

  /** Lower-case spaces are still spaces, so a query and its lower-case form are
      both blank or both not. */
  lemma LowerCaseBlank(s: string)
    ensures AllSpace(LowerCase(s)) <==> AllSpace(s)
  {
    var l := LowerCase(s);
    forall i | 0 <= i < |s| ensures IsSpace(l[i]) <==> IsSpace(s[i]) {
      assert l[i] == ToLower(s[i]);
    }
  }

  /** The search does not depend on the letter case of the query. */
  lemma QueryCaseIgnored(registry: Option<Catalog>, searchQuery: string)
    ensures FilterItems(registry, LowerCase(searchQuery)) == FilterItems(registry, searchQuery)
  {
    LowerCaseBlank(searchQuery);
    NormalizeIgnoresCase(searchQuery);
  }

  // ---------------------------------------------------------------------------
  // `getInstallCommand`

  datatype PackageManager = Pnpm | Yarn | Npm

  /** The command that runs the shadcn CLI for each package manager. */
  function Runner(packageManager: PackageManager): string {
    match packageManager
    case Pnpm => "pnpm dlx "
    case Yarn => "yarn "
    case Npm => "npx "
  }

  /** Where the registry serves a component's item. */
  function ItemUrl(baseUrl: string, componentName: string): string {
    baseUrl + "/r/" + componentName + ".json"
  }

  /** `getInstallCommand`, with the site's base URL (read from the environment in
      the source) passed in. */
  function GetInstallCommand(componentName: string, packageManager: PackageManager, baseUrl: string): string {
    Runner(packageManager) + "shadcn@latest add " + ItemUrl(baseUrl, componentName)
  }

  /** The command runs `shadcn@latest add` and ends with the item's URL. */
  lemma InstallCommandShape(componentName: string, packageManager: PackageManager, baseUrl: string)
    ensures var cmd := GetInstallCommand(componentName, packageManager, baseUrl);
      var n := |Runner(packageManager)|;
      var url := ItemUrl(baseUrl, componentName);
      && cmd[n..n + 18] == "shadcn@latest add "
      && |cmd| == n + 18 + |url| && cmd[n + 18..] == url
      && url[|url| - 5..] == ".json" && url[..|baseUrl| + 3] == baseUrl + "/r/"
  {
    var n := |Runner(packageManager)|;
    var cmd := GetInstallCommand(componentName, packageManager, baseUrl);
    assert cmd == Runner(packageManager) + ("shadcn@latest add " + ItemUrl(baseUrl, componentName));
    var url := ItemUrl(baseUrl, componentName);
    assert url == (baseUrl + "/r/") + (componentName + ".json");
  }

  /** The three package managers get three different commands for the same component,
      and each command determines its package manager, base URL and component: the
      first letter tells the package manager, and the rest is the item's URL. */
  lemma InstallCommandDetermines(name1: string, pm1: PackageManager, base1: string,
                                 name2: string, pm2: PackageManager, base2: string)
    requires GetInstallCommand(name1, pm1, base1) == GetInstallCommand(name2, pm2, base2)
    ensures pm1 == pm2 && ItemUrl(base1, name1) == ItemUrl(base2, name2)
    ensures base1 == base2 ==> name1 == name2
  {
    var c1, c2 := GetInstallCommand(name1, pm1, base1), GetInstallCommand(name2, pm2, base2);
    assert c1[0] == Runner(pm1)[0] && c2[0] == Runner(pm2)[0];
    InstallCommandShape(name1, pm1, base1);
    InstallCommandShape(name2, pm2, base2);
    var u1, u2 := ItemUrl(base1, name1), ItemUrl(base2, name2);
    assert u1 == c1[|Runner(pm1)| + 18..];
    if base1 == base2 {
      assert u1 == (base1 + "/r/") + name1 + ".json";
      assert u2 == (base1 + "/r/") + name2 + ".json";
      assert name1 == u1[|base1| + 3..|u1| - 5];
      assert name2 == u2[|base1| + 3..|u2| - 5];
    }
  }
}
