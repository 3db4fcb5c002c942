/** `generateComponent` and `generateRegistryEntry` (tools/convert-svgs.js): the
    React component source for one illustration and its entry in the registry
    manifest. */
module Registry {
  import opened Text
  import opened Patterns
  import opened Naming
  import Markup

  // ---------------------------------------------------------------------------
  // `fileName.replace('.svg', '')`

  const Extension := ".svg"

  /** The first position at or after `from` where `pattern` starts. */
  function FirstOccurrence(s: string, pattern: string, from: nat): (r: Option<nat>)
    requires from <= |s|
    ensures r.Some? ==> from <= r.value <= |s| && pattern <= s[r.value..]
    decreases |s| - from
  {
    if pattern <= s[from..] then Some(from)
    else if from == |s| then None
    else FirstOccurrence(s, pattern, from + 1)
  }

  /** The position found is the first; when none is found, the pattern occurs nowhere. */
  lemma {:induction false} FirstOccurrenceIsFirst(s: string, pattern: string, from: nat)
    requires from <= |s|
    ensures var r := FirstOccurrence(s, pattern, from);
      && (r.Some? ==> forall y :: from <= y < r.value ==> !(pattern <= s[y..]))
      && (r.None? ==> forall y :: from <= y <= |s| ==> !(pattern <= s[y..]))
    decreases |s| - from
  {
    if !(pattern <= s[from..]) && from < |s| {
      FirstOccurrenceIsFirst(s, pattern, from + 1);
    }
  }

  /** A string pattern in `replace` removes its FIRST occurrence only. */
  function Stem(file: string): (r: string)
    ensures |r| == |file| || |r| == |file| - 4
  {
    match FirstOccurrence(file, Extension, 0)
    case Some(i) => file[..i] + file[i + 4..]
    case None => file
  }

  /** `<stem>.svg` gives back `<stem>` when the stem does not itself hold `.svg`. */
  lemma StemOfSvgFile(stem: string)
    requires !Contains(stem, Extension)
    ensures Stem(stem + Extension) == stem
  {
    var s := stem + Extension;
    var n := |stem|;
    assert Extension <= s[n..];
    forall y | 0 <= y < n ensures !(Extension <= s[y..]) {
      if y + 4 <= n {
        assert !(Extension <= stem[y..]);
        assert s[y..][..4] == stem[y..][..4];
      } else {
        assert s[n] == '.' && Extension[n - y] != '.';
      }
    }
    FirstOccurrenceIsFirstAt(s, Extension, n);
    assert s[..n] == stem && s[n + 4..] == [];
  }

  lemma FirstOccurrenceIsFirstAt(s: string, pattern: string, x: nat)
    requires x <= |s| && pattern <= s[x..]
    requires forall y :: 0 <= y < x ==> !(pattern <= s[y..])
    ensures FirstOccurrence(s, pattern, 0) == Some(x)
  {
    FirstOccurrenceIsFirst(s, pattern, 0);
  }

  /** A name without `.svg` is its own stem. */
  lemma StemWithoutExtension(name: string)
    requires !Contains(name, Extension)
    ensures Stem(name) == name
  {
    FirstOccurrenceIsFirst(name, Extension, 0);
  }

  // ---------------------------------------------------------------------------
  // The component template

  /** The imports and the start of the props interface. */
  const Imports := "import { cn } from \"@/lib/utils\"\nimport { type SVGProps } from \"react\"\n\nexport interface "

  /** The rest of the props interface and the start of the component. */
  const InterfaceEnd := "Props extends SVGProps<SVGSVGElement> {}\n\nexport const "

  /** The opening of the `<svg>` element, up to its `viewBox` attribute. */
  const SvgOpen := "Props) => {\n  return (\n    <svg\n      xmlns=\"http://www.w3.org/2000/svg\"\n      "

  /** Everything before the `viewBox` attribute: imports, the props interface and
      the component's opening lines, naming the component three times. */
  function Header(name: string): string {
    Imports + name + InterfaceEnd + name + " = (props: " + name + SvgOpen
  }

  /** `viewBox="${viewBox}"`. */
  function ViewBoxAttribute(viewBox: string): string {
    "viewBox=\"" + viewBox + "\""
  }

  /** The fixed attributes between the view box and the title. */
  const Props := "\n      {...props}\n      className={cn(\"w-full h-auto\", props.className)}\n      role=\"img\"\n    >\n      "

  /** `<title>${title}</title>`. */
  function TitleElement(title: string): string {
    "<title>" + title + "</title>"
  }

  /** The closing of the `<svg>` element and of the component. */
  const Closing := "\n    </svg>\n  )\n}\n"

  /** The converted markup and the closing lines. */
  function Body(content: string): string {
    "\n      " + content + Closing
  }

  /** The whole template with its four splices. */
  function ComponentSource(name: string, viewBox: string, title: string, content: string): string {
    Header(name) + ViewBoxAttribute(viewBox) + Props + TitleElement(title) + Body(content)
  }

  /** The component generated for a file with the given contents: the name from
      the stem, the parsed view box and markup, the title from the stem. */
  function ComponentFor(fileName: string, svgContent: string): string {
    var stem := Stem(fileName);
    var content := Markup.StripXmlDeclarations(svgContent);
    ComponentSource(ToPascalCase(stem), Markup.ViewBoxOf(content), TitleOf(stem),
      Markup.ConvertMarkup(Markup.InnerMarkup(content)))
  }

  /** `generateComponent`. */
  method GenerateComponent(fileName: string, svgContent: string) returns (code: string)
    ensures code == ComponentFor(fileName, svgContent)
  {
    var componentName := ToPascalCase(Stem(fileName));
    var parsed := Markup.ParseSvg(svgContent);
    var title := TitleOf(Stem(fileName));
    code := ComponentSource(componentName, parsed.viewBox, title, parsed.innerContent);
  }

  /** The pieces of a text built as the template builds it. */
  lemma Spliced(h: string, viewBox: string, p: string, title: string, b: string)
    requires '"' !in viewBox
    ensures var code := h + ViewBoxAttribute(viewBox) + p + TitleElement(title) + b;
      var at := |h| + |viewBox| + 10 + |p| + 7;
      && QuotedAt(code[|h|..], "viewBox") == Some(viewBox)
      && at + |title| + 8 <= |code| && code[at - 7..at] == "<title>"
      && code[at..at + |title|] == title && code[at + |title|..at + |title| + 8] == "</title>"
  {
    var rest := p + TitleElement(title) + b;
    var code := h + ViewBoxAttribute(viewBox) + p + TitleElement(title) + b;
    assert code[|h|..] == "viewBox" + "=\"" + viewBox + "\"" + rest;
    QuotedOf(code[|h|..], "viewBox", viewBox, rest);
    var pre := h + ViewBoxAttribute(viewBox) + p;
    assert code == pre + ("<title>" + title + "</title>") + b;
    var at := |pre| + 7;
    assert code[at - 7..at] == "<title>";
    assert code[at..at + |title|] == title;
    assert code[at + |title|..at + |title| + 8] == "</title>";
  }

  /** The view box and the title spliced into the component read back as the
      same values: the `viewBox="…"` match right after the header holds the view
      box, and the title element holds exactly the title. */
  lemma SplicesReadBack(name: string, viewBox: string, title: string, content: string)
    requires '"' !in viewBox
    ensures var code := ComponentSource(name, viewBox, title, content);
      var at := |Header(name)| + |viewBox| + 10 + |Props| + 7;
      && QuotedAt(code[|Header(name)|..], "viewBox") == Some(viewBox)
      && at + |title| + 8 <= |code| && code[at - 7..at] == "<title>"
      && code[at..at + |title|] == title && code[at + |title|..at + |title| + 8] == "</title>"
  {
    Spliced(Header(name), viewBox, Props, title, Body(content));
  }

  // ---------------------------------------------------------------------------
  // The registry entry

  const ComponentType := "registry:component"

  datatype RegistryFile = RegistryFile(path: string, fileType: string)

  datatype RegistryItem = RegistryItem(name: string, itemType: string, title: string, files: seq<RegistryFile>)

  /** The directory holding one sub-directory per illustration. */
  const IllustrationsDir := "registry/new-york/illustrations/"

  /** Where the batch writes the component for a stem, relative to the repository root. */
  function OutputPath(stem: string): string {
    IllustrationsDir + stem + "/" + stem + ".tsx"
  }

  /** `generateRegistryEntry`. */
  function GenerateRegistryEntry(fileName: string): (r: RegistryItem)
    ensures r.name == fileName && r.itemType == ComponentType
    ensures |r.files| == 1 && r.files[0].fileType == ComponentType
  {
    RegistryItem(fileName, ComponentType, TitleOf(fileName), [RegistryFile(OutputPath(fileName), ComponentType)])
  }

  /** The entry's only file is where the component for that stem is written. */
  lemma EntryPointsAtComponent(stem: string)
    ensures GenerateRegistryEntry(stem).files[0].path == OutputPath(stem)
    ensures OutputPath(stem)[..32] == IllustrationsDir == "registry/new-york/illustrations/"
    ensures OutputPath(stem)[32..32 + |stem|] == stem
  {
    var p := OutputPath(stem);
    assert p == IllustrationsDir + stem + ("/" + stem + ".tsx");
  }

  /** Whatever the file name, the component and the registry entry for its stem
      carry the same title, and it keeps the stem's length: only first letters of
      tokens change and hyphens become spaces. */
  lemma TitlesAgree(file: string, svgContent: string)
    ensures var stem := Stem(file);
      var entry := GenerateRegistryEntry(stem);
      && ComponentFor(file, svgContent) == ComponentSource(
           ToPascalCase(stem), Markup.ViewBoxOf(Markup.StripXmlDeclarations(svgContent)), entry.title,
           Markup.ConvertMarkup(Markup.InnerMarkup(Markup.StripXmlDeclarations(svgContent))))
      && |entry.title| == |stem|
  {
    TitleLength(Stem(file));
  }

  /** For a stem of letters, digits and hyphens with at least one letter or digit,
      the component name is a valid type name. */
  lemma ComponentNameIsTypeName(stem: string)
    requires forall i :: 0 <= i < |stem| ==> IsStemChar(stem[i])
    requires exists i :: 0 <= i < |stem| && stem[i] != '-'
    ensures IsTypeName(ToPascalCase(Stem(stem + Extension)))
  {
    assert !Contains(stem, Extension) by {
      forall y | 0 <= y <= |stem| ensures !(Extension <= stem[y..]) {
        if y < |stem| { assert IsStemChar(stem[y]); }
      }
    }
    StemOfSvgFile(stem);
    PascalCaseIsTypeName(stem);
  }

  /** For a stem of letters and hyphens, the component name is the entry's title
      with the spaces removed. */
  lemma ComponentNameIsTitle(stem: string)
    requires forall i :: 0 <= i < |stem| ==> IsLetter(stem[i]) || stem[i] == '-'
    ensures ToPascalCase(stem) == RemoveSpaces(GenerateRegistryEntry(stem).title)
  {
    PascalCaseIsTitleWithoutSpaces(stem);
  }
}
