# undraw-cn conversion and search, modelled in Dafny

undraw-cn publishes the unDraw illustrations as a shadcn registry of React
components. The project models two parts of it:

- the conversion tool `tools/convert-svgs.js`, which turns every `.svg` file into
  a `.tsx` component and writes a registry manifest;
- the search and install helpers of `lib/registry-utils.ts`, which the site's
  browser uses.

The conversion is a chain of text rewrites. The model writes each regular
expression as a scanning function over `seq<char>`:

- `[^"]*"` reads up to the next quote;
- `[^>]*?P` is a lazy scan inside one tag;
- `[\s\S]*<\/svg>` is greedy and ends at the last closing tag;
- a global replacement resumes after each match.

Modules, each its own file:

| module | models |
|---|---|
| `Text` | `trim`, `split`, `join`, `toLowerCase`/`toUpperCase` on ASCII, and substring search |
| `Patterns` | regular-expression pieces shared by the passes: `name="…"`, a `\s+` run, and a lazy scan to a pattern inside a tag |
| `Naming` | `convertLeadingNumbers`, `toPascalCase`, `toCamelCase`, and the title built from a file stem |
| `Attributes` | `convertSVGAttributes` |
| `Isolation` | `convertCSSAttributes` |
| `Styles` | `parseStyleAttribute` and `convertStyleAttributes` |
| `Markup` | `parseSVG` |
| `Registry` | `generateComponent` and `generateRegistryEntry` |
| `Ordering` | the comparator-less `sort()` of file names |
| `Batch` | `convertAllSVGs`, against a file-system oracle |
| `Search` | `normalizeForSearch`, `filterItems` and `getInstallCommand` |

The source reassigns values, or builds a result through a chain of bindings, in
several places, and those become methods proved
against the specification functions:
- `parseStyleAttribute`'s loop (`Styles.ParseStyleAttribute`);
- the table walk of `convertSVGAttributes` (`Attributes.ConvertSvgAttributes`);
- the three passes of `convertCSSAttributes` (`Isolation.ConvertCssAttributes`);
- the chain in `parseSVG` (`Markup.ParseSvg`);
- the chain of bindings in `generateComponent` (`Registry.GenerateComponent`);
- the batch loop with its counters (`Batch.ConvertAllSvgs`, `Batch.ConvertFiles`,
  and `Batch.EmitComponent` for one file);
- the manifest writes and the exit code (`Batch.WriteManifests`).

The other operations are functions.

The model follows the code where it behaves otherwise than its names suggest:

- `toPascalCase("3d-world")` is `"ThreedWorld"`, not `"ThreeDWorld"`. The
  spelled-out digits and the letters after them form one token, and
  `charAt(0).toUpperCase()` raises only its first character. A capital letter
  already after the digits is kept, so `3DModels` does give `ThreeDModels`.
- The second pass of `convertCSSAttributes` drops the white space between the
  style attribute and the attributes after it. The `\s+` is matched, but it is
  not in the `between` group that is written back.
- `fileName.replace('.svg', '')` removes the first `.svg` in the name, not a
  trailing one.

## Model

| member | source | states |
|---|---|---|
| Text.Trim | tools/convert-svgs.js:54 | `trim()`: the result is empty exactly when the text is all white space; otherwise it neither starts nor ends with white space (TrimSlice pins which slice it is) |
| Text.TrimSlice | tools/convert-svgs.js:57 | `trim()` returns exactly the slice of the text between a run of leading and a run of trailing white space |
| Text.Split | tools/convert-svgs.js:57 | `split(sep)`: at least one piece, no piece contains the separator, and the first piece starts the text |
| Text.LowerCase | lib/registry-utils.ts:6 | `toLowerCase()` keeps the length and lower-cases each character in place |
| Naming.DigitWord | tools/convert-svgs.js:10-21 | the `numberToWord` word of a digit is a capitalised word of letters |
| Naming.LeadingDigits | tools/convert-svgs.js:26 | `^(\d+)` matches exactly the maximal run of digits at the start |
| Naming.SpellDigits | tools/convert-svgs.js:27 | spelled-out digits are letters only, start upper case, and are empty only for no digits |
| Naming.ConvertLeadingNumbers | tools/convert-svgs.js:24-29 | the result never starts with a digit, and a text not starting with a digit is unchanged |
| Naming.LeadingNumbersKeepRest | tools/convert-svgs.js:24-29 | only the leading digit run is replaced, by letters; everything after it is kept verbatim |
| Naming.ConvertDigitsThen | tools/convert-svgs.js:24-29 | a digit run followed by a non-digit is spelled out exactly |
| Naming.PascalCaseTokens | tools/convert-svgs.js:32-44 | the whole-stem conversion before the split changes nothing: the name is the per-token conversion of the hyphen tokens |
| Naming.DigitFreePascalCase | tools/convert-svgs.js:32-44 | a stem without digits gives the plain concatenation of its capitalised hyphen tokens |
| Naming.ThreedWorldExample | tools/convert-svgs.js:32-44 | `"3d-world"` gives `"ThreedWorld"` |
| Naming.TwoFourHoursExample | tools/convert-svgs.js:32-44 | `"24-hours"` gives `"TwoFourHours"`, one word per digit |
| Naming.PascalExample | tools/convert-svgs.js:32-44 | a digit run, a non-digit tail, a hyphen and a word give the spelled digits, the tail, and the capitalised word |
| Naming.PascalCaseIsTypeName | tools/convert-svgs.js:32-44 | a stem of letters, digits and hyphens with one non-hyphen gives a valid type name: upper-case first letter, then letters and digits |
| Naming.PascalWordShape | tools/convert-svgs.js:38-42 | each token of letters and digits stays letters and digits, is empty only when the token is, and starts upper case |
| Naming.LeadingNumbersAlphaNum | tools/convert-svgs.js:40 | spelling out a token's leading digits keeps it letters and digits, keeps it non-empty and makes it start with a letter |
| Naming.ToPascalCase | tools/convert-svgs.js:32-44 | `toPascalCase`: the leading digits of the stem spelled out, then every hyphen token spelled out and capitalised, joined without separator; its value is fixed by PascalCaseTokens, DigitFreePascalCase, PascalExample and the two worked examples, and its shape by PascalCaseIsTypeName |
| Naming.ToCamelCase | tools/convert-svgs.js:47-49 | the result is never longer than the input |
| Naming.CamelCaseShape | tools/convert-svgs.js:47-49 | no `-` followed by a lower-case letter survives; a leading lower-case letter is the input's own; text without such a pair is unchanged |
| Naming.CamelCaseJoins | tools/convert-svgs.js:47-49 | a `-` before a lower-case letter is dropped and the letter raised, and the scan resumes after the letter |
| Naming.CamelCaseKeeps | tools/convert-svgs.js:47-49 | every other character is kept, and the scan resumes at the next one |
| Naming.CamelCaseAfterWord | tools/convert-svgs.js:47-49 | a hyphen-free word is kept up to a `-x`, which becomes `X` |
| Naming.CamelCaseFontSize | tools/convert-svgs.js:47-49 | `font-size` becomes `fontSize` |
| Naming.CamelCaseDoubleHyphen | tools/convert-svgs.js:47-49 | of `a--b`, only the hyphen right before the letter goes: `a-B` |
| Naming.TitleIsSpelled | tools/convert-svgs.js:198-201 | character by character, the title turns each hyphen into a space and upper-cases the first character of each token, and changes nothing else |
| Naming.TitleLength | tools/convert-svgs.js:198-201 | a title is exactly as long as its stem |
| Naming.TitleWords | tools/convert-svgs.js:198-201 | for a stem without spaces, the words of the title are the capitalised hyphen tokens, and no digit is spelled out |
| Naming.PascalCaseIsTitleWithoutSpaces | tools/convert-svgs.js:163-172 | for a stem without digits or spaces, the component name is the title with its spaces removed |
| Naming.RemoveSpaces | tools/convert-svgs.js:163-172 | the result holds no space |
| Naming.TitleOf | tools/convert-svgs.js:166-172 | the title: hyphen tokens capitalised and joined by single spaces, digits kept; its value is fixed character by character by TitleIsSpelled, with TitleLength and TitleWords |
| Attributes.AttributeAt | tools/convert-svgs.js:89 | `\s<key>="([^"]*)"` matches at a position if and only if white space, the key and `="` open there and a quote closes them later; a match covers at least the key and its punctuation and stays within the text |
| Attributes.RenameAttribute | tools/convert-svgs.js:89-90 | one global `replace` of `\s<key>="([^"]*)"` by ` <name>="$1"`; its value is fixed by RenameStep at a match, and by RenameAbsent and RenameToItself elsewhere |
| Attributes.RenameAll | tools/convert-svgs.js:88-91 | the replacements of the table entries applied in table order; ConvertSvgAttributes is proved equal to it and RenameAllAbsent gives its identity case |
| Attributes.ConvertSvgAttributes | tools/convert-svgs.js:68-94 | applying the sixteen table entries one after another gives the global renaming by the whole table, in table order |
| Attributes.RenameStep | tools/convert-svgs.js:89-90 | a matched attribute gets the React name, a single space in front and its value copied byte for byte; the scan resumes after its closing quote |
| Attributes.MatchOf | tools/convert-svgs.js:89 | the match at such a position is the whole attribute, up to the first closing quote |
| Attributes.MatchShape | tools/convert-svgs.js:89 | every match is the white space, the key, `="`, a value without quotes and the closing quote |
| Attributes.RenameAbsent | tools/convert-svgs.js:89-90 | text without the key is unchanged |
| Attributes.RenameAllAbsent | tools/convert-svgs.js:88-91 | text without any key of a table is unchanged by all of its entries |
| Attributes.RenameToItself | tools/convert-svgs.js:90 | renaming a key to itself changes only the white-space character in front of it, so text whose white space is all spaces is unchanged |
| Attributes.ConvertAbsent | tools/convert-svgs.js:68-94 | content holding none of the sixteen keys is returned unchanged |
| Patterns.QuotedAtMeaning | tools/convert-svgs.js:127 | `name="([^"]*)"` matches if and only if `name="` is followed by a later quote; the value is quote-free and reaches exactly to that first quote |
| Patterns.QuotedOf | tools/convert-svgs.js:127 | for `name="v"` followed by the rest, the capture is `v` and the match ends just before the rest |
| Patterns.SpaceRun | tools/convert-svgs.js:100 | the `\s+` run stays within the text |
| Patterns.SpaceRunIsMaximal | tools/convert-svgs.js:100 | the run is all white space and cannot be extended |
| Patterns.FindBeforeTagEnd | tools/convert-svgs.js:100 | the lazy `([^>]*?)P` scan stops at a position where `P` starts |
| Patterns.FindIsFirst | tools/convert-svgs.js:100 | the position found is the first one where `P` starts, with no `>` before it; when none is found, `P` starts nowhere before the tag's `>` |
| Patterns.FindAt | tools/convert-svgs.js:109 | the scan stops at the first position where the pattern starts, when no `>` comes before it |
| Patterns.QuotedPrefix | tools/convert-svgs.js:127 | a text starting with `name="v"`, `v` quote-free, matches with the capture `v` |
| Patterns.SpaceRunTo | tools/convert-svgs.js:100 | white space up to a character that is not white space is exactly the `\s+` run |
| Patterns.FindAfterAt | tools/convert-svgs.js:100 | after attributes without `>` in which the pattern does not start, the lazy scan stops where the pattern follows them |
| Isolation.IsolationThenStyleAt | tools/convert-svgs.js:99-105 | a match of the first pattern consumes a non-empty part of the text |
| Isolation.StyleThenIsolationAt | tools/convert-svgs.js:108-114 | a match of the second pattern consumes a non-empty part of the text |
| Isolation.FoldIsolationBeforeStyle | tools/convert-svgs.js:99-105 | the first global replacement; its value is fixed by FoldBeforeMatched and FoldBeforeFound at a match, IsolationFoldsIntoStyle on a whole tag, and FoldBeforeUnmatched and FoldBeforeAbsent elsewhere |
| Isolation.FoldStyleBeforeIsolation | tools/convert-svgs.js:108-114 | the second global replacement; its value is fixed by FoldAfterMatched and FoldAfterFound at a match, StyleAbsorbsIsolation on a whole tag, and FoldAfterAbsent elsewhere |
| Isolation.IsolationToStyle | tools/convert-svgs.js:117-120 | the third global replacement; NoIsolationLeft proves that it leaves no `isolation="isolate"`, and IsolationToStyleAbsent gives its identity case |
| Isolation.CssConverted | tools/convert-svgs.js:97-123 | what `convertCSSAttributes` returns, the three replacements in order; its value on whole tags is given by IsolationBeforeStyleConverted, StyleBeforeIsolationConverted and LoneIsolation, and ConvertLeavesNoIsolation proves no isolation attribute survives |
| Isolation.ConvertCssAttributes | tools/convert-svgs.js:97-123 | the three reassignments give the three passes in order, and no `isolation="isolate"` is left in the result |
| Isolation.NoIsolationLeft | tools/convert-svgs.js:117-120 | after the third pass no `isolation="isolate"` remains, and none is formed where a replacement meets the text around it |
| Isolation.SuffixStep | tools/convert-svgs.js:117-120 | for any pattern: a suffix of it that starts one character followed by a replaced rest also starts the original text, when the next shorter suffix does so for the rest |
| Isolation.ConvertLeavesNoIsolation | tools/convert-svgs.js:97-123 | no `isolation="isolate"` survives `convertCSSAttributes` |
| Isolation.BeforeFound | tools/convert-svgs.js:100-104 | isolation, a white-space run, attributes without `>`, then `style="v"`: the match writes the attributes, then `style="isolation: isolate; v"` |
| Isolation.BeforeValueFound | tools/convert-svgs.js:100-104 | for any opening length and pattern: after a white-space run and attributes without `>` up to the pattern, the match is decided by the quoted style value found there |
| Isolation.StyleValueFound | tools/convert-svgs.js:100-104 | once the style value is found, the match moves the attributes in front of the folded style and ends after the closing quote |
| Isolation.FoldBeforeMatched | tools/convert-svgs.js:99-105 | the global first pass writes the replacement of a match at the start, then goes on after the match |
| Isolation.FoldBeforeFound | tools/convert-svgs.js:99-105 | the first pass turns isolation, white space, the between attributes and `style="v"` into the between attributes and the folded style, then goes on with the rest |
| Isolation.AfterFound | tools/convert-svgs.js:109-113 | `style="v"` up to `e`, a white-space run up to `q`, then isolation found at `x`: the match writes the folded style and then the attributes from `q` to `x`, dropping the white space, and ends after the isolation attribute |
| Isolation.AfterValueFound | tools/convert-svgs.js:109-113 | for any pattern: after `style="v"`, a white-space run up to `q` and the pattern found at `x`, the match writes the folded style followed by the attributes from `q` to `x` and ends after the pattern |
| Isolation.FoldAfterMatched | tools/convert-svgs.js:108-114 | the global second pass writes the replacement of a match at the start, then goes on after it |
| Isolation.FoldAfterFound | tools/convert-svgs.js:108-114 | the second pass turns `style="v"`, white space, the between attributes and isolation into the folded style followed directly by the between attributes, then goes on with the rest |
| Isolation.FoldBeforeLaidOut | tools/convert-svgs.js:99-105 | on a text laid out as isolation, white space, attributes without `>` or `style="`, and `style="v"`, the first pass writes the attributes, then `style="isolation: isolate; v"`, then goes on with the rest |
| Isolation.IsolationFoldsIntoStyle | tools/convert-svgs.js:99-105 | `isolation="isolate" <ws> <between> style="v"` followed by the rest becomes `<between>style="isolation: isolate; v"` followed by the first pass over the rest |
| Isolation.IsolationBeforeStyleConverted | tools/convert-svgs.js:97-123 | through all three passes, `isolation="isolate" <ws> <between> style="v"` and the rest become `<between>style="isolation: isolate; v"` and the rest, when that result holds no other isolation attribute |
| Isolation.FoldAfterLaidOut | tools/convert-svgs.js:108-114 | on a text laid out as `style="v"`, white space, attributes without `>` in which isolation does not start, and isolation, the second pass writes the folded style, then the attributes, then goes on with the rest |
| Isolation.StyleAbsorbsIsolation | tools/convert-svgs.js:108-114 | `style="v" <ws> <between> isolation="isolate"` followed by the rest becomes `style="isolation: isolate; v"<between>`, the white space dropped, followed by the second pass over the rest |
| Isolation.FoldBeforeUnmatched | tools/convert-svgs.js:99-105 | the first pass leaves a text unchanged when its pattern matches at no position |
| Isolation.NotInStyleAttribute | tools/convert-svgs.js:99-105 | `isolation="isolate"` does not start inside a quoted style attribute followed by white space |
| Isolation.StyleFirstUnmatched | tools/convert-svgs.js:99-105 | in a tag with the style attribute first and isolation after it, with no style attribute after the isolation, the first pattern matches nowhere |
| Isolation.StyleBeforeIsolationConverted | tools/convert-svgs.js:97-123 | through all three passes, `style="v" <ws> <between> isolation="isolate"` and the rest become `style="isolation: isolate; v"<between>` and the rest, when no style attribute follows in the tag and the result holds no other isolation attribute |
| Isolation.LoneIsolationUnmatched | tools/convert-svgs.js:99-114 | neither folding pattern matches at an isolation attribute that no style attribute follows in its tag |
| Isolation.LoneIsolation | tools/convert-svgs.js:97-123 | through all three passes, a lone `isolation="isolate"`, with no style attribute after it in the tag and no other isolation attribute after it, becomes `style="isolation: isolate"` and the rest is kept |
| Isolation.FoldBeforeAbsent | tools/convert-svgs.js:99-105 | the first pass leaves text without `isolation="isolate"` unchanged |
| Isolation.FoldAfterAbsent | tools/convert-svgs.js:108-114 | the second pass leaves text without `isolation="isolate"` unchanged |
| Isolation.IsolationToStyleAbsent | tools/convert-svgs.js:117-120 | the third pass leaves text without `isolation="isolate"` unchanged |
| Isolation.AfterMatchHasIsolation | tools/convert-svgs.js:109 | the second pattern matches only where `isolation="isolate"` occurs |
| Isolation.ConvertAbsent | tools/convert-svgs.js:97-123 | markup without `isolation="isolate"` passes through unchanged |
| Styles.Put | tools/convert-svgs.js:60 | an assignment adds at most one entry |
| Styles.PutLookup | tools/convert-svgs.js:60 | after `styles[key] = value`, the key reads `value` and every other key reads as before |
| Styles.PutKeys | tools/convert-svgs.js:60 | an assignment introduces no key but its own, and loses none |
| Styles.PutDistinct | tools/convert-svgs.js:60 | an assignment keeps the property names distinct |
| Styles.PutFresh | tools/convert-svgs.js:60 | assigning a property not yet present appends it at the end |
| Styles.PutKeepsPlace | tools/convert-svgs.js:60 | assigning a property already present keeps it at its first position and replaces only its value |
| Styles.ParseStyleAttribute | tools/convert-svgs.js:52-65 | the loop over the non-blank declarations builds the object of all the declarations, and no property appears twice |
| Styles.ParsedStyles | tools/convert-svgs.js:54-62 | skipping blank declarations leaves the object unchanged, and its keys are distinct |
| Styles.StylesOf | tools/convert-svgs.js:56-62 | the object after the declarations in order; StylesLookup ties each property to its last valid declaration, StylesDistinct and StylesInOrder fix its keys and order, and PutKeepsPlace the place of a repeated one |
| Styles.StylesPrefix | tools/convert-svgs.js:56-62 | the object after one more declaration is that declaration applied to the object so far |
| Styles.StylesDistinct | tools/convert-svgs.js:52-65 | the object never holds a property twice |
| Styles.StylesLookup | tools/convert-svgs.js:56-62 | each property reads the value of its last valid declaration; a property no valid declaration names is absent |
| Styles.StylesInOrder | tools/convert-svgs.js:56-62 | when no property is declared twice, the object is the valid declarations in declaration order |
| Styles.BlankDeclarationsIgnored | tools/convert-svgs.js:54 | dropping the blank declarations does not change the object |
| Styles.BlankHasNoEntry | tools/convert-svgs.js:54-58 | a blank declaration contributes no entry |
| Styles.DeclarationOf | tools/convert-svgs.js:57-60 | `p:v`, possibly followed by `:…`, gives the camel-cased trimmed property and the trimmed value between the first and second colons |
| Styles.NoColonNoEntry | tools/convert-svgs.js:57-58 | a declaration without a colon has no value, so no entry |
| Styles.EmptySideNoEntry | tools/convert-svgs.js:57-58 | `p:v` whose trimmed property or trimmed value is empty gives no entry, as `if (property && value)` requires |
| Styles.Declaration | tools/convert-svgs.js:57-60 | one declaration split on `:` and trimmed; DeclarationOf gives its entry, and NoColonNoEntry, EmptySideNoEntry and BlankHasNoEntry the cases without one |
| Styles.NoEntriesEmptyObject | tools/convert-svgs.js:128-132 | when no declaration is valid, the object is empty and renders as `style={{}}` |
| Styles.ConvertStyleStep | tools/convert-svgs.js:127-133 | a `style="v"` is replaced by `style={{k: "v", …}}` built from its declarations, and the scan resumes after its closing quote |
| Styles.ConvertStyleAbsent | tools/convert-svgs.js:127 | markup without `style="` is unchanged |
| Styles.ConvertStyleAttributes | tools/convert-svgs.js:126-134 | `convertStyleAttributes`; its value is fixed by ConvertStyleStep at each `style="v"` and by ConvertStyleAbsent elsewhere |
| Markup.XmlDeclarationAt | tools/convert-svgs.js:139 | a declaration match is at least `<?xml?>` long and ends in `?>` |
| Markup.StripXmlDeclarations | tools/convert-svgs.js:139 | removing declarations never lengthens the text |
| Markup.XmlDeclarationRemoved | tools/convert-svgs.js:139 | a declaration `<?xml…?>` without an inner `?` is removed whole, and what follows its `?>` is kept |
| Markup.StripXmlAbsent | tools/convert-svgs.js:139 | text without `<?xml` is unchanged |
| Markup.FirstQuoted | tools/convert-svgs.js:142 | the position found has a `viewBox="…"` match |
| Markup.FirstQuotedIsFirst | tools/convert-svgs.js:142 | no match starts before the position found; when none is found, none starts anywhere |
| Markup.ViewBoxOf | tools/convert-svgs.js:142-143 | the view box is the default or a quote-free value |
| Markup.ViewBoxDefault | tools/convert-svgs.js:142-143 | a file without `viewBox="` gets `0 0 100 100` |
| Markup.ViewBoxIsFirst | tools/convert-svgs.js:142-143 | the view box is the value of the first `viewBox="…"` match |
| Markup.LastFrom | tools/convert-svgs.js:146 | the position found starts `</svg>` |
| Markup.LastIsLast | tools/convert-svgs.js:146 | `[\s\S]*` is greedy: no `</svg>` starts after the one found |
| Markup.SvgMatchAt | tools/convert-svgs.js:146 | the captured body lies after the `<svg` and within the text |
| Markup.SvgMatchShape | tools/convert-svgs.js:146 | the body starts after the first `>` of an opening `<svg` tag and ends at the last `</svg>` after it |
| Markup.SvgBody | tools/convert-svgs.js:146 | the body captured at the first position where `<svg[^>]*>([\s\S]*)<\/svg>` matches; SvgMatchAt and SvgMatchShape fix it, NoSvgNoBody and NoCloseNoBody give the cases without a match |
| Markup.NoSvgNoBody | tools/convert-svgs.js:146-147 | without `<svg` there is no match |
| Markup.ParseSvg | tools/convert-svgs.js:137-159 | the view box is the first match or the default, taken after the declarations are stripped; the content is the trimmed greedy body with the three passes applied in order attributes, isolation, style |
| Markup.ConvertEmpty | tools/convert-svgs.js:149-156 | the three passes turn empty markup into empty markup |
| Markup.NoCloseNoBody | tools/convert-svgs.js:146-147 | when no `</svg>` follows any `<svg`, there is no match |
| Markup.NoSvgEmptyContent | tools/convert-svgs.js:146-156 | whenever the expression finds no match, the inner content is empty and converts to empty content, rather than an error |
| Markup.InnerMarkup | tools/convert-svgs.js:146-147 | the trimmed captured body, or empty text when nothing matches; ParseSvg and NoSvgEmptyContent state it |
| Markup.ConvertMarkup | tools/convert-svgs.js:149-156 | the three conversion passes in the order `parseSVG` applies them; ParseSvg is proved equal to it and ConvertEmpty gives its empty case |
| Registry.FirstOccurrence | tools/convert-svgs.js:163 | the position found starts the pattern |
| Registry.FirstOccurrenceIsFirst | tools/convert-svgs.js:163 | no earlier position starts the pattern; when none is found, it occurs nowhere |
| Registry.Stem | tools/convert-svgs.js:163 | removing `.svg` shortens the name by four characters or leaves it unchanged |
| Registry.StemOfSvgFile | tools/convert-svgs.js:163 | `<stem>.svg` gives back `<stem>` when the stem holds no `.svg` |
| Registry.StemWithoutExtension | tools/convert-svgs.js:232 | a name without `.svg` is its own stem |
| Registry.GenerateComponent | tools/convert-svgs.js:162-194 | the component is the template filled with the PascalCase name, the parsed view box, the title of the stem and the converted markup |
| Registry.ComponentSource | tools/convert-svgs.js:174-193 | the template literal with its four splices; SplicesReadBack reads the view box and the title back out of it |
| Registry.ComponentFor | tools/convert-svgs.js:162-194 | the component generated for a file: GenerateComponent is proved equal to it, and TitlesAgree ties its title to the registry entry's |
| Registry.SplicesReadBack | tools/convert-svgs.js:174-193 | in the generated source, the first `viewBox="…"` after the header reads back the parsed view box, and the title element holds exactly the title |
| Registry.GenerateRegistryEntry | tools/convert-svgs.js:197-214 | the entry has the stem as name, type `registry:component`, and one file of type `registry:component` |
| Registry.EntryPointsAtComponent | tools/convert-svgs.js:209 | the entry's file is `registry/new-york/illustrations/<stem>/<stem>.tsx` |
| Registry.TitlesAgree | tools/convert-svgs.js:168-172 | for any file name, the component's title is the title of the registry entry for the same stem, and it is as long as the stem |
| Registry.ComponentNameIsTypeName | tools/convert-svgs.js:163 | a file stem of letters, digits and hyphens gives a valid component name |
| Registry.ComponentNameIsTitle | tools/convert-svgs.js:163-172 | for a stem of letters and hyphens, the component name is the entry's title without its spaces |
| Ordering.BelowReflexive | tools/convert-svgs.js:221 | the sort order is reflexive |
| Ordering.BelowTotal | tools/convert-svgs.js:221 | the sort order is total |
| Ordering.BelowAntisymmetric | tools/convert-svgs.js:221 | the sort order is antisymmetric |
| Ordering.BelowTransitive | tools/convert-svgs.js:221 | the sort order is transitive |
| Ordering.InsertKeeps | tools/convert-svgs.js:221 | insertion adds exactly one copy of the name |
| Ordering.InsertSorted | tools/convert-svgs.js:221 | insertion into a sorted list keeps it sorted |
| Ordering.SortIsSortedPermutation | tools/convert-svgs.js:221 | `sort()` returns its input in sorted order, as a permutation |
| Ordering.SortedUnique | tools/convert-svgs.js:221 | two sorted lists holding the same names are equal |
| Ordering.SortIgnoresOrder | tools/convert-svgs.js:221 | the sorted order depends only on which names there are |
| Batch.SvgNames | tools/convert-svgs.js:221 | every name kept ends in `.svg` |
| Batch.SvgFiles | tools/convert-svgs.js:221 | the `.svg` names sorted: VisitedFiles fixes them as the sorted `.svg` names with multiplicity, and ListingOrderIrrelevant shows the listing order does not matter |
| Batch.Converted | tools/convert-svgs.js:230-262 | no more files are converted than are visited |
| Batch.EmitComponent | tools/convert-svgs.js:240-250 | after a successful read, the component is generated and written: exactly when the output directory can be written, the file written is `registry/new-york/illustrations/<stem>/<stem>.tsx` and its text is the generated component (`ComponentFor`) |
| Batch.ConvertAllSvgs | tools/convert-svgs.js:217-294 | a failed listing aborts. Otherwise, over the sorted `.svg` files: converted plus errors equals the files visited, nothing is skipped, and converted counts the successful files. The manifest holds their entries in order under the fixed schema, name and homepage. The component files written are listed with their paths and texts, and the exit status is 0 exactly when both manifest copies are written |
| Batch.ConvertFiles | tools/convert-svgs.js:230-263 | the loop over the files in order: converted plus errors equals the files visited, converted counts the files read and written, and the entries pushed and the component files written (path and generated text) are those of the converted files, in order |
| Batch.WriteManifests | tools/convert-svgs.js:274-281 | the root copy is written first and the public copy only after it; the exit status is 0 exactly when both are written |
| Batch.StepOf | tools/convert-svgs.js:230-263 | each iteration extends the successes, the items and the written paths by that file's own contribution |
| Batch.ConvertedStep | tools/convert-svgs.js:230-262 | one more file adds itself at the end exactly when it succeeds |
| Batch.ItemsMatchConverted | tools/convert-svgs.js:253 | there is one registry item per converted file, and the k-th item is the entry of the k-th converted file |
| Batch.WrittenMatchItems | tools/convert-svgs.js:249-253 | one component file is written per registry item, and the k-th is written where the k-th item points |
| Batch.ConvertedAreSuccesses | tools/convert-svgs.js:231-262 | a file is converted if and only if it was visited and all of its I/O succeeded; a failed file does not stop the run |
| Batch.AllConverted | tools/convert-svgs.js:231-262 | when every I/O step succeeds, every file is converted |
| Batch.SecondFails | tools/convert-svgs.js:259-262 | of three files whose second fails, the first and the third are converted, in that order |
| Batch.ConvertedSorted | tools/convert-svgs.js:221 | the converted files, and with them the registry items, keep the sorted order |
| Batch.SvgNamesCount | tools/convert-svgs.js:221 | the filter keeps each `.svg` name as often as it is listed, and drops every other name |
| Batch.VisitedFiles | tools/convert-svgs.js:221 | the files visited are exactly the listed `.svg` names, with multiplicity, in sorted order |
| Batch.ListingOrderIrrelevant | tools/convert-svgs.js:220-221 | the order in which the directory lists the names does not change the order of visits |
| Search.KeepSearchChars | lib/registry-utils.ts:6 | the kept text holds only `[a-z0-9]` and is never longer |
| Search.NormalizedAlphabet | lib/registry-utils.ts:5-7 | normalised text holds only `[a-z0-9]` and is never longer than the input |
| Search.NormalizeForSearch | lib/registry-utils.ts:5-7 | lower-casing then dropping everything outside `[a-z0-9]`; NormalizedAlphabet, NormalizeIdempotent, NormalizeIgnoresCase and NormalizeDropsSeparator state what it does |
| Search.KeepNormalized | lib/registry-utils.ts:6 | text of search characters only is kept whole |
| Search.LowerNormalized | lib/registry-utils.ts:6 | lower-casing leaves `[a-z0-9]` alone |
| Search.NormalizeFixesNormalized | lib/registry-utils.ts:5-7 | normalised text is its own normal form |
| Search.NormalizeIdempotent | lib/registry-utils.ts:5-7 | normalising twice is normalising once |
| Search.LowerCaseIdempotent | lib/registry-utils.ts:6 | lower-casing twice is lower-casing once |
| Search.NormalizeIgnoresCase | lib/registry-utils.ts:5-7 | normalisation ignores letter case |
| Search.KeepAppend | lib/registry-utils.ts:6 | the character filter distributes over concatenation |
| Search.NormalizeDropsSeparator | lib/registry-utils.ts:5-7 | a character outside `[A-Za-z0-9]` between two texts vanishes |
| Search.NormalizeExample | lib/registry-utils.ts:5-7 | `"Up-2"` and `"up 2"` both normalise to `"up2"` |
| Search.FirstShown | lib/registry-utils.ts:14 | `slice(0, 10)` is a prefix of at most ten items, and exactly `min(10, n)` of them |
| Search.Matching | lib/registry-utils.ts:17-22 | every item kept matches the query and comes from the list |
| Search.FilterItems | lib/registry-utils.ts:9-24 | a null registry gives no items, and never more than ten are shown |
| Search.BlankQueryShowsFirst | lib/registry-utils.ts:14 | a blank or whitespace-only query shows the first `min(10, n)` items, in order |
| Search.ShownItemsMatch | lib/registry-utils.ts:16-22 | for a non-blank query, each item shown is from the registry, and its normalised name or title contains the normalised query |
| Search.ShownAreFirstMatches | lib/registry-utils.ts:17-23 | for a non-blank query, the items shown are the first up to ten matching items |
| Search.MatchingAppend | lib/registry-utils.ts:17-22 | the filter distributes over concatenation, so matches keep their relative order |
| Search.MatchingCounts | lib/registry-utils.ts:17-22 | the filter keeps each matching item as often as it occurs, and no other item |
| Search.ContainsEmpty | lib/registry-utils.ts:21 | the empty query is contained in every string |
| Search.AllMatch | lib/registry-utils.ts:17-22 | with the empty normalised query every item matches, and the filter keeps all of them |
| Search.PunctuationQueryShowsFirst | lib/registry-utils.ts:14-23 | a non-blank query without letters or digits shows the same items as a blank one |
| Search.LowerCaseBlank | lib/registry-utils.ts:14 | a query and its lower-case form are both blank or both not |
| Search.QueryCaseIgnored | lib/registry-utils.ts:9-24 | the items shown do not depend on the letter case of the query |
| Search.InstallCommandShape | lib/registry-utils.ts:26-36 | the command is the package manager's runner, then `shadcn@latest add `, then `<base>/r/<name>.json` |
| Search.GetInstallCommand | lib/registry-utils.ts:26-36 | the install command for a package manager, with the base URL as a parameter; InstallCommandShape and InstallCommandDetermines state it |
| Search.InstallCommandDetermines | lib/registry-utils.ts:26-36 | the command determines the package manager and the item URL, and under one base URL it determines the component |

## Left out

- Logging (`console.*`), the progress message every hundred files, and the
  message texts are not modelled.
- I/O is an oracle value (`Batch.FileSystem`), not an effect. It says:
  - what `readdirSync` lists, or that it throws;
  - which files `readFileSync` can read, and their contents;
  - for which stems creating the output directory and writing the component
    succeed (`existsSync`/`mkdirSync` and `writeFileSync` are merged into one
    outcome);
  - whether each manifest copy can be written.
- `process.exit(1)` is the report's `Aborted` case or a non-zero `exitCode`.
- `path.join` normalisation and the absolute source and output directories are
  not modelled. Paths are the repository-relative strings that the manifest
  records.
- `JSON.stringify(registry, null, 2)` is not modelled. The manifest is a
  datatype, not its serialised text.
- Unicode case mapping is not modelled. `toUpperCase`/`toLowerCase` act on
  ASCII letters only, so non-ASCII letters in file names, CSS properties or
  queries keep their case in the model.
- `sort()` compares UTF-16 code units; the model compares characters as code
  points. The two orders differ only for names with characters outside the
  Basic Multilingual Plane.
- JavaScript objects list integer-like keys first, and `__proto__` is a
  special key. The style object is an association list in insertion order,
  which matches JavaScript for ordinary CSS property names only.
- The React UI and hooks are not part of this model: components/*.tsx,
  app/page.tsx, hooks/use-registry.ts and hooks/use-illustrations.ts. They
  cover rendering, fetching the registry, clipboard and timers.
  `filterItems`'s `Registry | null` argument is `Option<Catalog>`.
- `process.env.NEXT_PUBLIC_BASE_URL` is the `baseUrl` parameter of
  `Search.GetInstallCommand`. An unset variable would print `undefined` in the
  source; the model has no such value.
- Isolation.ConvertCssAttributes: the whole-tag results through all three
  passes (`IsolationBeforeStyleConverted`, `StyleBeforeIsolationConverted`,
  `LoneIsolation`) assume the result holds no further `isolation="isolate"`,
  and the style-first and lone cases also assume no style attribute follows
  the isolation attribute in its tag. Markup with several isolation attributes
  interacting across passes is covered only by the single-pass lemmas
  (`IsolationFoldsIntoStyle`, `StyleAbsorbsIsolation`) and by the proof that no
  `isolation="isolate"` remains, because each further interaction needs its own
  case analysis of the scans.
