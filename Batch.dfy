/** `convertAllSVGs` (tools/convert-svgs.js): list the source directory, convert
    every `.svg` file in sorted order, count successes and failures, and write the
    registry manifest. The file system is an oracle value: what the listing
    returns, which files can be read and with what contents, which output
    directories can be written, and whether the two manifest copies can be. */
module Batch {
  import opened Text
  import opened Naming
  import opened Ordering
  import opened Registry

  /** `file.endsWith('.svg')`. */
  predicate IsSvgName(f: string) {
    |f| >= 4 && f[|f| - 4..] == Extension
  }

  /** `files.filter(file => file.endsWith('.svg'))`. */
  function SvgNames(listing: seq<string>): (r: seq<string>)
    ensures forall i :: 0 <= i < |r| ==> IsSvgName(r[i])
  {
    if listing == [] then []
    else (if IsSvgName(listing[0]) then [listing[0]] else []) + SvgNames(listing[1..])
  }

  /** The files the loop visits, in the order it visits them. */
  function SvgFiles(listing: seq<string>): seq<string> {
    Sort(SvgNames(listing))
  }

  /** The outcomes of the I/O calls for one run. */
  datatype FileSystem = FileSystem(
    listing: Option<seq<string>>,       // `readdirSync` of the source directory; None when it throws
    contents: map<string, string>,      // `readFileSync` for each readable file name
    writableDirs: set<string>,          // stems whose output directory and component file can be written
    rootManifestWritable: bool,         // `registry.json` at the repository root
    publicManifestWritable: bool)       // `public/r/registry.json`

  /** Every I/O step for the file succeeds: it is read, and its component written. */
  predicate Converts(fs: FileSystem, file: string) {
    file in fs.contents && Stem(file) in fs.writableDirs
  }

  const Schema := "https://ui.shadcn.com/schema/registry.json"
  const RegistryName := "undraw-cn"
  const Homepage := "https://undraw-cn.vaatun.com"

  /** One component file written: its path and its text. */
  datatype FileWrite = FileWrite(path: string, text: string)

  /** The registry object written to both manifest locations. */
  datatype Manifest = Manifest(schema: string, name: string, homepage: string, items: seq<RegistryItem>)

  /** How a run ends. `Aborted`: the listing failed, nothing was written and the
      process exits with status 1. `Finished`: the loop ran; `manifestCopies` of the
      two manifest writes succeeded, and a failed one makes the exit status 1. */
  datatype Report =
    | Aborted
    | Finished(converted: nat, errors: nat, skipped: nat, written: seq<FileWrite>,
               manifest: Manifest, manifestCopies: nat, exitCode: nat)

  /** The files, in order, for which every step succeeds. */
  function Converted(fs: FileSystem, files: seq<string>): (r: seq<string>)
    ensures |r| <= |files|
  {
    if files == [] then []
    else Converted(fs, files[..|files| - 1]) + (if Converts(fs, files[|files| - 1]) then [files[|files| - 1]] else [])
  }

  /** The registry items pushed for the files, in order. */
  function ItemsOf(fs: FileSystem, files: seq<string>): seq<RegistryItem> {
    if files == [] then []
    else
      var f := files[|files| - 1];
      ItemsOf(fs, files[..|files| - 1]) + (if Converts(fs, f) then [GenerateRegistryEntry(Stem(f))] else [])
  }

  /** The component files written for the files, in order. */
  function WrittenOf(fs: FileSystem, files: seq<string>): seq<FileWrite> {
    if files == [] then []
    else
      var f := files[|files| - 1];
      WrittenOf(fs, files[..|files| - 1]) + (if Converts(fs, f) then [WriteOf(f, fs.contents[f])] else [])
  }

  /** The component file written for a file read with the given contents. */
  function WriteOf(file: string, svgContent: string): FileWrite {
    FileWrite(OutputPath(Stem(file)), ComponentFor(file, svgContent))
  }

  /** Generate the component for a file that was read and write it to its output
      directory: the path and the text written, or None when the directory or the
      file cannot be written. */
  method EmitComponent(fs: FileSystem, file: string, svgContent: string) returns (written: Option<FileWrite>)
    ensures written.Some? <==> Stem(file) in fs.writableDirs
    ensures written.Some? ==> written.value.path == OutputPath(Stem(file))
    ensures written.Some? ==> written.value.text == ComponentFor(file, svgContent)
  {
    var componentCode := GenerateComponent(file, svgContent);
    var fileName := Stem(file);
    written := if fileName in fs.writableDirs then Some(FileWrite(OutputPath(fileName), componentCode)) else None;
  }

  /** `convertAllSVGs`. */
  method ConvertAllSvgs(fs: FileSystem) returns (r: Report)
    ensures fs.listing.None? <==> r.Aborted?
    ensures r.Finished? ==>
      var files := SvgFiles(fs.listing.value);
      && r.converted + r.errors == |files| && r.skipped == 0
      && r.converted == |Converted(fs, files)|
      && r.manifest == Manifest(Schema, RegistryName, Homepage, ItemsOf(fs, files))
      && r.written == WrittenOf(fs, files)
      && r.manifestCopies == (if !fs.rootManifestWritable then 0 else if !fs.publicManifestWritable then 1 else 2)
      && (r.exitCode == 0 <==> fs.rootManifestWritable && fs.publicManifestWritable)
  {
    if fs.listing.None? {
      return Aborted;
    }
    var svgFiles := SvgFiles(fs.listing.value);
    var skipped := 0;
    var converted, errors, registryItems, written := ConvertFiles(fs, svgFiles);
    var manifest := Manifest(Schema, RegistryName, Homepage, registryItems);
    var copies, exitCode := WriteManifests(fs);
    r := Finished(converted, errors, skipped, written, manifest, copies, exitCode);
  }

  /** The loop of `convertAllSVGs` over the files, in order: a file that cannot be
      read or whose component cannot be written counts as an error; every other
      one is counted as converted and its registry entry is pushed. */
  method ConvertFiles(fs: FileSystem, svgFiles: seq<string>)
    returns (converted: nat, errors: nat, registryItems: seq<RegistryItem>, written: seq<FileWrite>)
    ensures converted + errors == |svgFiles|
    ensures converted == |Converted(fs, svgFiles)|
    ensures registryItems == ItemsOf(fs, svgFiles)
    ensures written == WrittenOf(fs, svgFiles)
  {
    converted, errors := 0, 0;
    registryItems, written := [], [];
    for i := 0 to |svgFiles|
      invariant converted + errors == i
      invariant converted == |Converted(fs, svgFiles[..i])|
      invariant registryItems == ItemsOf(fs, svgFiles[..i])
      invariant written == WrittenOf(fs, svgFiles[..i])
    {
      var file := svgFiles[i];
      var fileName := Stem(file);
      var componentName := ToPascalCase(fileName);
      StepOf(fs, svgFiles, i);
      if file !in fs.contents {
        errors := errors + 1;
      } else {
        var svgContent := fs.contents[file];
        var outputPath := EmitComponent(fs, file, svgContent);
        if outputPath.None? {
          errors := errors + 1;
        } else {
          written := written + [outputPath.value];
          registryItems := registryItems + [GenerateRegistryEntry(fileName)];
          converted := converted + 1;
        }
      }
    }
    assert svgFiles[..|svgFiles|] == svgFiles;
  }

  /** The manifest is written to the repository root, then to `public/r/`; the
      first write that fails ends the run with exit status 1. The copies written
      and the exit status. */
  method WriteManifests(fs: FileSystem) returns (copies: nat, exitCode: nat)
    ensures copies == (if !fs.rootManifestWritable then 0 else if !fs.publicManifestWritable then 1 else 2)
    ensures exitCode == 0 <==> copies == 2
  {
    copies, exitCode := 0, 1;
    if fs.rootManifestWritable {
      copies := 1;
      if fs.publicManifestWritable {
        copies, exitCode := 2, 0;
      }
    }
  }

  /** One more file extends the three accumulations by its own contribution. */
  lemma StepOf(fs: FileSystem, files: seq<string>, i: nat)
    requires i < |files|
    ensures var f, pre := files[i], files[..i];
      && Converted(fs, files[..i + 1]) == Converted(fs, pre) + (if Converts(fs, f) then [f] else [])
      && ItemsOf(fs, files[..i + 1]) == ItemsOf(fs, pre) + (if Converts(fs, f) then [GenerateRegistryEntry(Stem(f))] else [])
      && WrittenOf(fs, files[..i + 1]) == WrittenOf(fs, pre) + (if Converts(fs, f) then [WriteOf(f, fs.contents[f])] else [])
  {
    assert files[..i + 1][..i] == files[..i];
  }

  // ---------------------------------------------------------------------------
  // What the run produces

  /** The k-th registry item is the entry of the k-th converted file: one item per
      converted file, in the same order. */
  lemma {:induction false} ItemsMatchConverted(fs: FileSystem, files: seq<string>)
    ensures |ItemsOf(fs, files)| == |Converted(fs, files)|
    ensures forall k :: 0 <= k < |Converted(fs, files)| ==>
      ItemsOf(fs, files)[k] == GenerateRegistryEntry(Stem(Converted(fs, files)[k]))
  {
    if files != [] {
      var pre, f := files[..|files| - 1], files[|files| - 1];
      ItemsMatchConverted(fs, pre);
      if Converts(fs, f) {
        var c, items := Converted(fs, files), ItemsOf(fs, files);
        assert c == Converted(fs, pre) + [f];
        assert items == ItemsOf(fs, pre) + [GenerateRegistryEntry(Stem(f))];
        forall k | 0 <= k < |c| ensures items[k] == GenerateRegistryEntry(Stem(c[k])) {
          if k < |c| - 1 {
            assert c[k] == Converted(fs, pre)[k];
            assert items[k] == ItemsOf(fs, pre)[k];
          }
        }
      }
    }
  }

  /** The k-th component is written where the k-th registry item says it is. */
  lemma {:induction false} WrittenMatchItems(fs: FileSystem, files: seq<string>)
    ensures |WrittenOf(fs, files)| == |ItemsOf(fs, files)|
    ensures forall k :: 0 <= k < |ItemsOf(fs, files)| ==>
      |ItemsOf(fs, files)[k].files| == 1 && WrittenOf(fs, files)[k].path == ItemsOf(fs, files)[k].files[0].path
  {
    if files != [] {
      var pre, f := files[..|files| - 1], files[|files| - 1];
      WrittenMatchItems(fs, pre);
      if Converts(fs, f) {
        EntryPointsAtComponent(Stem(f));
        var ws, items := WrittenOf(fs, files), ItemsOf(fs, files);
        assert ws == WrittenOf(fs, pre) + [WriteOf(f, fs.contents[f])];
        assert items == ItemsOf(fs, pre) + [GenerateRegistryEntry(Stem(f))];
        forall k | 0 <= k < |items| ensures |items[k].files| == 1 && ws[k].path == items[k].files[0].path {
          if k < |items| - 1 {
            assert items[k] == ItemsOf(fs, pre)[k];
            assert ws[k] == WrittenOf(fs, pre)[k];
          }
        }
      }
    }
  }

  /** A file contributes to the output only when all of its I/O succeeds; a failed
      file is excluded and the run goes on with the next. */
  lemma {:induction false} ConvertedAreSuccesses(fs: FileSystem, files: seq<string>)
    ensures forall k :: 0 <= k < |Converted(fs, files)| ==>
      Converts(fs, Converted(fs, files)[k]) && Converted(fs, files)[k] in files
    ensures forall f :: f in files && Converts(fs, f) ==> f in Converted(fs, files)
  {
    if files != [] {
      var pre := files[..|files| - 1];
      ConvertedAreSuccesses(fs, pre);
      assert files == pre + [files[|files| - 1]];
      var c := Converted(fs, files);
      forall k | 0 <= k < |c| ensures Converts(fs, c[k]) && c[k] in files {
        if k < |Converted(fs, pre)| {
          assert c[k] == Converted(fs, pre)[k];
        }
      }
    }
  }

  /** When every step succeeds for every file, all files are converted and none
      fails. */
  lemma {:induction false} AllConverted(fs: FileSystem, files: seq<string>)
    requires forall i :: 0 <= i < |files| ==> Converts(fs, files[i])
    ensures Converted(fs, files) == files
  {
    if files != [] {
      var pre := files[..|files| - 1];
      AllConverted(fs, pre);
      assert files == pre + [files[|files| - 1]];
    }
  }

  /** Three files of which the second fails: the first and the third are converted,
      in that order, and one error is counted. */
  lemma SecondFails(fs: FileSystem, a: string, b: string, c: string)
    requires Converts(fs, a) && !Converts(fs, b) && Converts(fs, c)
    ensures Converted(fs, [a, b, c]) == [a, c]
  {
    ConvertedStep(fs, [], a);
    ConvertedStep(fs, [a], b);
    ConvertedStep(fs, [a, b], c);
    assert [] + [a] == [a] && [a] + [b] == [a, b] && [a, b] + [c] == [a, b, c];
  }

  /** One more file adds itself at the end exactly when it is converted. */
  lemma ConvertedStep(fs: FileSystem, files: seq<string>, f: string)
    ensures Converted(fs, files + [f]) == Converted(fs, files) + (if Converts(fs, f) then [f] else [])
  {
    assert (files + [f])[..|files|] == files;
  }

  /** The converted files keep the sorted order of the files visited. */
  lemma {:induction false} ConvertedSorted(fs: FileSystem, files: seq<string>)
    requires Sorted(files)
    ensures Sorted(Converted(fs, files))
  {
    if files != [] {
      var pre, f := files[..|files| - 1], files[|files| - 1];
      assert Sorted(pre) by {
        forall i, j | 0 <= i < j < |pre| ensures Below(pre[i], pre[j]) {
          assert pre[i] == files[i] && pre[j] == files[j];
        }
      }
      ConvertedSorted(fs, pre);
      ConvertedAreSuccesses(fs, pre);
      var c := Converted(fs, pre);
      if Converts(fs, f) {
        assert Converted(fs, files) == c + [f];
        forall i, j | 0 <= i < j < |c| + 1 ensures Below((c + [f])[i], (c + [f])[j]) {
          if j == |c| {
            var k :| 0 <= k < |pre| && pre[k] == c[i];
            assert files[k] == c[i];
          } else {
            assert (c + [f])[i] == c[i] && (c + [f])[j] == c[j];
          }
        }
      } else {
        assert Converted(fs, files) == c;
      }
    }
  }

  /** Every name visited ends in `.svg`, the names come in sorted order, and each
      `.svg` name of the listing is visited as often as it is listed. */
  lemma VisitedFiles(listing: seq<string>)
    ensures forall i :: 0 <= i < |SvgFiles(listing)| ==> IsSvgName(SvgFiles(listing)[i])
    ensures Sorted(SvgFiles(listing))
    ensures forall f :: multiset(SvgFiles(listing))[f] == if IsSvgName(f) then multiset(listing)[f] else 0
  {
    SortIsSortedPermutation(SvgNames(listing));
    SvgNamesCount(listing);
    forall i | 0 <= i < |SvgFiles(listing)| ensures IsSvgName(SvgFiles(listing)[i]) {
      var f := SvgFiles(listing)[i];
      assert f in multiset(SvgFiles(listing));
      assert f in multiset(SvgNames(listing));
      var k :| 0 <= k < |SvgNames(listing)| && SvgNames(listing)[k] == f;
    }
  }

  lemma {:induction false} SvgNamesCount(listing: seq<string>)
    ensures forall f :: multiset(SvgNames(listing))[f] == if IsSvgName(f) then multiset(listing)[f] else 0
  {
    if listing != [] {
      SvgNamesCount(listing[1..]);
      assert listing == [listing[0]] + listing[1..];
    }
  }

  /** The order in which the directory listing returns the names does not matter:
      the same names give the same visiting order, hence the same manifest. */
  lemma ListingOrderIrrelevant(xs: seq<string>, ys: seq<string>)
    requires multiset(xs) == multiset(ys)
    ensures SvgFiles(xs) == SvgFiles(ys)
  {
    SvgNamesCount(xs);
    SvgNamesCount(ys);
    assert multiset(SvgNames(xs)) == multiset(SvgNames(ys));
    SortIgnoresOrder(SvgNames(xs), SvgNames(ys));
  }
}
