/**
 * `generateFilePaths` of the safetensors document generator: from the input folder of an
 * indexing run and the names listed in it, the three side files the generator reads.
 * A folder `<g>/<parent>/<shard>` holding `<base>.jsonl` (or `.json`, `.gz`) leads to
 * `<g>/<parent>.safetensors/<shard>/<base>_vectors.safetensors`, `..._docids.safetensors`
 * and `..._docid_to_idx.json`.
 *
 * Paths follow the Unix implementation of `java.nio.file.Path`: `Paths.get` drops empty
 * components (repeated and trailing slashes), `getParent` drops the last name, and the root
 * `/` has neither a parent nor a file name.
 */
module FilePaths {
  import opened Outcomes
  import opened Strings

  /** A name component of a Unix path: non-empty and free of '/'. */
  predicate ValidName(n: string) {
    |n| > 0 && SlashFree(n)
  }

  predicate SlashFree(s: string) {
    forall k :: 0 <= k < |s| ==> s[k] != '/'
  }

  /** A `java.nio.file.Path` on Unix: absolute or relative, and its name components. */
  datatype Path = Path(absolute: bool, names: seq<string>)

  predicate ValidPath(p: Path) {
    forall i :: 0 <= i < |p.names| ==> ValidName(p.names[i])
  }

  /** Where the name starting at `from` ends: at the next '/' or at the end of `s`. */
  function NameEnd(s: string, from: nat): (k: nat)
    requires from <= |s|
    ensures from <= k <= |s|
    ensures forall j :: from <= j < k ==> s[j] != '/'
    ensures k < |s| ==> s[k] == '/'
    decreases |s| - from
  {
    if from == |s| || s[from] == '/' then from else NameEnd(s, from + 1)
  }

  /** The non-empty '/'-separated components of `s`, in order. */
  function SplitNames(s: string): (names: seq<string>)
    ensures forall i :: 0 <= i < |names| ==> ValidName(names[i])
    decreases |s|
  {
    if s == [] then []
    else if s[0] == '/' then SplitNames(s[1..])
    else
      var k := NameEnd(s, 0);
      [s[..k]] + SplitNames(s[k..])
  }

  /** `Paths.get(s)`: a leading '/' makes the path absolute. */
  function Parse(s: string): (p: Path)
    ensures ValidPath(p)
    ensures p.absolute <==> |s| > 0 && s[0] == '/'
  {
    Path(|s| > 0 && s[0] == '/', SplitNames(s))
  }

  /** The names separated by single slashes. */
  function Join(names: seq<string>): string {
    if |names| == 0 then ""
    else if |names| == 1 then names[0]
    else names[0] + "/" + Join(names[1..])
  }

  /** `Path.toString()`. */
  function Show(p: Path): string {
    (if p.absolute then "/" else "") + Join(p.names)
  }

  /** `Paths.get(first, more)`: the two strings are joined by '/' unless one is empty. */
  function Get(first: string, more: string): Path {
    Parse(if more == [] then first else if first == [] then more else first + "/" + more)
  }

  /** `getParent()`: `null` for a single relative name, for the root and for the empty path. */
  function Parent(p: Path): Option<Path> {
    if |p.names| >= 2 then Some(Path(p.absolute, p.names[..|p.names| - 1]))
    else if |p.names| == 1 && p.absolute then Some(Path(true, []))
    else None
  }

  /** `getFileName().toString()`: `getFileName()` is `null` for the root. */
  function FileName(p: Path): Option<string> {
    if p.names == [] then None else Some(p.names[|p.names| - 1])
  }

  /** The `allowedFileSuffix` test: the name ends with `.json`, `.jsonl` or `.gz`. */
  predicate Allowed(name: string) {
    EndsWith(name, ".json") || EndsWith(name, ".jsonl") || EndsWith(name, ".gz")
  }

  /** `filter(..).findFirst()` over the listing: the position of the first allowed name. */
  function FirstInput(listing: seq<string>): (r: Option<nat>)
    ensures r.Some? ==> r.value < |listing| && Allowed(listing[r.value])
    ensures r.Some? ==> forall j :: 0 <= j < r.value ==> !Allowed(listing[j])
    ensures r.None? <==> forall j :: 0 <= j < |listing| ==> !Allowed(listing[j])
  {
    if listing == [] then None
    else if Allowed(listing[0]) then Some(0)
    else match FirstInput(listing[1..])
      case None => None
      case Some(i) => Some(i + 1)
  }

  /** `replace(".jsonl", "").replace(".json", "").replace(".gz", "")`. */
  function JavaBaseName(name: string): string {
    RemoveAll(RemoveAll(RemoveAll(name, ".jsonl"), ".json"), ".gz")
  }

  datatype FilePaths = FilePaths(vectors: string, docids: string, docidToIdx: string)

  /**
   * The ways `generateFilePaths` fails: the folder cannot be listed, no allowed file is in
   * it (both `IOException`), or a parent or file name it dereferences is `null`.
   */
  datatype PathError = ListingFailed | NoInputFile | NullPath

  function Need<T>(o: Option<T>): Result<T, PathError> {
    if o.Some? then Ok(o.value) else Err(NullPath)
  }

  /**
   * `Paths.get(grandParent + "/" + parentName + ".safetensors", shardName)`: the shard's
   * folder in a sibling tree named after the parent.
   */
  function SafetensorsFolderOf(inputFolder: Path): Result<Path, PathError> {
    var parent :- Need(Parent(inputFolder));
    var grandParent :- Need(Parent(parent));
    var parentName :- Need(FileName(parent));
    var shardName :- Need(FileName(inputFolder));
    Ok(Get(Show(grandParent) + "/" + parentName + ".safetensors", shardName))
  }

  /** The three side files of `baseName` in `folder`. */
  function SideFilesIn(folder: Path, baseName: string): FilePaths {
    FilePaths(
      Show(Get(Show(folder), baseName + "_vectors.safetensors")),
      Show(Get(Show(folder), baseName + "_docids.safetensors")),
      Show(Get(Show(folder), baseName + "_docid_to_idx.json")))
  }

  /** `Files.list` yields `listing`; `None` stands for a folder that cannot be listed. */
  function GenerateFilePaths(inputFolder: Path, listing: Option<seq<string>>): Result<FilePaths, PathError> {
    if listing.None? then Err(ListingFailed)
    else if FirstInput(listing.value).None? then Err(NoInputFile)
    else
      var inputFileName := listing.value[FirstInput(listing.value).value];
      var folder :- SafetensorsFolderOf(inputFolder);
      Ok(SideFilesIn(folder, JavaBaseName(inputFileName)))
  }

  // ---------------------------------------------------------------------------------
  // Reference layout and the properties of generateFilePaths
  // ---------------------------------------------------------------------------------

  /** The folders above the input are deep enough for a grandparent and a parent name. */
  predicate Deep(p: Path) {
    |p.names| >= 3 || (p.absolute && |p.names| == 2)
  }

  /**
   * `<g>/<parent>.safetensors/<shard>/<file>` for the input folder `<g>/<parent>/<shard>`:
   * the side files live beside the collection, in a sibling tree named after the parent.
   */
  function SideFile(inputFolder: Path, file: string): Path
    requires |inputFolder.names| >= 2
  {
    var ns := inputFolder.names;
    var n := |ns|;
    Path(inputFolder.absolute, ns[..n - 2] + [ns[n - 2] + ".safetensors", ns[n - 1], file])
  }

  lemma {:induction false} NameEndIs(s: string, k: nat)
    requires k <= |s|
    requires forall j :: 0 <= j < k ==> s[j] != '/'
    requires k == |s| || s[k] == '/'
    ensures NameEnd(s, 0) == k
  {
  }

  /** A leading slash adds nothing to the names. */
  lemma SplitSlash(s: string)
    ensures SplitNames("/" + s) == SplitNames(s)
  {
    assert ("/" + s)[1..] == s;
  }

  /** A valid name followed by a slash or by nothing is split off whole. */
  lemma SplitName(n: string, rest: string)
    requires ValidName(n)
    requires rest == [] || rest[0] == '/'
    ensures SplitNames(n + rest) == [n] + SplitNames(rest)
  {
    var s := n + rest;
    NameEndIs(s, |n|);
    assert s[..|n|] == n && s[|n|..] == rest;
  }

  lemma {:induction false} SplitJoin(names: seq<string>)
    requires forall i :: 0 <= i < |names| ==> ValidName(names[i])
    ensures SplitNames(Join(names)) == names
  {
    if |names| == 1 {
      SplitName(names[0], []);
      assert names[0] + [] == names[0];
    } else if |names| >= 2 {
      var rest := Join(names[1..]);
      assert names[0] + "/" + rest == names[0] + ("/" + rest);
      SplitName(names[0], "/" + rest);
      SplitSlash(rest);
      SplitJoin(names[1..]);
      assert names == [names[0]] + names[1..];
    }
  }

  /** A non-empty join starts with the first character of the first name. */
  lemma JoinHead(names: seq<string>)
    requires |names| > 0 && ValidName(names[0])
    ensures |Join(names)| > 0 && Join(names)[0] == names[0][0]
  {
  }

  /** `Path.toString()` and `Paths.get` are inverse on valid paths. */
  lemma ParseShow(p: Path)
    requires ValidPath(p)
    ensures Parse(Show(p)) == p
  {
    SplitJoin(p.names);
    if p.absolute {
      SplitSlash(Join(p.names));
    } else {
      assert Show(p) == Join(p.names);
      if |p.names| > 0 {
        JoinHead(p.names);
      }
    }
  }

  lemma {:induction false} JoinAppend(a: seq<string>, b: seq<string>)
    requires |a| > 0 && |b| > 0
    ensures Join(a) + "/" + Join(b) == Join(a + b)
  {
    if |a| == 1 {
      assert (a + b)[1..] == b;
    } else {
      JoinAppend(a[1..], b);
      assert (a + b)[1..] == a[1..] + b;
    }
  }

  /** Appending slash-separated names to the text of a non-empty path appends them to it. */
  lemma ParseAppend(p: Path, more: seq<string>)
    requires ValidPath(p) && (p.absolute || |p.names| > 0)
    requires |more| > 0 && forall i :: 0 <= i < |more| ==> ValidName(more[i])
    ensures Parse(Show(p) + "/" + Join(more)) == Path(p.absolute, p.names + more)
  {
    if |p.names| == 0 {
      ParseAppendRoot(more);
      assert p == Path(true, []);
    } else {
      var q := Path(p.absolute, p.names + more);
      JoinAppend(p.names, more);
      ShowAppend(p, more);
      ParseShow(q);
    }
  }

  lemma ParseAppendRoot(more: seq<string>)
    requires forall i :: 0 <= i < |more| ==> ValidName(more[i])
    ensures Parse(Show(Path(true, [])) + "/" + Join(more)) == Path(true, more)
  {
    var j := Join(more);
    var s := Show(Path(true, [])) + "/" + j;
    assert Show(Path(true, [])) == "/";
    assert s == "/" + ("/" + j);
    SplitSlash("/" + j);
    SplitSlash(j);
    SplitJoin(more);
    assert SplitNames(s) == more;
  }

  lemma ShowAppend(p: Path, more: seq<string>)
    requires |p.names| > 0 && |more| > 0
    requires Join(p.names) + "/" + Join(more) == Join(p.names + more)
    ensures Show(p) + "/" + Join(more) == Show(Path(p.absolute, p.names + more))
  {
    var q := Path(p.absolute, p.names + more);
    var pre := if p.absolute then "/" else "";
    var a, b, j := Join(p.names), Join(more), Join(q.names);
    assert Show(p) == pre + a;
    assert Show(q) == pre + j;
    Regroup4(pre, a, "/", b);
  }

  lemma ValidConcat(a: string, b: string)
    requires ValidName(a) && SlashFree(b)
    ensures ValidName(a + b)
  {
  }

  /** `Paths.get(first, more)` for two non-empty strings parses them joined by a slash. */
  lemma GetJoined(first: string, more: string)
    requires first != [] && more != []
    ensures Get(first, more) == Parse(first + "/" + more)
  {
  }

  /** The JDK's `Paths.get(folder.toString(), file)`, for a non-empty folder and a name. */
  lemma GetFile(folder: Path, file: string)
    requires ValidPath(folder) && (folder.absolute || |folder.names| > 0) && ValidName(file)
    ensures Get(Show(folder), file) == Path(folder.absolute, folder.names + [file])
  {
    if folder.absolute {
      assert Show(folder)[0] == '/';
    } else {
      JoinHead(folder.names);
    }
    GetJoined(Show(folder), file);
    assert Join([file]) == file;
    ParseAppend(folder, [file]);
  }

  /** The file names produced from a listed name: its base name and a fixed suffix. */
  lemma SuffixedValid(name: string, suffix: string)
    requires ValidName(name) && |suffix| > 0 && SlashFree(suffix)
    ensures ValidName(JavaBaseName(name) + suffix)
  {
    RemoveAllAvoids(name, ".jsonl", '/');
    RemoveAllAvoids(RemoveAll(name, ".jsonl"), ".json", '/');
    RemoveAllAvoids(RemoveAll(RemoveAll(name, ".jsonl"), ".json"), ".gz", '/');
  }

  /** The safetensors folder: `<g>/<parent>.safetensors/<shard>`. */
  lemma SafetensorsFolder(grandParent: Path, parentName: string, shardName: string)
    requires ValidPath(grandParent) && (grandParent.absolute || |grandParent.names| > 0)
    requires ValidName(parentName) && ValidName(shardName)
    ensures Get(Show(grandParent) + "/" + parentName + ".safetensors", shardName)
      == Path(grandParent.absolute, grandParent.names + [parentName + ".safetensors", shardName])
  {
    var named := parentName + ".safetensors";
    SuffixesSlashFree();
    ValidConcat(parentName, ".safetensors");
    var first := Show(grandParent) + "/" + parentName + ".safetensors";
    assert first == Show(grandParent) + "/" + named;
    GetJoined(first, shardName);
    assert Join([named, shardName]) == named + "/" + shardName;
    assert first + "/" + shardName == Show(grandParent) + "/" + Join([named, shardName]);
    ParseAppend(grandParent, [named, shardName]);
  }

  lemma SuffixesSlashFree()
    ensures SlashFree(".safetensors")
    ensures SlashFree("_vectors.safetensors") && SlashFree("_docids.safetensors")
    ensures SlashFree("_docid_to_idx.json")
  {
  }

  /** A side file of the first allowed name, opened in the safetensors folder. */
  lemma SideFileIn(inputFolder: Path, name: string, suffix: string)
    requires ValidPath(inputFolder) && Deep(inputFolder) && ValidName(name)
    requires |suffix| > 0 && SlashFree(suffix)
    ensures Get(Show(FolderRef(inputFolder)), JavaBaseName(name) + suffix)
      == SideFile(inputFolder, JavaBaseName(name) + suffix)
  {
    var ns := inputFolder.names;
    var n := |ns|;
    var folder := FolderRef(inputFolder);
    var file := JavaBaseName(name) + suffix;
    assert ValidName(ns[n - 2]) && ValidName(ns[n - 1]);
    SuffixesSlashFree();
    ValidConcat(ns[n - 2], ".safetensors");
    assert ValidPath(folder);
    SuffixedValid(name, suffix);
    GetFile(folder, file);
    assert folder.names + [file] == SideFile(inputFolder, file).names;
  }

  /** The parent, grandparent and file names `generateFilePaths` dereferences exist. */
  lemma Parents(p: Path)
    requires Deep(p)
    ensures
      var n := |p.names|;
      var parent := Path(p.absolute, p.names[..n - 1]);
      && Parent(p) == Some(parent)
      && Parent(parent) == Some(Path(p.absolute, p.names[..n - 2]))
      && FileName(parent) == Some(p.names[n - 2])
      && FileName(p) == Some(p.names[n - 1])
  {
    var n := |p.names|;
    TakeTake(p.names, n - 1, n - 2);
    if n == 2 {
      assert p.names[..n - 2] == [];
    }
  }

  /**
   * For a deep enough input folder whose listing contains an allowed name, the three paths
   * are the side files of the first allowed name's base name.
   */
  lemma GeneratedPaths(inputFolder: Path, listing: seq<string>)
    requires ValidPath(inputFolder) && Deep(inputFolder)
    requires forall i :: 0 <= i < |listing| ==> ValidName(listing[i])
    requires FirstInput(listing).Some?
    ensures
      var base := JavaBaseName(listing[FirstInput(listing).value]);
      GenerateFilePaths(inputFolder, Some(listing)) == Ok(FilePaths(
        Show(SideFile(inputFolder, base + "_vectors.safetensors")),
        Show(SideFile(inputFolder, base + "_docids.safetensors")),
        Show(SideFile(inputFolder, base + "_docid_to_idx.json"))))
  {
    FolderOfDeep(inputFolder);
    SideFilesOfDeep(inputFolder, listing[FirstInput(listing).value]);
  }

  /** The `.safetensors` folder of a deep enough input folder. */
  function FolderRef(inputFolder: Path): Path
    requires |inputFolder.names| >= 2
  {
    var ns := inputFolder.names;
    var n := |ns|;
    Path(inputFolder.absolute, ns[..n - 2] + [ns[n - 2] + ".safetensors", ns[n - 1]])
  }

  lemma FolderOfDeep(inputFolder: Path)
    requires ValidPath(inputFolder) && Deep(inputFolder)
    ensures SafetensorsFolderOf(inputFolder) == Ok(FolderRef(inputFolder))
  {
    var ns := inputFolder.names;
    var n := |ns|;
    var parent := Path(inputFolder.absolute, ns[..n - 1]);
    var grandParent := Path(inputFolder.absolute, ns[..n - 2]);
    var folder := Get(Show(grandParent) + "/" + ns[n - 2] + ".safetensors", ns[n - 1]);
    assert SafetensorsFolderOf(inputFolder) == Ok(folder) by {
      Parents(inputFolder);
      assert Need(Parent(inputFolder)) == Ok(parent);
      assert Need(Parent(parent)) == Ok(grandParent);
      assert Need(FileName(parent)) == Ok(ns[n - 2]);
      assert Need(FileName(inputFolder)) == Ok(ns[n - 1]);
    }
    assert Get(Show(grandParent) + "/" + ns[n - 2] + ".safetensors", ns[n - 1]) == FolderRef(inputFolder) by {
      assert ValidName(ns[n - 2]) && ValidName(ns[n - 1]);
      SafetensorsFolder(grandParent, ns[n - 2], ns[n - 1]);
    }
  }

  lemma SideFilesOfDeep(inputFolder: Path, name: string)
    requires ValidPath(inputFolder) && Deep(inputFolder) && ValidName(name)
    ensures
      var base := JavaBaseName(name);
      SideFilesIn(FolderRef(inputFolder), base) == FilePaths(
        Show(SideFile(inputFolder, base + "_vectors.safetensors")),
        Show(SideFile(inputFolder, base + "_docids.safetensors")),
        Show(SideFile(inputFolder, base + "_docid_to_idx.json")))
  {
    SuffixesSlashFree();
    SideFileIn(inputFolder, name, "_vectors.safetensors");
    SideFileIn(inputFolder, name, "_docids.safetensors");
    SideFileIn(inputFolder, name, "_docid_to_idx.json");
  }

  /** Which error `generateFilePaths` raises, for every input folder and listing. */
  lemma GenerateFilePathsErrors(inputFolder: Path, listing: Option<seq<string>>)
    requires ValidPath(inputFolder)
    ensures GenerateFilePaths(inputFolder, listing) == Err(ListingFailed) <==> listing.None?
    ensures GenerateFilePaths(inputFolder, listing) == Err(NoInputFile)
      <==> listing.Some? && forall j :: 0 <= j < |listing.value| ==> !Allowed(listing.value[j])
    ensures GenerateFilePaths(inputFolder, listing) == Err(NullPath)
      <==> listing.Some? && FirstInput(listing.value).Some? && !Deep(inputFolder)
  {
  }

  /** Removing the three extensions from `stem + suf` leaves `stem`, for an extension-free stem. */
  lemma BaseNameOfSuffixed(stem: string, suf: string)
    requires Free(stem, ".jsonl") && Free(stem, ".json") && Free(stem, ".gz")
    requires suf == ".jsonl" || suf == ".json" || suf == ".gz"
    ensures JavaBaseName(stem + suf) == stem
  {
    if suf == ".jsonl" {
      NoOccurrenceInStem(stem, suf, ".jsonl");
      RemoveTrailing(stem, ".jsonl");
      FreeUnchanged(stem, ".json");
      FreeUnchanged(stem, ".gz");
    } else if suf == ".json" {
      FreeJoin(stem, suf, ".jsonl");
      FreeUnchanged(stem + suf, ".jsonl");
      NoOccurrenceInStem(stem, suf, ".json");
      RemoveTrailing(stem, ".json");
      FreeUnchanged(stem, ".gz");
    } else {
      FreeJoin(stem, suf, ".jsonl");
      FreeUnchanged(stem + suf, ".jsonl");
      FreeJoin(stem, suf, ".json");
      FreeUnchanged(stem + suf, ".json");
      NoOccurrenceInStem(stem, suf, ".gz");
      RemoveTrailing(stem, ".gz");
    }
  }

  /** The input folder of the generator's unit test. */
  function Nfcorpus(): Path {
    Path(false, ["collections", "beir-v1.0.0", "bge-base-en-v1.5", "nfcorpus"])
  }

  lemma BaseNameVectorsPart00()
    ensures JavaBaseName("vectors.part00.jsonl") == "vectors.part00"
  {
    FreeByLead("vectors.part00", ".jsonl");
    FreeByLead("vectors.part00", ".json");
    FreeByLead("vectors.part00", ".gz");
    assert "vectors.part00.jsonl" == "vectors.part00" + ".jsonl";
    BaseNameOfSuffixed("vectors.part00", ".jsonl");
  }

  lemma NfcorpusValid()
    ensures ValidPath(Nfcorpus()) && Deep(Nfcorpus())
  {
    assert ValidName("collections") && ValidName("beir-v1.0.0");
    assert ValidName("bge-base-en-v1.5") && ValidName("nfcorpus");
  }

  lemma NfcorpusSideFile(file: string)
    ensures SideFile(Nfcorpus(), file)
      == Path(false, ["collections", "beir-v1.0.0", "bge-base-en-v1.5.safetensors", "nfcorpus"] + [file])
  {
    var ns := Nfcorpus().names;
    assert ns[..2] == ["collections", "beir-v1.0.0"];
    assert ns[2] + ".safetensors" == "bge-base-en-v1.5.safetensors";
  }

  /**
   * The generator's unit test: the folder `collections/beir-v1.0.0/bge-base-en-v1.5/nfcorpus`
   * whose first allowed file is `vectors.part00.jsonl` leads to the side files
   * `collections/beir-v1.0.0/bge-base-en-v1.5.safetensors/nfcorpus/vectors.part00_*`.
   */
  lemma NfcorpusPaths(listing: seq<string>)
    requires forall i :: 0 <= i < |listing| ==> ValidName(listing[i])
    requires FirstInput(listing).Some? && listing[FirstInput(listing).value] == "vectors.part00.jsonl"
    ensures
      var folder := ["collections", "beir-v1.0.0", "bge-base-en-v1.5.safetensors", "nfcorpus"];
      GenerateFilePaths(Nfcorpus(), Some(listing)) == Ok(FilePaths(
        Show(Path(false, folder + ["vectors.part00" + "_vectors.safetensors"])),
        Show(Path(false, folder + ["vectors.part00" + "_docids.safetensors"])),
        Show(Path(false, folder + ["vectors.part00" + "_docid_to_idx.json"]))))
  {
    NfcorpusValid();
    BaseNameVectorsPart00();
    GeneratedPaths(Nfcorpus(), listing);
    NfcorpusSideFile("vectors.part00" + "_vectors.safetensors");
    NfcorpusSideFile("vectors.part00" + "_docids.safetensors");
    NfcorpusSideFile("vectors.part00" + "_docid_to_idx.json");
  }
}
