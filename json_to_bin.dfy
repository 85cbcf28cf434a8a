/**
 * `process_file` of the JSONL-to-SafeTensors converter: the output names derived from
 * the input's base name, the overwrite guard, the choice of opener by suffix, and the
 * line loop that collects each accepted line's vector and the character codes of its
 * docid, followed by the zero padding of those codes into one matrix.
 *
 * The file system is a predicate `present` (`os.path.exists`) and a function `read` from the chosen opener to
 * the lines it yields (`None` when opening or reading raises `IOError`); `json.loads` is
 * done already: a line is `Malformed` or the value it parses to.
 */
module JsonToBin {
  import opened Outcomes
  import opened Strings
  import FilePaths

  // ---------------------------------------------------------------------------------
  // Parsed lines
  // ---------------------------------------------------------------------------------

  /**
   * A value `json.loads` returns. A JSON number with a fraction or an exponent is a Python
   * `float`, kept abstract as its bits; any other number is an `int`. An object keeps its
   * members in text order, duplicates included.
   */
  datatype Json =
    | JNull
    | JBool(b: bool)
    | JInt(i: int)
    | JFloat(bits: nat)
    | JString(s: string)
    | JArray(elements: seq<Json>)
    | JObject(members: seq<(string, Json)>)

  /** One input line: text `json.loads` rejects (`JSONDecodeError`), or its value. */
  datatype Line = Malformed | Parsed(value: Json)

  /** The position of the last member named `key`: the one `json.loads` keeps. */
  function LastMember(members: seq<(string, Json)>, key: string): (r: Option<nat>)
    ensures r.None? <==> forall i :: 0 <= i < |members| ==> members[i].0 != key
    ensures r.Some? ==> r.value < |members| && members[r.value].0 == key &&
                        forall j :: r.value < j < |members| ==> members[j].0 != key
    decreases |members|
  {
    if members == [] then None
    else if members[|members| - 1].0 == key then Some(|members| - 1)
    else
      var front := members[..|members| - 1];
      assert forall i :: 0 <= i < |front| ==> front[i] == members[i];
      LastMember(front, key)
  }

  /** The value of `key` in the dict `json.loads` builds: the last member with that name wins. */
  function Member(members: seq<(string, Json)>, key: string): Option<Json> {
    match LastMember(members, key)
    case None => None
    case Some(i) => Some(members[i].1)
  }

  /** The keys of that dict in iteration order: each name once, where it first occurs. */
  function DictKeys(members: seq<(string, Json)>): (keys: seq<string>)
    ensures forall k :: k in keys <==> exists i :: 0 <= i < |members| && members[i].0 == k
    ensures forall i, j :: 0 <= i < j < |keys| ==> keys[i] != keys[j]
    decreases |members|
  {
    if members == [] then []
    else
      var front := members[..|members| - 1];
      var keys := DictKeys(front);
      assert forall i :: 0 <= i < |front| ==> front[i] == members[i];
      if members[|members| - 1].0 in keys then keys else keys + [members[|members| - 1].0]
  }

  // ---------------------------------------------------------------------------------
  // One line of the loop
  // ---------------------------------------------------------------------------------

  /** `[ord(char) for char in s]` on a `str`: the code point of every character. */
  function Codes(s: string): (codes: seq<nat>)
    ensures |codes| == |s|
  {
    seq(|s|, i requires 0 <= i < |s| => s[i] as nat)
  }

  /** `ord(x)`: defined on a one-character string only, `TypeError` (`None`) otherwise. */
  function Ord(x: Json): Option<nat> {
    if x.JString? && |x.s| == 1 then Some(x.s[0] as nat) else None
  }

  /** `[ord(x) for x in items]`: fails as soon as one item has no `ord`. */
  function OrdsOf(items: seq<Json>): (r: Option<seq<nat>>)
    ensures r.Some? <==> forall i :: 0 <= i < |items| ==> Ord(items[i]).Some?
    ensures r.Some? ==> |r.value| == |items| && forall i :: 0 <= i < |items| ==> r.value[i] == Ord(items[i]).value
    decreases |items|
  {
    if items == [] then Some([])
    else
      var front := items[..|items| - 1];
      assert forall i :: 0 <= i < |front| ==> front[i] == items[i];
      match OrdsOf(front)
      case None => None
      case Some(codes) =>
        match Ord(items[|items| - 1])
        case None => None
        case Some(c) => Some(codes + [c])
  }

  /**
   * `[ord(char) for char in docid]`: iterating a `str` yields its characters, a list its
   * elements and a dict its keys; iterating any other value raises `TypeError`.
   */
  function DocidCodes(docid: Json): Option<seq<nat>> {
    match docid
    case JString(s) => Some(Codes(s))
    case JArray(items) => OrdsOf(items)
    case JObject(members) =>
      var keys := DictKeys(members);
      OrdsOf(seq(|keys|, i requires 0 <= i < |keys| => JString(keys[i])))
    case _ => None
  }

  /** What `vector[0]` gives: an element, a `KeyError` (caught by the loop), or another exception. */
  datatype Head = Element(value: Json) | KeyMissing | Raises

  /**
   * `vector[0]`: the first element of a list, the first character of a `str`, a `KeyError`
   * on a dict (its keys are strings, never `0`); `IndexError` on an empty list or string and
   * `TypeError` on `None`, a number or a boolean.
   */
  function First(vector: Json): Head {
    match vector
    case JArray(items) => if |items| > 0 then Element(items[0]) else Raises
    case JString(s) => if |s| > 0 then Element(JString([s[0]])) else Raises
    case JObject(_) => KeyMissing
    case _ => Raises
  }

  /**
   * The effect of one line on the two lists: none; the vector alone (its docid raised
   * `KeyError` after the vector was appended); the vector and the docid's codes; or an
   * exception the loop does not catch, which ends `process_file`.
   */
  datatype Step = Skipped | VectorOnly(vector: Json) | Kept(vector: Json, codes: seq<nat>) | Crashed

  /** The body of the line loop, from `json.loads` to `docids.append`. */
  function Classify(line: Line): Step {
    match line
    case Malformed => Skipped
    case Parsed(JObject(members)) =>
      var vector := if Member(members, "vector").Some? then Member(members, "vector").value else JArray([JNull]);
      (match First(vector)
       case Raises => Crashed
       case KeyMissing => Skipped
       case Element(head) =>
         if !head.JFloat? then Skipped
         else
           (match Member(members, "docid")
            case None => VectorOnly(vector)
            case Some(docid) =>
              if DocidCodes(docid).Some? then Kept(vector, DocidCodes(docid).value) else Crashed))
    case Parsed(_) => Crashed
  }

  // ---------------------------------------------------------------------------------
  // The whole loop
  // ---------------------------------------------------------------------------------

  /** The `vectors` and `docids` lists. */
  datatype Lists = Lists(vectors: seq<Json>, docids: seq<seq<nat>>)

  function Append(lists: Lists, step: Step): Option<Lists> {
    match step
    case Skipped => Some(lists)
    case VectorOnly(v) => Some(Lists(lists.vectors + [v], lists.docids))
    case Kept(v, c) => Some(Lists(lists.vectors + [v], lists.docids + [c]))
    case Crashed => None
  }

  /** The two lists after the loop over `lines`, or `None` when a line raised an uncaught exception. */
  function Collect(lines: seq<Line>): Option<Lists>
    decreases |lines|
  {
    if lines == [] then Some(Lists([], []))
    else
      match Collect(lines[..|lines| - 1])
      case None => None
      case Some(lists) => Append(lists, Classify(lines[|lines| - 1]))
  }

  /** The number of lines whose vector went in without a docid. */
  function Orphans(lines: seq<Line>): nat
    decreases |lines|
  {
    if lines == [] then 0
    else Orphans(lines[..|lines| - 1]) + (if Classify(lines[|lines| - 1]).VectorOnly? then 1 else 0)
  }

  /** `for line in file`, with `pbar.update(1)` once per line in the `finally` clause. */
  method ScanLines(lines: seq<Line>) returns (vectors: seq<Json>, docids: seq<seq<nat>>, crashed: bool, progress: nat)
    ensures crashed <==> Collect(lines).None?
    ensures !crashed ==> Collect(lines) == Some(Lists(vectors, docids)) && progress == |lines|
  {
    vectors, docids, crashed, progress := [], [], false, 0;
    for i := 0 to |lines|
      invariant progress == i
      invariant Collect(lines[..i]) == Some(Lists(vectors, docids))
    {
      assert lines[..i + 1][..i] == lines[..i];
      var step := Classify(lines[i]);
      progress := progress + 1;
      match step {
        case Skipped =>
        case VectorOnly(v) =>
          vectors := vectors + [v];
        case Kept(v, c) =>
          vectors := vectors + [v];
          docids := docids + [c];
        case Crashed =>
          CrashPersists(lines, i + 1);
          crashed := true;
          return;
      }
    }
    assert lines[..|lines|] == lines;
  }

  // ---------------------------------------------------------------------------------
  // Padding of the docid codes
  // ---------------------------------------------------------------------------------

  /** The length of the longest row, 0 for no rows. */
  function Width(rows: seq<seq<nat>>): (w: nat)
    ensures forall k :: 0 <= k < |rows| ==> |rows[k]| <= w
    ensures rows != [] ==> exists k :: 0 <= k < |rows| && |rows[k]| == w
    ensures rows == [] ==> w == 0
    decreases |rows|
  {
    if rows == [] then 0
    else
      var front := rows[..|rows| - 1];
      var w := Width(front);
      assert forall k :: 0 <= k < |front| ==> front[k] == rows[k];
      if |rows[|rows| - 1]| > w then |rows[|rows| - 1]| else w
  }

  function Zeros(n: nat): (z: seq<nat>)
    ensures |z| == n && forall i :: 0 <= i < n ==> z[i] == 0
  {
    seq(n, _ => 0)
  }

  /** `pad_sequence(rows, batch_first=True)`: every row followed by zeros up to the widest. */
  function Padded(rows: seq<seq<nat>>): seq<seq<nat>> {
    seq(|rows|, k requires 0 <= k < |rows| => rows[k] + Zeros(Width(rows) - |rows[k]|))
  }

  /** A padded row without its trailing zeros. */
  function Unpadded(row: seq<nat>): (r: seq<nat>)
    decreases |row|
  {
    if row != [] && row[|row| - 1] == 0 then Unpadded(row[..|row| - 1]) else row
  }

  // ---------------------------------------------------------------------------------
  // Names, paths and the opener
  // ---------------------------------------------------------------------------------

  /** `os.path.basename`: the text after the last `/`. */
  function Basename(path: string): (name: string)
    ensures forall k :: 0 <= k < |name| ==> name[k] != '/'
    ensures EndsWith(path, name)
    ensures |name| < |path| ==> path[|path| - |name| - 1] == '/'
    decreases |path|
  {
    if path == [] || path[|path| - 1] == '/' then []
    else
      var front := Basename(path[..|path| - 1]);
      assert path[..|path| - 1][|path| - 1 - |front|..] == path[|path| - 1 - |front|..|path| - 1];
      front + [path[|path| - 1]]
  }

  /** `.replace(".jsonl", "").replace(".gz", "").replace(".json", "")`. */
  function Strip(name: string): string {
    RemoveAll(RemoveAll(RemoveAll(name, ".jsonl"), ".gz"), ".json")
  }

  /** `base_name`: the basename with every `.jsonl`, then every `.gz`, then every `.json` removed. */
  function BaseName(path: string): string {
    Strip(Basename(path))
  }

  /**
   * `os.path.join(dir, name)`: an absolute `name` replaces `dir`; otherwise `name` follows
   * `dir`, with a `/` in between unless `dir` is empty or ends with one.
   */
  function PathJoin(dir: string, name: string): string {
    if |name| > 0 && name[0] == '/' then name
    else if dir == [] || dir[|dir| - 1] == '/' then dir + name
    else dir + "/" + name
  }

  datatype Opener = Gzip | Plain

  /** The errors `process_file` raises. */
  datatype Failure =
    | FileNotFound       // the input does not exist
    | FileExists         // an output exists and `overwrite` is off
    | UnsupportedFormat  // `ValueError`: the input has none of the three suffixes
    | ReadFailed         // `IOError` while opening or reading the input
    | Uncaught           // `AttributeError`, `TypeError` or `IndexError` inside the loop
    | EmptyDocids        // `pad_sequence` of no docids

  /** `gzip.open` for `.gz`, `open` for `.jsonl` and `.json`, `ValueError` otherwise. */
  function OpenerFor(path: string): Result<Opener, Failure> {
    if EndsWith(path, ".gz") then Ok(Gzip)
    else if EndsWith(path, ".jsonl") || EndsWith(path, ".json") then Ok(Plain)
    else Err(UnsupportedFormat)
  }

  /** What `process_file` leaves behind: the two output paths, the two tensors and the progress count. */
  datatype Written = Written(vectorsPath: string, docidsPath: string, vectors: seq<Json>,
                             docids: seq<seq<nat>>, progress: nat)

  function VectorsPath(input: string, outputDirectory: string): string {
    PathJoin(outputDirectory, BaseName(input) + "_vectors.safetensors")
  }

  function DocidsPath(input: string, outputDirectory: string): string {
    PathJoin(outputDirectory, BaseName(input) + "_docids.safetensors")
  }

  /** `process_file(input, outputDirectory, overwrite)` up to the tensors it saves. */
  function Converted(input: string, outputDirectory: string, overwrite: bool,
                     present: string -> bool, read: Opener -> Option<seq<Line>>): Result<Written, Failure>
  {
    if !present(input) then Err(FileNotFound)
    else if !overwrite && (present(VectorsPath(input, outputDirectory)) || present(DocidsPath(input, outputDirectory))) then
      Err(FileExists)
    else if OpenerFor(input).Err? then Err(UnsupportedFormat)
    else if read(OpenerFor(input).value).None? then Err(ReadFailed)
    else
      var lines := read(OpenerFor(input).value).value;
      match Collect(lines)
      case None => Err(Uncaught)
      case Some(lists) =>
        if lists.docids == [] then Err(EmptyDocids)
        else Ok(Written(VectorsPath(input, outputDirectory), DocidsPath(input, outputDirectory),
                        lists.vectors, Padded(lists.docids), |lines|))
  }

  method ProcessFile(input: string, outputDirectory: string, overwrite: bool,
                     present: string -> bool, read: Opener -> Option<seq<Line>>)
    returns (r: Result<Written, Failure>)
    ensures r == Converted(input, outputDirectory, overwrite, present, read)
  {
    if !present(input) {
      return Err(FileNotFound);
    }
    var baseName := BaseName(input);
    var vectorsPath := PathJoin(outputDirectory, baseName + "_vectors.safetensors");
    var docidsPath := PathJoin(outputDirectory, baseName + "_docids.safetensors");
    if !overwrite && (present(vectorsPath) || present(docidsPath)) {
      return Err(FileExists);
    }
    var opener := OpenerFor(input);
    if opener.Err? {
      return Err(UnsupportedFormat);
    }
    var lines := read(opener.value);
    if lines.None? {
      return Err(ReadFailed);
    }
    var vectors, docids, crashed, progress := ScanLines(lines.value);
    if crashed {
      return Err(Uncaught);
    }
    if docids == [] {
      return Err(EmptyDocids);
    }
    return Ok(Written(vectorsPath, docidsPath, vectors, Padded(docids), progress));
  }

  // ---------------------------------------------------------------------------------
  // Properties of the line loop
  // ---------------------------------------------------------------------------------

  /** Once a line has raised, the rest of the file changes nothing. */
  lemma {:induction false} CrashPersists(lines: seq<Line>, j: nat)
    requires j <= |lines|
    requires Collect(lines[..j]).None?
    ensures Collect(lines).None?
    decreases |lines| - j
  {
    if j == |lines| {
      assert lines[..j] == lines;
    } else {
      var front := lines[..|lines| - 1];
      assert front[..j] == lines[..j];
      CrashPersists(front, j);
    }
  }

  /** The loop fails exactly when some line raises an exception it does not catch. */
  lemma {:induction false} CollectCrashes(lines: seq<Line>)
    ensures Collect(lines).None? <==> exists i :: 0 <= i < |lines| && Classify(lines[i]).Crashed?
    decreases |lines|
  {
    if lines != [] {
      var front := lines[..|lines| - 1];
      CollectCrashes(front);
      assert forall i :: 0 <= i < |front| ==> front[i] == lines[i];
      if Collect(front).Some? && !Classify(lines[|lines| - 1]).Crashed? {
        assert forall i :: 0 <= i < |lines| ==> !Classify(lines[i]).Crashed? by {
          forall i | 0 <= i < |lines|
            ensures !Classify(lines[i]).Crashed?
          {
            if i < |front| {
              assert lines[i] == front[i];
            }
          }
        }
      }
    }
  }

  /**
   * The two lists fall out of step by exactly the orphan lines: each float-led line whose
   * `docid` is missing adds a vector and no docid.
   */
  lemma {:induction false} Desync(lines: seq<Line>)
    requires Collect(lines).Some?
    ensures |Collect(lines).value.vectors| == |Collect(lines).value.docids| + Orphans(lines)
    decreases |lines|
  {
    if lines != [] {
      Desync(lines[..|lines| - 1]);
    }
  }

  /** There are no orphans exactly when no line is one. */
  lemma {:induction false} NoOrphans(lines: seq<Line>)
    ensures Orphans(lines) == 0 <==> forall i :: 0 <= i < |lines| ==> !Classify(lines[i]).VectorOnly?
    decreases |lines|
  {
    if lines != [] {
      var front := lines[..|lines| - 1];
      NoOrphans(front);
      assert forall i :: 0 <= i < |front| ==> front[i] == lines[i];
    }
  }

  /** The rows `docids` should hold, read front to back: the codes of each kept line, in file order. */
  function KeptRows(lines: seq<Line>): seq<seq<nat>>
    decreases |lines|
  {
    if lines == [] then []
    else (if Classify(lines[0]).Kept? then [Classify(lines[0]).codes] else []) + KeptRows(lines[1..])
  }

  /** The vectors `vectors` should hold, read front to back: that of each orphan or kept line, in file order. */
  function AppendedVectors(lines: seq<Line>): seq<Json>
    decreases |lines|
  {
    if lines == [] then []
    else
      (if Classify(lines[0]).VectorOnly? || Classify(lines[0]).Kept? then [Classify(lines[0]).vector] else [])
      + AppendedVectors(lines[1..])
  }

  lemma {:induction false} FrontToBack(lines: seq<Line>, line: Line)
    ensures KeptRows(lines + [line]) == KeptRows(lines) + KeptRows([line])
    ensures AppendedVectors(lines + [line]) == AppendedVectors(lines) + AppendedVectors([line])
    decreases |lines|
  {
    if lines != [] {
      assert (lines + [line])[0] == lines[0];
      assert (lines + [line])[1..] == lines[1..] + [line];
      FrontToBack(lines[1..], line);
    }
  }

  /**
   * The loop appends in file order: `docids` is the codes of the kept lines and `vectors`
   * the vectors of the orphan and kept lines, each in the order the lines come.
   */
  lemma {:induction false} CollectInOrder(lines: seq<Line>)
    requires Collect(lines).Some?
    ensures Collect(lines).value.docids == KeptRows(lines)
    ensures Collect(lines).value.vectors == AppendedVectors(lines)
    decreases |lines|
  {
    if lines != [] {
      var front := lines[..|lines| - 1];
      var last := lines[|lines| - 1];
      CollectInOrder(front);
      assert lines == front + [last];
      FrontToBack(front, last);
      assert [last][1..] == [];
    }
  }

  /** The positions of the kept lines. */
  function KeptIndices(lines: seq<Line>): seq<nat>
    decreases |lines|
  {
    if lines == [] then []
    else KeptIndices(lines[..|lines| - 1]) + (if Classify(lines[|lines| - 1]).Kept? then [|lines| - 1] else [])
  }

  lemma {:induction false} KeptIndicesKept(lines: seq<Line>)
    ensures forall k :: 0 <= k < |KeptIndices(lines)| ==>
              KeptIndices(lines)[k] < |lines| && Classify(lines[KeptIndices(lines)[k]]).Kept?
    decreases |lines|
  {
    if lines != [] {
      var front := lines[..|lines| - 1];
      KeptIndicesKept(front);
      assert forall k :: 0 <= k < |KeptIndices(front)| ==> KeptIndices(lines)[k] == KeptIndices(front)[k];
      assert forall i :: 0 <= i < |front| ==> front[i] == lines[i];
    }
  }

  lemma {:induction false} KeptIndicesIncreasing(lines: seq<Line>)
    ensures forall k, m :: 0 <= k < m < |KeptIndices(lines)| ==> KeptIndices(lines)[k] < KeptIndices(lines)[m]
    decreases |lines|
  {
    if lines != [] {
      var front := lines[..|lines| - 1];
      KeptIndicesIncreasing(front);
      KeptIndicesKept(front);
      assert forall k :: 0 <= k < |KeptIndices(front)| ==> KeptIndices(lines)[k] == KeptIndices(front)[k];
    }
  }

  lemma {:induction false} KeptIndicesComplete(lines: seq<Line>)
    ensures forall i :: 0 <= i < |lines| && Classify(lines[i]).Kept? ==> i in KeptIndices(lines)
    decreases |lines|
  {
    if lines != [] {
      var front := lines[..|lines| - 1];
      KeptIndicesComplete(front);
      var tail: seq<nat> := if Classify(lines[|lines| - 1]).Kept? then [|lines| - 1] else [];
      assert KeptIndices(lines) == KeptIndices(front) + tail;
      forall i | 0 <= i < |lines| && Classify(lines[i]).Kept?
        ensures i in KeptIndices(lines)
      {
        if i < |front| {
          assert Classify(front[i]).Kept?;
          assert i in KeptIndices(front);
        } else {
          assert i in tail;
        }
      }
    }
  }

  /** `KeptIndices` lists every kept line's position once, in increasing order, and nothing else. */
  lemma {:induction false} KeptIndicesExact(lines: seq<Line>)
    ensures forall k :: 0 <= k < |KeptIndices(lines)| ==>
              KeptIndices(lines)[k] < |lines| && Classify(lines[KeptIndices(lines)[k]]).Kept?
    ensures forall k, m :: 0 <= k < m < |KeptIndices(lines)| ==> KeptIndices(lines)[k] < KeptIndices(lines)[m]
    ensures forall i :: 0 <= i < |lines| && Classify(lines[i]).Kept? ==> i in KeptIndices(lines)
  {
    KeptIndicesKept(lines);
    KeptIndicesIncreasing(lines);
    KeptIndicesComplete(lines);
  }

  /**
   * Without orphans the lists stay in step: row `k` of the vectors and row `k` of the docids
   * come from the `k`-th kept line.
   */
  lemma {:induction false} AlignedRows(lines: seq<Line>)
    requires Collect(lines).Some?
    requires forall i :: 0 <= i < |lines| ==> !Classify(lines[i]).VectorOnly?
    ensures |Collect(lines).value.vectors| == |Collect(lines).value.docids| == |KeptIndices(lines)|
    ensures forall k :: 0 <= k < |KeptIndices(lines)| ==>
              KeptIndices(lines)[k] < |lines| &&
              Classify(lines[KeptIndices(lines)[k]]) == Kept(Collect(lines).value.vectors[k], Collect(lines).value.docids[k])
    decreases |lines|
  {
    if lines != [] {
      var front := lines[..|lines| - 1];
      assert forall i :: 0 <= i < |front| ==> front[i] == lines[i];
      AlignedRows(front);
      var before := Collect(front).value;
      var after := Collect(lines).value;
      forall k | 0 <= k < |KeptIndices(lines)|
        ensures KeptIndices(lines)[k] < |lines| &&
                Classify(lines[KeptIndices(lines)[k]]) == Kept(after.vectors[k], after.docids[k])
      {
        if k < |KeptIndices(front)| {
          assert KeptIndices(lines)[k] == KeptIndices(front)[k];
          assert after.docids[k] == before.docids[k] && after.vectors[k] == before.vectors[k];
          assert lines[KeptIndices(front)[k]] == front[KeptIndices(front)[k]];
        } else {
          assert KeptIndices(lines)[k] == |lines| - 1;
        }
      }
    }
  }

  /** A float-led line without a docid, and a float-led line with docid `"b"`. */
  function OrphanLine(): Line {
    Parsed(JObject([("vector", JArray([JFloat(1)]))]))
  }

  function KeptLine(): Line {
    Parsed(JObject([("vector", JArray([JFloat(2)])), ("docid", JString("b"))]))
  }

  lemma OrphanLineStep()
    ensures Classify(OrphanLine()) == VectorOnly(JArray([JFloat(1)]))
  {
    assert "vector" != "docid" by {
      assert "vector"[0] != "docid"[0];
    }
    assert Member([("vector", JArray([JFloat(1)]))], "docid") == None;
  }

  lemma KeptLineStep()
    ensures Classify(KeptLine()) == Kept(JArray([JFloat(2)]), [98])
  {
    var members := [("vector", JArray([JFloat(2)])), ("docid", JString("b"))];
    assert "vector" != "docid" by {
      assert "vector"[0] != "docid"[0];
    }
    assert members[..1] == [("vector", JArray([JFloat(2)]))];
    assert Member(members, "vector") == Some(JArray([JFloat(2)]));
    assert Member(members, "docid") == Some(JString("b"));
    assert Codes("b") == [98];
  }

  /** An orphan shifts the rows: the one docid row is paired with the orphan's vector, not its own. */
  lemma DesyncExample()
    ensures Collect([OrphanLine(), KeptLine()]) == Some(Lists([JArray([JFloat(1)]), JArray([JFloat(2)])], [[98]]))
  {
    var v1, v2 := JArray([JFloat(1)]), JArray([JFloat(2)]);
    var lines := [OrphanLine(), KeptLine()];
    OrphanLineStep();
    KeptLineStep();
    assert lines[..1] == [OrphanLine()];
    assert [OrphanLine()][..0] == [];
    assert Collect([OrphanLine()]) == Append(Lists([], []), VectorOnly(v1));
    assert [] + [v1] == [v1];
    assert Collect(lines) == Append(Lists([v1], []), Kept(v2, [98]));
    assert [v1] + [v2] == [v1, v2];
    assert [] + [[98]] == [[98]];
  }

  /** The `isinstance(entry.get("vector", [None])[0], float)` test of `process_file`. */
  predicate FloatLed(members: seq<(string, Json)>) {
    var vector := Member(members, "vector");
    vector.Some? && vector.value.JArray? && |vector.value.elements| > 0 && vector.value.elements[0].JFloat?
  }

  /**
   * The filter of one parsed object: only a float-led `vector` reaches `vectors.append`;
   * the line is then an orphan when it has no `docid`, kept with the docid's codes when
   * they exist, and it ends the run when `ord` fails on the docid.
   */
  lemma FloatLedFilter(members: seq<(string, Json)>)
    ensures var step := Classify(Parsed(JObject(members)));
            !FloatLed(members) ==> step.Skipped? || step.Crashed?
    ensures var step := Classify(Parsed(JObject(members)));
            var vector := Member(members, "vector");
            var docid := Member(members, "docid");
            FloatLed(members) ==>
              (docid.None? ==> step == VectorOnly(vector.value)) &&
              (docid.Some? && DocidCodes(docid.value).Some? ==> step == Kept(vector.value, DocidCodes(docid.value).value)) &&
              (docid.Some? && DocidCodes(docid.value).None? ==> step.Crashed?)
  {
    var vector := Member(members, "vector");
    if vector.None? {
      assert First(JArray([JNull])) == Element(JNull);
    } else if !FloatLed(members) {
      match First(vector.value)
      case Raises =>
      case KeyMissing =>
      case Element(head) =>
        assert vector.value.JArray? || vector.value.JString?;
    }
  }

  /** A kept line's docid row is the code point of each character of its `docid` string. */
  lemma KeptCodes(members: seq<(string, Json)>, docid: string)
    requires Member(members, "docid") == Some(JString(docid))
    requires Classify(Parsed(JObject(members))).Kept?
    ensures Classify(Parsed(JObject(members))).codes == Codes(docid)
  {
  }

  /** Distinct docid strings have distinct code rows. */
  lemma CodesInjective(s: string, t: string)
    requires Codes(s) == Codes(t)
    ensures s == t
  {
    assert |s| == |t|;
    forall i | 0 <= i < |s|
      ensures s[i] == t[i]
    {
      assert Codes(s)[i] == Codes(t)[i];
    }
  }

  // ---------------------------------------------------------------------------------
  // Properties of the padding
  // ---------------------------------------------------------------------------------

  /** Row `k` of the padded matrix is as long as the longest docid and is docid `k`'s codes followed by zeros. */
  lemma PaddedRow(rows: seq<seq<nat>>, k: nat)
    requires k < |rows|
    ensures |Padded(rows)| == |rows|
    ensures |Padded(rows)[k]| == Width(rows)
    ensures Padded(rows)[k][..|rows[k]|] == rows[k]
    ensures forall j :: |rows[k]| <= j < Width(rows) ==> Padded(rows)[k][j] == 0
  {
    var z := Zeros(Width(rows) - |rows[k]|);
    assert Padded(rows)[k] == rows[k] + z;
    assert (rows[k] + z)[..|rows[k]|] == rows[k];
  }

  lemma {:induction false} UnpaddedZeros(row: seq<nat>, n: nat)
    requires row == [] || row[|row| - 1] != 0
    ensures Unpadded(row + Zeros(n)) == row
    decreases n
  {
    if n == 0 {
      assert row + Zeros(0) == row;
    } else {
      assert (row + Zeros(n))[..|row| + n - 1] == row + Zeros(n - 1);
      UnpaddedZeros(row, n - 1);
    }
  }

  /** Stripping the trailing zeros of a padded row gives back a docid without NUL characters. */
  lemma UnpadPadded(rows: seq<seq<nat>>, k: nat, docid: string)
    requires k < |rows| && rows[k] == Codes(docid)
    requires forall i :: 0 <= i < |docid| ==> docid[i] != '\0'
    ensures Unpadded(Padded(rows)[k]) == Codes(docid)
  {
    assert Padded(rows)[k] == rows[k] + Zeros(Width(rows) - |rows[k]|);
    if docid != [] {
      assert rows[k][|rows[k]| - 1] == docid[|docid| - 1] as nat;
    }
    UnpaddedZeros(rows[k], Width(rows) - |rows[k]|);
  }
  // ---------------------------------------------------------------------------------
  // Properties of the names, the guard and the dispatch
  // ---------------------------------------------------------------------------------

  /** The overwrite guard of `process_file`: an output exists and `overwrite` is off. */
  predicate Guarded(input: string, outputDirectory: string, overwrite: bool, present: string -> bool) {
    !overwrite && (present(VectorsPath(input, outputDirectory)) || present(DocidsPath(input, outputDirectory)))
  }

  /** The three errors raised before any line is read, each in its own circumstances. */
  lemma ConvertedErrors(input: string, outputDirectory: string, overwrite: bool,
                        present: string -> bool, read: Opener -> Option<seq<Line>>)
    ensures Converted(input, outputDirectory, overwrite, present, read) == Err(FileNotFound) <==> !present(input)
    ensures Converted(input, outputDirectory, overwrite, present, read) == Err(FileExists) <==>
              present(input) && Guarded(input, outputDirectory, overwrite, present)
    ensures Converted(input, outputDirectory, overwrite, present, read) == Err(UnsupportedFormat) <==>
              present(input) && !Guarded(input, outputDirectory, overwrite, present) && !FilePaths.Allowed(input)
  {
    OpenerDispatch(input);
  }

  /** When the overwrite guard fires, what the input holds makes no difference: it is never read. */
  lemma GuardBeforeRead(input: string, outputDirectory: string, present: string -> bool,
                        read: Opener -> Option<seq<Line>>, read': Opener -> Option<seq<Line>>)
    requires Guarded(input, outputDirectory, false, present)
    ensures Converted(input, outputDirectory, false, present, read) == Converted(input, outputDirectory, false, present, read')
    ensures present(input) ==> Converted(input, outputDirectory, false, present, read) == Err(FileExists)
  {
  }

  /** The gzip opener is chosen exactly for `.gz`, and an opener at all exactly for the names the Java side lists. */
  lemma OpenerDispatch(path: string)
    ensures OpenerFor(path) == Ok(Gzip) <==> EndsWith(path, ".gz")
    ensures OpenerFor(path) == Ok(Plain) <==> !EndsWith(path, ".gz") && (EndsWith(path, ".jsonl") || EndsWith(path, ".json"))
    ensures OpenerFor(path).Ok? <==> FilePaths.Allowed(path)
  {
  }

  /** A successful run read every line once, and its docid matrix has one row per docid. */
  lemma ConvertedResult(input: string, outputDirectory: string, overwrite: bool,
                        present: string -> bool, read: Opener -> Option<seq<Line>>)
    requires Converted(input, outputDirectory, overwrite, present, read).Ok?
    ensures var w := Converted(input, outputDirectory, overwrite, present, read).value;
            var lines := read(OpenerFor(input).value).value;
            w.progress == |lines| &&
            w.vectors == Collect(lines).value.vectors == AppendedVectors(lines) &&
            w.docids == Padded(KeptRows(lines)) &&
            |w.docids| == |Collect(lines).value.docids| > 0 &&
            |w.vectors| == |w.docids| + Orphans(lines)
  {
    var lines := read(OpenerFor(input).value).value;
    Desync(lines);
    CollectInOrder(lines);
  }

  /** The basename of `front + name` is `name` when `name` has no `/` and `front` ends a directory. */
  lemma {:induction false} BasenameAfter(front: string, name: string)
    requires front == [] || front[|front| - 1] == '/'
    requires FilePaths.SlashFree(name)
    ensures Basename(front + name) == name
    decreases |name|
  {
    if name == [] {
      assert front + name == front;
    } else {
      var shorter := name[..|name| - 1];
      assert (front + name)[..|front + name| - 1] == front + shorter;
      BasenameAfter(front, shorter);
      assert name == shorter + [name[|name| - 1]];
    }
  }

  /** A name without `/` joined under a directory comes back out of `os.path.basename`. */
  lemma BasenameOfJoin(dir: string, name: string)
    requires |name| > 0 && FilePaths.SlashFree(name)
    ensures Basename(PathJoin(dir, name)) == name
  {
    if dir == [] || dir[|dir| - 1] == '/' {
      BasenameAfter(dir, name);
    } else {
      assert dir + "/" + name == (dir + "/") + name;
      BasenameAfter(dir + "/", name);
    }
  }

  lemma SlashFreeSuffixed(stem: string, suffix: string)
    requires FilePaths.SlashFree(stem) && FilePaths.SlashFree(suffix)
    ensures FilePaths.SlashFree(stem + suffix)
  {
    assert forall k :: 0 <= k < |stem + suffix| ==> (stem + suffix)[k] == if k < |stem| then stem[k] else suffix[k - |stem|];
  }

  lemma BaseNameSlashFree(input: string)
    ensures FilePaths.SlashFree(BaseName(input))
  {
    var b := Basename(input);
    assert BaseName(input) == RemoveAll(RemoveAll(RemoveAll(b, ".jsonl"), ".gz"), ".json");
    RemoveAllAvoids(b, ".jsonl", '/');
    RemoveAllAvoids(RemoveAll(b, ".jsonl"), ".gz", '/');
    RemoveAllAvoids(RemoveAll(RemoveAll(b, ".jsonl"), ".gz"), ".json", '/');
  }

  /** Both outputs land in the output directory under the base name with their suffixes. */
  lemma OutputNames(input: string, outputDirectory: string)
    ensures VectorsPath(input, outputDirectory) ==
              (if outputDirectory == [] || outputDirectory[|outputDirectory| - 1] == '/' then outputDirectory else outputDirectory + "/")
              + (BaseName(input) + "_vectors.safetensors")
    ensures DocidsPath(input, outputDirectory) ==
              (if outputDirectory == [] || outputDirectory[|outputDirectory| - 1] == '/' then outputDirectory else outputDirectory + "/")
              + (BaseName(input) + "_docids.safetensors")
    ensures Basename(VectorsPath(input, outputDirectory)) == BaseName(input) + "_vectors.safetensors"
    ensures Basename(DocidsPath(input, outputDirectory)) == BaseName(input) + "_docids.safetensors"
  {
    BaseNameSlashFree(input);
    assert (BaseName(input) + "_vectors.safetensors")[0] != '/';
    assert (BaseName(input) + "_docids.safetensors")[0] != '/';
    assert outputDirectory + "/" + (BaseName(input) + "_vectors.safetensors")
        == (outputDirectory + "/") + (BaseName(input) + "_vectors.safetensors");
    assert outputDirectory + "/" + (BaseName(input) + "_docids.safetensors")
        == (outputDirectory + "/") + (BaseName(input) + "_docids.safetensors");
    assert FilePaths.SlashFree("_vectors.safetensors") && FilePaths.SlashFree("_docids.safetensors");
    SlashFreeSuffixed(BaseName(input), "_vectors.safetensors");
    SlashFreeSuffixed(BaseName(input), "_docids.safetensors");
    BasenameOfJoin(outputDirectory, BaseName(input) + "_vectors.safetensors");
    BasenameOfJoin(outputDirectory, BaseName(input) + "_docids.safetensors");
  }

  lemma StripJsonl(stem: string)
    requires Free(stem, ".jsonl") && Free(stem, ".json") && Free(stem, ".gz")
    ensures Strip(stem + ".jsonl") == stem
  {
    NoOccurrenceInStem(stem, ".jsonl", ".jsonl");
    RemoveTrailing(stem, ".jsonl");
    FreeUnchanged(stem, ".gz");
    FreeUnchanged(stem, ".json");
  }

  lemma StripJson(stem: string)
    requires Free(stem, ".jsonl") && Free(stem, ".json") && Free(stem, ".gz")
    ensures Strip(stem + ".json") == stem
  {
    FreeJoin(stem, ".json", ".jsonl");
    FreeUnchanged(stem + ".json", ".jsonl");
    FreeByLead(".json", ".gz");
    FreeJoin(stem, ".json", ".gz");
    FreeUnchanged(stem + ".json", ".gz");
    NoOccurrenceInStem(stem, ".json", ".json");
    RemoveTrailing(stem, ".json");
  }

  lemma StripGz(stem: string)
    requires Free(stem, ".jsonl") && Free(stem, ".json") && Free(stem, ".gz")
    ensures Strip(stem + ".gz") == stem
  {
    FreeJoin(stem, ".gz", ".jsonl");
    FreeUnchanged(stem + ".gz", ".jsonl");
    NoOccurrenceInStem(stem, ".gz", ".gz");
    RemoveTrailing(stem, ".gz");
    FreeUnchanged(stem, ".json");
  }

  /**
   * For a file `stem + suffix` in any folder, with `stem` free of `/` and of the three
   * suffixes, the base name is `stem`, the same as the Java generator derives although the
   * two remove `.gz` and `.json` in the opposite order.
   */
  lemma BaseNameOfSuffixed(dir: string, stem: string, suf: string)
    requires FilePaths.SlashFree(stem)
    requires Free(stem, ".jsonl") && Free(stem, ".json") && Free(stem, ".gz")
    requires suf == ".jsonl" || suf == ".json" || suf == ".gz"
    ensures BaseName(dir + "/" + stem + suf) == stem
    ensures BaseName(dir + "/" + stem + suf) == FilePaths.JavaBaseName(stem + suf)
  {
    assert FilePaths.SlashFree(suf);
    SlashFreeSuffixed(stem, suf);
    Regroup4(dir, "/", stem, suf);
    BasenameAfter(dir + "/", stem + suf);
    assert BaseName(dir + "/" + stem + suf) == Strip(stem + suf);
    if suf == ".jsonl" {
      StripJsonl(stem);
    } else if suf == ".json" {
      StripJson(stem);
    } else {
      StripGz(stem);
    }
    FilePaths.BaseNameOfSuffixed(stem, suf);
  }
}
