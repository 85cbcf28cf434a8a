/**
 * `compare_jsonl`: the check that a vectors file and a contents file hold the same vector
 * for every docid. Each file becomes a dict keyed by docid, the union of their keys is
 * walked in sorted order, and every docid that is missing on one side or whose vectors
 * differ produces one message; the report is printed at the end.
 *
 * Reading the files is done already: each line is the record `json.loads` parsed it to.
 * Vector elements have an abstract type `E` compared with `==`.
 */
module CompareJsonl {
  import opened Outcomes
  import opened Strings

  // ---------------------------------------------------------------------------------
  // Records and the two dicts
  // ---------------------------------------------------------------------------------

  /** The `vector` member of a record: missing, JSON `null`, or a list. */
  datatype Field<E> = Absent | Null | List(items: seq<E>)

  /** One JSON line: its `docid` string, if it has one, and its `vector`. */
  datatype Record<E> = Record(docid: Option<string>, vector: Field<E>)

  /** A `KeyError` from `entry['docid']` or `entry['vector']` in a dict comprehension. */
  datatype Crash = KeyError

  /** `{entry['docid']: entry['vector'] for entry in vectors_data}`: later records win. */
  function VectorsDict<E>(records: seq<Record<E>>): Result<map<string, Field<E>>, Crash>
    decreases |records|
  {
    if records == [] then Ok(map[])
    else
      var m :- VectorsDict(records[..|records| - 1]);
      var r := records[|records| - 1];
      if r.docid.None? || r.vector.Absent? then Err(KeyError)
      else Ok(m[r.docid.value := r.vector])
  }

  /** `{entry['docid']: entry for entry in contents_data}`: the whole record is kept. */
  function ContentsDict<E>(records: seq<Record<E>>): Result<map<string, Record<E>>, Crash>
    decreases |records|
  {
    if records == [] then Ok(map[])
    else
      var m :- ContentsDict(records[..|records| - 1]);
      var r := records[|records| - 1];
      if r.docid.None? then Err(KeyError)
      else Ok(m[r.docid.value := r])
  }

  /** The docids of the records in file order (all present once a dict has been built). */
  function Docids<E>(records: seq<Record<E>>): (ids: seq<string>)
    ensures |ids| == |records|
  {
    seq(|records|, i requires 0 <= i < |records| => if records[i].docid.Some? then records[i].docid.value else "")
  }

  // ---------------------------------------------------------------------------------
  // The sorted union
  // ---------------------------------------------------------------------------------

  predicate Ascending(s: seq<string>) {
    forall i, j :: 0 <= i < j < |s| ==> Less(s[i], s[j])
  }

  /** `x` placed into an ascending sequence that does not hold it yet. */
  function Insert(x: string, s: seq<string>): seq<string>
    decreases |s|
  {
    if s == [] then [x]
    else if x == s[0] then s
    else if Less(x, s[0]) then [x] + s
    else [s[0]] + Insert(x, s[1..])
  }

  /** `sorted(set(xs))`: the distinct elements of `xs` in ascending order. */
  function SortedSet(xs: seq<string>): seq<string>
    decreases |xs|
  {
    if xs == [] then [] else Insert(xs[|xs| - 1], SortedSet(xs[..|xs| - 1]))
  }

  // ---------------------------------------------------------------------------------
  // The differences
  // ---------------------------------------------------------------------------------

  /** The three messages of the loop, each naming the docid it is about. */
  datatype Difference =
    | Missing(docid: string)
    | DocidMismatch(docid: string, contentDocid: Option<string>)
    | VectorMismatch(docid: string)

  /** Python truthiness of `vectors_dict.get(docid)`: `None`, `null` and `[]` are false. */
  predicate Truthy<E>(vector: Option<Field<E>>) {
    vector.Some? && vector.value.List? && |vector.value.items| > 0
  }

  /** One turn of the loop: the message for `docid`, if any. */
  function DifferenceFor<E(==)>(vectors: map<string, Field<E>>, contents: map<string, Record<E>>, docid: string)
    : (d: Option<Difference>)
    ensures d.Some? ==> d.value.docid == docid
  {
    var vector := if docid in vectors then Some(vectors[docid]) else None;
    if !Truthy(vector) || docid !in contents then Some(Missing(docid))
    else
      var contentDocid := contents[docid].docid;
      if contentDocid != Some(docid) then Some(DocidMismatch(docid, contentDocid))
      else if vector.value != contents[docid].vector then Some(VectorMismatch(docid))
      else None
  }

  /** The `differences` list after the loop over `order`. */
  function Differences<E(==)>(vectors: map<string, Field<E>>, contents: map<string, Record<E>>, order: seq<string>)
    : seq<Difference>
    decreases |order|
  {
    if order == [] then []
    else
      var front := Differences(vectors, contents, order[..|order| - 1]);
      match DifferenceFor(vectors, contents, order[|order| - 1])
      case None => front
      case Some(d) => front + [d]
  }

  /** The `for docid in sorted(all_docids)` loop. */
  method CollectDifferences<E(==)>(vectors: map<string, Field<E>>, contents: map<string, Record<E>>, order: seq<string>)
    returns (differences: seq<Difference>)
    ensures differences == Differences(vectors, contents, order)
  {
    differences := [];
    for i := 0 to |order|
      invariant differences == Differences(vectors, contents, order[..i])
    {
      assert order[..i + 1][..i] == order[..i];
      var difference := DifferenceFor(vectors, contents, order[i]);
      if difference.Some? {
        differences := differences + [difference.value];
      }
    }
    assert order[..|order|] == order;
  }

  // ---------------------------------------------------------------------------------
  // The report
  // ---------------------------------------------------------------------------------

  function NoDifferences(): string {
    "No differences found. The files are identical."
  }

  function Message(d: Difference): string {
    match d
    case Missing(id) => "Missing entry for docid: " + id
    case DocidMismatch(id, other) =>
      "Docid mismatch for docid: " + id + ", content docid: " + (if other.Some? then other.value else "None")
    case VectorMismatch(id) => "Vector mismatch for docid: " + id
  }

  /** The lines printed at the end. */
  function Report(differences: seq<Difference>): seq<string> {
    if differences == [] then [NoDifferences()]
    else ["Differences found:"] + seq(|differences|, i requires 0 <= i < |differences| => Message(differences[i]))
  }

  /** `compare_jsonl(vectors_file, contents_file)` on the parsed lines of the two files: what it prints. */
  function Compared<E(==)>(vectorsData: seq<Record<E>>, contentsData: seq<Record<E>>): Result<seq<string>, Crash> {
    var vectors :- VectorsDict(vectorsData);
    var contents :- ContentsDict(contentsData);
    Ok(Report(Differences(vectors, contents, SortedSet(Docids(vectorsData) + Docids(contentsData)))))
  }

  method CompareFiles<E(==)>(vectorsData: seq<Record<E>>, contentsData: seq<Record<E>>)
    returns (r: Result<seq<string>, Crash>)
    ensures r == Compared(vectorsData, contentsData)
  {
    var vectors := VectorsDict(vectorsData);
    if vectors.Err? {
      return Err(vectors.error);
    }
    var contents := ContentsDict(contentsData);
    if contents.Err? {
      return Err(contents.error);
    }
    var allDocids := SortedSet(Docids(vectorsData) + Docids(contentsData));
    var differences := CollectDifferences(vectors.value, contents.value, allDocids);
    return Ok(Report(differences));
  }

  // ---------------------------------------------------------------------------------
  // Properties of the dicts
  // ---------------------------------------------------------------------------------

  /** The vectors dict fails exactly when a record lacks its docid or its vector. */
  lemma {:induction false} VectorsDictFails<E>(records: seq<Record<E>>)
    ensures VectorsDict(records).Err? <==>
              exists i :: 0 <= i < |records| && (records[i].docid.None? || records[i].vector.Absent?)
    decreases |records|
  {
    if records != [] {
      var front := records[..|records| - 1];
      VectorsDictFails(front);
      assert forall i :: 0 <= i < |front| ==> front[i] == records[i];
    }
  }

  /** Otherwise its keys are the docids of the file, none of them with a missing vector. */
  lemma {:induction false} VectorsDictKeys<E>(records: seq<Record<E>>)
    requires VectorsDict(records).Ok?
    ensures var m := VectorsDict(records).value;
            (forall k :: k in m <==> k in Docids(records)) && forall k :: k in m ==> !m[k].Absent?
    decreases |records|
  {
    if records != [] {
      var front := records[..|records| - 1];
      VectorsDictKeys(front);
      assert forall i :: 0 <= i < |front| ==> Docids(front)[i] == Docids(records)[i];
      assert Docids(records) == Docids(front) + [records[|records| - 1].docid.value];
    }
  }

  /** Each docid maps to the vector of the last record that has it. */
  lemma {:induction false} VectorsDictLastWins<E>(records: seq<Record<E>>, i: nat)
    requires VectorsDict(records).Ok?
    requires i < |records|
    requires forall j :: i < j < |records| ==> records[j].docid != records[i].docid
    ensures records[i].docid.Some?
    ensures var m := VectorsDict(records).value;
            records[i].docid.value in m && m[records[i].docid.value] == records[i].vector
    decreases |records|
  {
    var front := records[..|records| - 1];
    var last := records[|records| - 1];
    var m := VectorsDict(front).value;
    assert VectorsDict(records) == Ok(m[last.docid.value := last.vector]);
    if i < |front| {
      assert forall j :: i < j < |front| ==> front[j] == records[j];
      VectorsDictLastWins(front, i);
      assert last.docid != records[i].docid;
    }
  }

  /** The contents dict fails exactly when a record lacks its docid. */
  lemma {:induction false} ContentsDictFails<E>(records: seq<Record<E>>)
    ensures ContentsDict(records).Err? <==> exists i :: 0 <= i < |records| && records[i].docid.None?
    decreases |records|
  {
    if records != [] {
      var front := records[..|records| - 1];
      ContentsDictFails(front);
      assert forall i :: 0 <= i < |front| ==> front[i] == records[i];
    }
  }

  /** Otherwise its keys are the docids of the file, every entry carrying its own key as its `docid`. */
  lemma {:induction false} ContentsDictKeys<E>(records: seq<Record<E>>)
    requires ContentsDict(records).Ok?
    ensures var m := ContentsDict(records).value;
            (forall k :: k in m <==> k in Docids(records)) && forall k :: k in m ==> m[k].docid == Some(k)
    decreases |records|
  {
    if records != [] {
      var front := records[..|records| - 1];
      ContentsDictKeys(front);
      assert forall i :: 0 <= i < |front| ==> Docids(front)[i] == Docids(records)[i];
      assert Docids(records) == Docids(front) + [records[|records| - 1].docid.value];
    }
  }

  /** Each docid maps to the last record that has it. */
  lemma {:induction false} ContentsDictLastWins<E>(records: seq<Record<E>>, i: nat)
    requires ContentsDict(records).Ok?
    requires i < |records|
    requires forall j :: i < j < |records| ==> records[j].docid != records[i].docid
    ensures records[i].docid.Some?
    ensures var m := ContentsDict(records).value;
            records[i].docid.value in m && m[records[i].docid.value] == records[i]
    decreases |records|
  {
    var front := records[..|records| - 1];
    var last := records[|records| - 1];
    var m := ContentsDict(front).value;
    assert ContentsDict(records) == Ok(m[last.docid.value := last]);
    if i < |front| {
      assert forall j :: i < j < |front| ==> front[j] == records[j];
      ContentsDictLastWins(front, i);
      assert last.docid != records[i].docid;
    }
  }

  // ---------------------------------------------------------------------------------
  // Properties of the sorted union
  // ---------------------------------------------------------------------------------

  lemma {:induction false} InsertAscending(x: string, s: seq<string>)
    requires Ascending(s)
    ensures Ascending(Insert(x, s))
    ensures forall y :: y in Insert(x, s) <==> y == x || y in s
    decreases |s|
  {
    if s == [] {
    } else if x == s[0] {
    } else if Less(x, s[0]) {
      forall j | 0 <= j < |s|
        ensures Less(x, s[j])
      {
        if j > 0 {
          LessTransitive(x, s[0], s[j]);
        }
      }
    } else {
      LessTotal(x, s[0]);
      var tail := s[1..];
      assert forall i :: 0 <= i < |tail| ==> tail[i] == s[i + 1];
      InsertAscending(x, tail);
      var r := [s[0]] + Insert(x, tail);
      forall i, j | 0 <= i < j < |r|
        ensures Less(r[i], r[j])
      {
        if i == 0 {
          assert r[j] in Insert(x, tail);
        }
      }
      assert s == [s[0]] + tail;
    }
  }

  /** `sorted(all_docids)` is strictly ascending and holds exactly the elements of `xs`. */
  lemma {:induction false} SortedSetAscending(xs: seq<string>)
    ensures Ascending(SortedSet(xs))
    ensures forall y :: y in SortedSet(xs) <==> y in xs
    decreases |xs|
  {
    if xs != [] {
      var front := xs[..|xs| - 1];
      SortedSetAscending(front);
      InsertAscending(xs[|xs| - 1], SortedSet(front));
      assert xs == front + [xs[|xs| - 1]];
    }
  }

  /** The walked docids are the union of the two dicts' keys. */
  lemma UnionOfKeys<E>(vectorsData: seq<Record<E>>, contentsData: seq<Record<E>>)
    requires VectorsDict(vectorsData).Ok? && ContentsDict(contentsData).Ok?
    ensures var order := SortedSet(Docids(vectorsData) + Docids(contentsData));
            Ascending(order) &&
            forall k :: k in order <==> k in VectorsDict(vectorsData).value || k in ContentsDict(contentsData).value
  {
    VectorsDictKeys(vectorsData);
    ContentsDictKeys(contentsData);
    SortedSetAscending(Docids(vectorsData) + Docids(contentsData));
  }

  // ---------------------------------------------------------------------------------
  // Properties of the differences
  // ---------------------------------------------------------------------------------

  /**
   * One docid's outcome: `Missing` exactly when it is absent from one dict or its vector is
   * `null` or empty; otherwise, with every content entry carrying its key, `Vector mismatch`
   * exactly when the vectors differ, and `Docid mismatch` never.
   */
  lemma DifferenceCases<E>(vectors: map<string, Field<E>>, contents: map<string, Record<E>>, docid: string)
    requires forall k :: k in contents ==> contents[k].docid == Some(k)
    ensures DifferenceFor(vectors, contents, docid) == Some(Missing(docid)) <==>
              docid !in vectors || docid !in contents || !(vectors[docid].List? && vectors[docid].items != [])
    ensures DifferenceFor(vectors, contents, docid) == Some(VectorMismatch(docid)) <==>
              docid in vectors && docid in contents && vectors[docid].List? && vectors[docid].items != [] &&
              vectors[docid] != contents[docid].vector
    ensures DifferenceFor(vectors, contents, docid).None? ||
            DifferenceFor(vectors, contents, docid).value.Missing? ||
            DifferenceFor(vectors, contents, docid).value.VectorMismatch?
  {
  }

  /** Every message belongs to a docid of the order and is the one its turn produced. */
  lemma {:induction false} DifferencesSound<E>(vectors: map<string, Field<E>>, contents: map<string, Record<E>>,
                                               order: seq<string>)
    ensures forall i :: 0 <= i < |Differences(vectors, contents, order)| ==>
              Differences(vectors, contents, order)[i].docid in order &&
              DifferenceFor(vectors, contents, Differences(vectors, contents, order)[i].docid) ==
                Some(Differences(vectors, contents, order)[i])
    decreases |order|
  {
    if order != [] {
      var front := order[..|order| - 1];
      var last := order[|order| - 1];
      DifferencesSound(vectors, contents, front);
      assert forall k :: k in front ==> k in order;
      var d := DifferenceFor(vectors, contents, last);
      if d.Some? {
        assert Differences(vectors, contents, order) == Differences(vectors, contents, front) + [d.value];
      } else {
        assert Differences(vectors, contents, order) == Differences(vectors, contents, front);
      }
    }
  }

  /** Every docid of the order whose turn produces a message has it in the list. */
  lemma {:induction false} DifferencesComplete<E>(vectors: map<string, Field<E>>, contents: map<string, Record<E>>,
                                                  order: seq<string>)
    ensures forall k :: k in order && DifferenceFor(vectors, contents, k).Some? ==>
              DifferenceFor(vectors, contents, k).value in Differences(vectors, contents, order)
    decreases |order|
  {
    if order != [] {
      var front := order[..|order| - 1];
      var last := order[|order| - 1];
      DifferencesComplete(vectors, contents, front);
      var before := Differences(vectors, contents, front);
      var d := DifferenceFor(vectors, contents, last);
      assert Differences(vectors, contents, order) == if d.Some? then before + [d.value] else before;
      assert order == front + [last];
    }
  }

  /** Along an ascending order the messages name strictly ascending docids, so no docid has two. */
  lemma {:induction false} DifferencesAscending<E>(vectors: map<string, Field<E>>, contents: map<string, Record<E>>,
                                                   order: seq<string>)
    requires Ascending(order)
    ensures forall i, j :: 0 <= i < j < |Differences(vectors, contents, order)| ==>
              Less(Differences(vectors, contents, order)[i].docid, Differences(vectors, contents, order)[j].docid)
    decreases |order|
  {
    if order != [] {
      var front := order[..|order| - 1];
      var last := order[|order| - 1];
      assert forall i :: 0 <= i < |front| ==> front[i] == order[i];
      DifferencesAscending(vectors, contents, front);
      var before := Differences(vectors, contents, front);
      var ds := Differences(vectors, contents, order);
      var d := DifferenceFor(vectors, contents, last);
      if d.Some? {
        assert ds == before + [d.value];
        DifferencesSound(vectors, contents, front);
        forall i | 0 <= i < |before|
          ensures Less(before[i].docid, last)
        {
          var p :| 0 <= p < |front| && front[p] == before[i].docid;
          assert Less(order[p], order[|order| - 1]);
        }
        forall i, j | 0 <= i < j < |ds|
          ensures Less(ds[i].docid, ds[j].docid)
        {
          if j == |ds| - 1 {
            assert ds[i] == before[i] && ds[j] == d.value;
          } else {
            assert ds[i] == before[i] && ds[j] == before[j];
          }
        }
      } else {
        assert ds == before;
      }
    }
  }

  /** With every content entry carrying its key, no turn of the loop yields `Docid mismatch`. */
  lemma NoDocidMismatch<E>(vectors: map<string, Field<E>>, contents: map<string, Record<E>>, order: seq<string>)
    requires forall k :: k in contents ==> contents[k].docid == Some(k)
    ensures forall i :: 0 <= i < |Differences(vectors, contents, order)| ==>
              !Differences(vectors, contents, order)[i].DocidMismatch?
  {
    DifferencesSound(vectors, contents, order);
    var ds := Differences(vectors, contents, order);
    forall i | 0 <= i < |ds|
      ensures !ds[i].DocidMismatch?
    {
      DifferenceCases(vectors, contents, ds[i].docid);
    }
  }

  /**
   * The comparison raises `KeyError` exactly when a vectors line lacks its docid or its vector,
   * or a contents line lacks its docid; otherwise it prints a report.
   */
  lemma ComparedFails<E>(vectorsData: seq<Record<E>>, contentsData: seq<Record<E>>)
    ensures Compared(vectorsData, contentsData).Err? <==>
              (exists i :: 0 <= i < |vectorsData| && (vectorsData[i].docid.None? || vectorsData[i].vector.Absent?)) ||
              (exists i :: 0 <= i < |contentsData| && contentsData[i].docid.None?)
  {
    VectorsDictFails(vectorsData);
    ContentsDictFails(contentsData);
  }

  /**
   * "No differences found" is printed exactly when every docid of either file is in both,
   * with a non-empty vector equal to the content entry's.
   */
  lemma IdenticalIff<E>(vectorsData: seq<Record<E>>, contentsData: seq<Record<E>>)
    requires VectorsDict(vectorsData).Ok? && ContentsDict(contentsData).Ok?
    ensures var vectors := VectorsDict(vectorsData).value;
            var contents := ContentsDict(contentsData).value;
            Compared(vectorsData, contentsData) == Ok([NoDifferences()]) <==>
              forall k :: k in vectors || k in contents ==>
                k in vectors && k in contents && vectors[k].List? && vectors[k].items != [] &&
                vectors[k] == contents[k].vector
  {
    var vectors := VectorsDict(vectorsData).value;
    var contents := ContentsDict(contentsData).value;
    var order := SortedSet(Docids(vectorsData) + Docids(contentsData));
    var ds := Differences(vectors, contents, order);
    ContentsDictKeys(contentsData);
    VectorsDictKeys(vectorsData);
    UnionOfKeys(vectorsData, contentsData);
    DifferencesSound(vectors, contents, order);
    DifferencesComplete(vectors, contents, order);
    assert Compared(vectorsData, contentsData) == Ok(Report(ds));
    ReportIdentical(ds);
    if ds == [] {
      forall k | k in vectors || k in contents
        ensures k in vectors && k in contents && vectors[k].List? && vectors[k].items != [] &&
                vectors[k] == contents[k].vector
      {
        DifferenceCases(vectors, contents, k);
      }
    } else {
      DifferenceCases(vectors, contents, ds[0].docid);
    }
  }

  /** The report is the one-line "No differences" exactly when the list is empty. */
  lemma ReportIdentical(differences: seq<Difference>)
    ensures Report(differences) == [NoDifferences()] <==> differences == []
    ensures differences != [] ==> |Report(differences)| == |differences| + 1
  {
    if differences != [] {
      assert Report(differences)[0] == "Differences found:";
      assert |Report(differences)[0]| == 18 && |NoDifferences()| == 46;
    }
  }
}
