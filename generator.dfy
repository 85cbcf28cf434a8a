/**
 * `createDocument` of the safetensors document generator: it locates the three side
 * files of the input folder, decodes the docid side-car, the docid-index tensor and the
 * vectors tensor, inverts the side-car into an index-to-docid map, and takes the vector
 * row of the document's id.
 *
 * The row taken is the side-car's index for the id itself (`vectors[index]`): the
 * `docids` array built from the docid-index tensor is never consulted. Every failure on
 * the way becomes one `InvalidDocumentException`.
 */
module Generator {
  import opened Outcomes
  import opened Bytes
  import opened SafeTensors
  import FilePaths

  // ---------------------------------------------------------------------------------
  // LinkedHashMap
  // ---------------------------------------------------------------------------------

  /** A `LinkedHashMap` as its entries in iteration (insertion) order. */
  type Entries<K, V> = seq<(K, V)>

  predicate DistinctKeys<K(==), V>(m: Entries<K, V>) {
    forall i, j :: 0 <= i < j < |m| ==> m[i].0 != m[j].0
  }

  /** The position of key `k`, if any. */
  function KeyIndex<K(==), V>(m: Entries<K, V>, k: K): (r: Option<nat>)
    ensures r.Some? ==> r.value < |m| && m[r.value].0 == k
    ensures r.None? <==> forall j :: 0 <= j < |m| ==> m[j].0 != k
    ensures r.Some? ==> forall j :: 0 <= j < r.value ==> m[j].0 != k
  {
    if m == [] then None
    else if m[0].0 == k then Some(0)
    else match KeyIndex(m[1..], k)
      case None => None
      case Some(i) => Some(i + 1)
  }

  /** `get`: the value of key `k`, or `null`. */
  function Get<K(==), V>(m: Entries<K, V>, k: K): Option<V> {
    match KeyIndex(m, k)
    case None => None
    case Some(i) => Some(m[i].1)
  }

  /** `put`: a key already present keeps its position and takes the new value; a new key goes last. */
  function Put<K(==), V>(m: Entries<K, V>, k: K, v: V): (r: Entries<K, V>)
    ensures DistinctKeys(m) ==> DistinctKeys(r)
    ensures KeyIndex(m, k).Some? ==> |r| == |m|
    ensures KeyIndex(m, k).None? ==> |r| == |m| + 1
  {
    match KeyIndex(m, k)
    case Some(i) => m[i := (k, v)]
    case None => m + [(k, v)]
  }

  /** After `put(k, v)`, `get(k)` is `v` and every other key keeps its value. */
  lemma GetPut<K, V>(m: Entries<K, V>, k: K, v: V, k': K)
    requires DistinctKeys(m)
    ensures Get(Put(m, k, v), k') == if k' == k then Some(v) else Get(m, k')
  {
    var r := Put(m, k, v);
    assert DistinctKeys(r);
    match KeyIndex(m, k)
    case Some(i) =>
      assert r[i] == (k, v);
      if k' == k {
        assert KeyIndex(r, k') == Some(i);
      } else {
        match KeyIndex(m, k')
        case None =>
          assert KeyIndex(r, k').None?;
        case Some(i') =>
          assert r[i'] == m[i'];
          assert KeyIndex(r, k') == Some(i');
      }
    case None =>
      assert r[|m|] == (k, v);
      if k' == k {
        assert KeyIndex(r, k') == Some(|m|);
      } else {
        match KeyIndex(m, k')
        case None =>
          assert KeyIndex(r, k').None?;
        case Some(i') =>
          assert r[i'] == m[i'];
          assert KeyIndex(r, k') == Some(i');
      }
  }

  /** With distinct keys, the entry at position `p` is what `get` returns for its key. */
  lemma GetAt<K, V>(m: Entries<K, V>, p: nat)
    requires DistinctKeys(m) && p < |m|
    ensures Get(m, m[p].0) == Some(m[p].1)
  {
    assert KeyIndex(m, m[p].0) == Some(p);
  }

  // ---------------------------------------------------------------------------------
  // The inversion and the lookup
  // ---------------------------------------------------------------------------------

  /**
   * The side-car `docid_to_idx.json` as Jackson's map iterates it: docids with their
   * index; `None` is a JSON `null`. A Jackson map never repeats a docid, so only
   * side-cars with `DistinctKeys` arise; the type admits more, and the lemmas that
   * depend on distinct docids say so in a `requires`.
   */
  type Sidecar = Entries<string, Option<int>>

  /** `idxToDocid`: `put(value, key)` for each side-car entry in turn. */
  function Inverted(es: Sidecar): (inv: Entries<Option<int>, string>)
    ensures DistinctKeys(inv)
  {
    if es == [] then [] else Put(Inverted(es[..|es| - 1]), es[|es| - 1].1, es[|es| - 1].0)
  }

  /** The last side-car entry carrying index `k`, if any. */
  function LastWith(es: Sidecar, k: Option<int>): (r: Option<nat>)
    ensures r.Some? ==> r.value < |es| && es[r.value].1 == k
    ensures r.Some? ==> forall j :: r.value < j < |es| ==> es[j].1 != k
    ensures r.None? <==> forall j :: 0 <= j < |es| ==> es[j].1 != k
  {
    if es == [] then None
    else if es[|es| - 1].1 == k then Some(|es| - 1)
    else LastWith(es[..|es| - 1], k)
  }

  /**
   * The inverted map sends an index to the docid of the last side-car entry carrying it:
   * when two docids share an index, the later one wins. An index carried by no entry is
   * not a key.
   */
  lemma {:induction false} InvertedGet(es: Sidecar, k: Option<int>)
    ensures Get(Inverted(es), k) == if LastWith(es, k).Some? then Some(es[LastWith(es, k).value].0) else None
  {
    if es != [] {
      var init := es[..|es| - 1];
      var last := es[|es| - 1];
      InvertedGet(init, k);
      GetPut(Inverted(init), last.1, last.0, k);
      if last.1 != k {
        assert LastWith(es, k) == LastWith(init, k);
        if LastWith(init, k).Some? {
          assert es[LastWith(init, k).value] == init[LastWith(init, k).value];
        }
      }
    }
  }

  /** The first entry, in iteration order, whose value is `v`. */
  function FindPosition<K, V(==)>(m: Entries<K, V>, v: V): (r: Option<nat>)
    ensures r.Some? ==> r.value < |m| && m[r.value].1 == v
    ensures r.Some? ==> forall j :: 0 <= j < r.value ==> m[j].1 != v
    ensures r.None? <==> forall j :: 0 <= j < |m| ==> m[j].1 != v
  {
    if m == [] then None
    else if m[0].1 == v then Some(0)
    else match FindPosition(m[1..], v)
      case None => None
      case Some(i) => Some(i + 1)
  }

  /**
   * `entrySet().stream().filter(e -> e.getValue().equals(id)).findFirst()`, then `getKey()`:
   * the key of the first entry whose docid is `id`; `None` where `orElse(null)` is `null`.
   */
  function FindKeyOf(inv: Entries<Option<int>, string>, id: string): Option<Option<int>> {
    match FindPosition(inv, id)
    case None => None
    case Some(p) => Some(inv[p].0)
  }

  /**
   * What the lookup finds, in terms of the side-car: the index `k` it returns maps back
   * to `id`, that is, the last entry carrying `k` is `id`'s. The lookup finds nothing
   * exactly when every entry of `id` had its index taken over by a later entry.
   */
  lemma FindKeyOfInverted(es: Sidecar, id: string)
    ensures FindKeyOf(Inverted(es), id).Some? ==>
              var k := FindKeyOf(Inverted(es), id).value;
              LastWith(es, k).Some? && es[LastWith(es, k).value].0 == id
    ensures FindKeyOf(Inverted(es), id).None? <==>
              forall j :: 0 <= j < |es| && es[j].0 == id ==> LastWith(es, es[j].1) != Some(j)
  {
    var inv := Inverted(es);
    match FindPosition(inv, id)
    case Some(p) =>
      GetAt(inv, p);
      InvertedGet(es, inv[p].0);
      var j := LastWith(es, inv[p].0).value;
      assert LastWith(es, es[j].1) == Some(j);
    case None =>
      forall j | 0 <= j < |es| && es[j].0 == id
        ensures LastWith(es, es[j].1) != Some(j)
      {
        InvertedGet(es, es[j].1);
      }
  }

  /** A docid absent from the side-car is never found. */
  lemma UnknownIdNotFound(es: Sidecar, id: string)
    requires forall j :: 0 <= j < |es| ==> es[j].0 != id
    ensures FindKeyOf(Inverted(es), id) == None
  {
    FindKeyOfInverted(es, id);
  }

  /** When no two side-car entries share an index, the lookup finds `id`'s own index. */
  lemma InjectiveSidecar(es: Sidecar, id: string, j: nat)
    requires forall a, b :: 0 <= a < b < |es| ==> es[a].1 != es[b].1
    requires forall a, b :: 0 <= a < b < |es| ==> es[a].0 != es[b].0
    requires j < |es| && es[j].0 == id
    ensures FindKeyOf(Inverted(es), id) == Some(es[j].1)
  {
    FindKeyOfInverted(es, id);
    assert LastWith(es, es[j].1) == Some(j);
    var k := FindKeyOf(Inverted(es), id).value;
    var j' := LastWith(es, k).value;
    assert es[j'].0 == id;
  }

  // ---------------------------------------------------------------------------------
  // The document
  // ---------------------------------------------------------------------------------

  /** `InvalidDocumentException`, the one failure `createDocument` reports. */
  datatype Invalid = InvalidDocument

  /** The id and the `float[]` contents the Lucene document is built from. */
  datatype Document<F> = Document(id: string, contents: seq<F>)

  /** What `createDocument` has decoded before the lookup. */
  datatype Decoded = Decoded(idxToDocid: Entries<Option<int>, string>, docids: seq<Option<string>>, vectors: seq<seq<nat>>)

  function Invalidate<T, E>(r: Result<T, E>): Result<T, Invalid> {
    if r.Ok? then Ok(r.value) else Err(InvalidDocument)
  }

  /** `Files.readAllBytes`: a path missing from `files` raises `NoSuchFileException`. */
  function ReadFile(files: map<string, seq<byte>>, path: string): Result<seq<byte>, Invalid> {
    if path in files then Ok(files[path]) else Err(InvalidDocument)
  }

  /** `docids[i] = idxToDocid.get(docidIndices[i])`. */
  function RowDocids(inv: Entries<Option<int>, string>, indices: seq<int>): (r: seq<Option<string>>)
    ensures |r| == |indices|
  {
    seq(|indices|, i requires 0 <= i < |indices| => Get(inv, Some(indices[i])))
  }

  /** The `(float)` narrowing of one row of doubles, with `toFloat` the narrowing of a word. */
  function NarrowRow<F>(row: seq<nat>, toFloat: nat -> F): (r: seq<F>)
    ensures |r| == |row|
  {
    seq(|row|, i requires 0 <= i < |row| => toFloat(row[i]))
  }

  /** The three side files, read in the order `createDocument` reads them. */
  datatype Inputs = Inputs(vectorsData: seq<byte>, docidsData: seq<byte>, sidecarData: seq<byte>)

  function ReadInputs(generated: Result<FilePaths.FilePaths, FilePaths.PathError>, files: map<string, seq<byte>>)
    : Result<Inputs, Invalid>
  {
    var paths :- Invalidate(generated);
    var vectorsData :- ReadFile(files, paths.vectors);
    var docidsData :- ReadFile(files, paths.docids);
    var sidecarData :- ReadFile(files, paths.docidToIdx);
    Ok(Inputs(vectorsData, docidsData, sidecarData))
  }

  /** The side-car parsed by `decodeSidecar`; `None` is a Jackson parse failure. */
  function SidecarOf(data: seq<byte>, decodeSidecar: seq<byte> -> Option<Sidecar>): Result<Sidecar, Invalid> {
    if decodeSidecar(data).Some? then Ok(decodeSidecar(data).value) else Err(InvalidDocument)
  }

  /** `parseHeader` then `extractDocidIndices` on the docids file. */
  function DocidIndicesFrom(data: seq<byte>, decodeHeader: seq<byte> -> Option<Header>): Result<seq<int>, Invalid> {
    var header :- Invalidate(ParseHeader(data, decodeHeader));
    Invalidate(DocidIndicesOf(data, header))
  }

  /** `parseHeader` then `extractVectors` on the vectors file. */
  function VectorsFrom(data: seq<byte>, decodeHeader: seq<byte> -> Option<Header>): Result<seq<seq<nat>>, Invalid> {
    var header :- Invalidate(ParseHeader(data, decodeHeader));
    Invalidate(VectorsOf(data, header))
  }

  /**
   * The decoding half of `createDocument`: the paths and the three files, then the side-car,
   * the docids tensor and the vectors tensor, in the order decoded.
   */
  function DecodeAll(generated: Result<FilePaths.FilePaths, FilePaths.PathError>, files: map<string, seq<byte>>,
                     decodeHeader: seq<byte> -> Option<Header>, decodeSidecar: seq<byte> -> Option<Sidecar>)
    : Result<Decoded, Invalid>
  {
    var inputs :- ReadInputs(generated, files);
    var docidToIdx :- SidecarOf(inputs.sidecarData, decodeSidecar);
    var inv := Inverted(docidToIdx);
    var indices :- DocidIndicesFrom(inputs.docidsData, decodeHeader);
    var vectors :- VectorsFrom(inputs.vectorsData, decodeHeader);
    Ok(Decoded(inv, RowDocids(inv, indices), vectors))
  }

  /**
   * The lookup half: the first index mapped to `id`, then that row. No index for `id`
   * (`orElse(null).getKey()` on `null`), a `null` index and an index outside the matrix
   * all fail.
   */
  function Lookup<F>(dec: Decoded, id: string, toFloat: nat -> F): Result<Document<F>, Invalid> {
    match FindKeyOf(dec.idxToDocid, id)
    case None => Err(InvalidDocument)
    case Some(None) => Err(InvalidDocument)
    case Some(Some(index)) =>
      if 0 <= index < |dec.vectors| then Ok(Document(id, NarrowRow(dec.vectors[index], toFloat)))
      else Err(InvalidDocument)
  }

  /** What `createDocument` returns for the document `id`. */
  function DocumentFor<F>(generated: Result<FilePaths.FilePaths, FilePaths.PathError>, files: map<string, seq<byte>>,
                          decodeHeader: seq<byte> -> Option<Header>, decodeSidecar: seq<byte> -> Option<Sidecar>,
                          id: string, toFloat: nat -> F): Result<Document<F>, Invalid>
  {
    var dec :- DecodeAll(generated, files, decodeHeader, decodeSidecar);
    Lookup(dec, id, toFloat)
  }

  // ---------------------------------------------------------------------------------
  // The loops of createDocument
  // ---------------------------------------------------------------------------------

  /** The loop building `idxToDocid` from the side-car. */
  method InvertDocidMap(docidToIdx: Sidecar) returns (idxToDocid: Entries<Option<int>, string>)
    ensures idxToDocid == Inverted(docidToIdx)
  {
    idxToDocid := [];
    for i := 0 to |docidToIdx|
      invariant idxToDocid == Inverted(docidToIdx[..i])
    {
      assert docidToIdx[..i + 1][..i] == docidToIdx[..i];
      idxToDocid := Put(idxToDocid, docidToIdx[i].1, docidToIdx[i].0);
    }
    assert docidToIdx[..|docidToIdx|] == docidToIdx;
  }

  /** The loop filling `docids`, one `get` per element of the docid-index tensor. */
  method ResolveRowDocids(idxToDocid: Entries<Option<int>, string>, docidIndices: seq<int>)
    returns (docids: seq<Option<string>>)
    ensures |docids| == |docidIndices|
    ensures forall i :: 0 <= i < |docidIndices| ==> docids[i] == Get(idxToDocid, Some(docidIndices[i]))
  {
    docids := [];
    for i := 0 to |docidIndices|
      invariant |docids| == i
      invariant forall k :: 0 <= k < i ==> docids[k] == Get(idxToDocid, Some(docidIndices[k]))
    {
      docids := docids + [Get(idxToDocid, Some(docidIndices[i]))];
    }
  }

  /** The loop filling `contents` with `(float) vectors[index][i]`. */
  method NarrowContents<F>(row: seq<nat>, toFloat: nat -> F) returns (contents: seq<F>)
    ensures |contents| == |row|
    ensures forall i :: 0 <= i < |row| ==> contents[i] == toFloat(row[i])
  {
    contents := [];
    for i := 0 to |row|
      invariant |contents| == i
      invariant forall k :: 0 <= k < i ==> contents[k] == toFloat(row[k])
    {
      contents := contents + [toFloat(row[i])];
    }
  }

  /** `Files.readAllBytes` of the three paths `generateFilePaths` derives. */
  method ReadSideFiles(generated: Result<FilePaths.FilePaths, FilePaths.PathError>, files: map<string, seq<byte>>)
    returns (r: Result<Inputs, Invalid>)
    ensures r == ReadInputs(generated, files)
  {
    var paths := generated;
    if paths.Err? {
      return Err(InvalidDocument);
    }
    var vectorsData := ReadFile(files, paths.value.vectors);
    var docidsData := ReadFile(files, paths.value.docids);
    var sidecarData := ReadFile(files, paths.value.docidToIdx);
    if vectorsData.Err? || docidsData.Err? || sidecarData.Err? {
      return Err(InvalidDocument);
    }
    return Ok(Inputs(vectorsData.value, docidsData.value, sidecarData.value));
  }

  /** `parseHeader(docidsData)` and `extractDocidIndices`. */
  method DecodeDocidIndices(data: seq<byte>, decodeHeader: seq<byte> -> Option<Header>)
    returns (r: Result<seq<int>, Invalid>)
    ensures r == DocidIndicesFrom(data, decodeHeader)
  {
    var header := ParseHeader(data, decodeHeader);
    if header.Err? {
      return Err(InvalidDocument);
    }
    var indices := ExtractDocidIndices(data, header.value);
    return Invalidate(indices);
  }

  /** `parseHeader(vectorsData)` and `extractVectors`. */
  method DecodeVectors(data: seq<byte>, decodeHeader: seq<byte> -> Option<Header>)
    returns (r: Result<seq<seq<nat>>, Invalid>)
    ensures r == VectorsFrom(data, decodeHeader)
  {
    var header := ParseHeader(data, decodeHeader);
    if header.Err? {
      return Err(InvalidDocument);
    }
    var vectors := ExtractVectors(data, header.value);
    return Invalidate(vectors);
  }

  /** The decoding half of `createDocument`, up to and including the `docids` and `vectors` arrays. */
  method DecodeSideFiles(generated: Result<FilePaths.FilePaths, FilePaths.PathError>, files: map<string, seq<byte>>,
                         decodeHeader: seq<byte> -> Option<Header>, decodeSidecar: seq<byte> -> Option<Sidecar>)
    returns (r: Result<Decoded, Invalid>)
    ensures r == DecodeAll(generated, files, decodeHeader, decodeSidecar)
  {
    var inputs := ReadSideFiles(generated, files);
    if inputs.Err? {
      return Err(InvalidDocument);
    }
    var docidToIdx := SidecarOf(inputs.value.sidecarData, decodeSidecar);
    if docidToIdx.Err? {
      return Err(InvalidDocument);
    }
    var idxToDocid := InvertDocidMap(docidToIdx.value);
    var docidIndices := DecodeDocidIndices(inputs.value.docidsData, decodeHeader);
    if docidIndices.Err? {
      return Err(InvalidDocument);
    }
    var docids := ResolveRowDocids(idxToDocid, docidIndices.value);
    var vectors := DecodeVectors(inputs.value.vectorsData, decodeHeader);
    if vectors.Err? {
      return Err(InvalidDocument);
    }
    assert docids == RowDocids(idxToDocid, docidIndices.value);
    return Ok(Decoded(idxToDocid, docids, vectors.value));
  }

  lemma DocumentForDecoded<F>(generated: Result<FilePaths.FilePaths, FilePaths.PathError>, files: map<string, seq<byte>>,
                              decodeHeader: seq<byte> -> Option<Header>, decodeSidecar: seq<byte> -> Option<Sidecar>,
                              id: string, toFloat: nat -> F, dec: Decoded)
    requires DecodeAll(generated, files, decodeHeader, decodeSidecar) == Ok(dec)
    ensures DocumentFor(generated, files, decodeHeader, decodeSidecar, id, toFloat) == Lookup(dec, id, toFloat)
  {
  }

  lemma DocumentForFailed<F>(generated: Result<FilePaths.FilePaths, FilePaths.PathError>, files: map<string, seq<byte>>,
                             decodeHeader: seq<byte> -> Option<Header>, decodeSidecar: seq<byte> -> Option<Sidecar>,
                             id: string, toFloat: nat -> F)
    requires DecodeAll(generated, files, decodeHeader, decodeSidecar).Err?
    ensures DocumentFor(generated, files, decodeHeader, decodeSidecar, id, toFloat) == Err(InvalidDocument)
  {
  }

  /** `createDocument(src)` with `src.id() == id`, the generator's `args.input` being `input`. */
  method CreateDocument<F>(input: string, listing: Option<seq<string>>, files: map<string, seq<byte>>,
                           decodeHeader: seq<byte> -> Option<Header>, decodeSidecar: seq<byte> -> Option<Sidecar>,
                           id: string, toFloat: nat -> F)
    returns (r: Result<Document<F>, Invalid>)
    ensures r == DocumentFor(FilePaths.GenerateFilePaths(FilePaths.Parse(input), listing), files, decodeHeader, decodeSidecar, id, toFloat)
  {
    var generated := FilePaths.GenerateFilePaths(FilePaths.Parse(input), listing);
    var dec := DecodeSideFiles(generated, files, decodeHeader, decodeSidecar);
    if dec.Err? {
      DocumentForFailed(generated, files, decodeHeader, decodeSidecar, id, toFloat);
      return Err(InvalidDocument);
    }
    DocumentForDecoded(generated, files, decodeHeader, decodeSidecar, id, toFloat, dec.value);
    var indexObj := FindKeyOf(dec.value.idxToDocid, id);
    if indexObj.None? || indexObj.value.None? {
      return Err(InvalidDocument);
    }
    var index := indexObj.value.value;
    if index < 0 || index >= |dec.value.vectors| {
      return Err(InvalidDocument);
    }
    var contents := NarrowContents(dec.value.vectors[index], toFloat);
    assert contents == NarrowRow(dec.value.vectors[index], toFloat);
    return Ok(Document(id, contents));
  }

  // ---------------------------------------------------------------------------------
  // Properties of the lookup
  // ---------------------------------------------------------------------------------

  /**
   * The lookup succeeds exactly when the side-car gives `id` an index that is a row of the
   * matrix, and the contents are then that row, narrowed entry by entry.
   */
  lemma LookupRow<F>(dec: Decoded, id: string, toFloat: nat -> F)
    ensures Lookup(dec, id, toFloat).Ok? <==>
              var k := FindKeyOf(dec.idxToDocid, id);
              k.Some? && k.value.Some? && 0 <= k.value.value < |dec.vectors|
    ensures Lookup(dec, id, toFloat).Ok? ==>
              var index := FindKeyOf(dec.idxToDocid, id).value.value;
              var doc := Lookup(dec, id, toFloat).value;
              && doc.id == id
              && |doc.contents| == |dec.vectors[index]|
              && forall i :: 0 <= i < |doc.contents| ==> doc.contents[i] == toFloat(dec.vectors[index][i])
  {
  }

  /** The row does not depend on the docid-index tensor: the `docids` array is never consulted. */
  lemma LookupIgnoresDocids<F>(dec: Decoded, other: seq<Option<string>>, id: string, toFloat: nat -> F)
    ensures Lookup(dec.(docids := other), id, toFloat) == Lookup(dec, id, toFloat)
  {
  }

  /**
   * For a decoded side-car and vectors tensor: the document's contents are row `index` of
   * the `F64` matrix, `shape[1]` entries, entry `i` the narrowed word at
   * `start + 8 * (index * cols + i)`; an index past `shape[0]` fails.
   */
  lemma DocumentContents<F>(es: Sidecar, docids: seq<Option<string>>, vectorsData: seq<byte>, header: Header,
                            l: Layout, id: string, toFloat: nat -> F)
    requires VectorsLayout(vectorsData, header) == Ok(l) && VectorsOf(vectorsData, header).Ok?
    ensures
      var dec := Decoded(Inverted(es), docids, VectorsOf(vectorsData, header).value);
      var k := FindKeyOf(Inverted(es), id);
      && (Lookup(dec, id, toFloat).Ok? <==> k.Some? && k.value.Some? && 0 <= k.value.value < l.rows)
      && (Lookup(dec, id, toFloat).Ok? ==>
            var index := k.value.value;
            var contents := Lookup(dec, id, toFloat).value.contents;
            && |contents| == l.cols
            && forall i :: 0 <= i < l.cols ==>
                 && EntryOffset(l.start, l.cols, index, i) + 8 <= |vectorsData|
                 && contents[i] == toFloat(Word(vectorsData, EntryOffset(l.start, l.cols, index, i))))
  {
    var dec := Decoded(Inverted(es), docids, VectorsOf(vectorsData, header).value);
    VectorsRowMajor(vectorsData, header, l);
    LookupRow(dec, id, toFloat);
  }

  /**
   * Entry `i` of a document found at side-car index `index`: the narrowed word at
   * `start + 8 * (index * cols + i)` (the entry offset, stated in closed form beside it).
   */
  lemma DocumentEntry<F>(es: Sidecar, dec: Decoded, vectorsData: seq<byte>, header: Header,
                         l: Layout, id: string, toFloat: nat -> F, doc: Document<F>, index: nat, i: nat)
    requires VectorsLayout(vectorsData, header) == Ok(l) && VectorsOf(vectorsData, header).Ok?
    requires dec.idxToDocid == Inverted(es) && dec.vectors == VectorsOf(vectorsData, header).value
    requires Lookup(dec, id, toFloat) == Ok(doc) && FindKeyOf(Inverted(es), id) == Some(Some(index))
    requires i < l.cols
    ensures index < l.rows && i < |doc.contents|
    ensures l.start + 8 * (index * l.cols + i) + 8 <= |vectorsData|
    ensures EntryOffset(l.start, l.cols, index, i) == l.start + 8 * (index * l.cols + i)
    ensures doc.contents[i] == toFloat(Word(vectorsData, EntryOffset(l.start, l.cols, index, i)))
  {
    assert dec == Decoded(Inverted(es), dec.docids, VectorsOf(vectorsData, header).value);
    DocumentContents(es, dec.docids, vectorsData, header, l, id, toFloat);
    EntryOffsetValue(l.start, l.cols, index, i);
  }

  lemma TwoDocidInverted()
    ensures Inverted([("d1", Some(0)), ("d2", Some(1))]) == [(Some(0), "d1"), (Some(1), "d2")]
  {
    var es: Sidecar := [("d1", Some(0)), ("d2", Some(1))];
    assert es[..1] == [("d1", Some(0))];
    assert Inverted(es[..1]) == [(Some(0), "d1")];
  }

  /**
   * The side-car `{"d1": 0, "d2": 1}` with the docid-index tensor `[1, 0]`: the `docids`
   * array reads `["d2", "d1"]`, yet the document `d1` takes row 0 of the matrix, its own
   * side-car index, not the row the docid-index tensor assigns to it.
   */
  lemma TwoDocidExample<F>(vectors: seq<seq<nat>>, toFloat: nat -> F)
    requires |vectors| == 2
    ensures
      var inv := Inverted([("d1", Some(0)), ("d2", Some(1))]);
      && RowDocids(inv, [1, 0]) == [Some("d2"), Some("d1")]
      && Lookup(Decoded(inv, RowDocids(inv, [1, 0]), vectors), "d1", toFloat)
           == Ok(Document("d1", NarrowRow(vectors[0], toFloat)))
  {
    TwoDocidInverted();
    var inv: Entries<Option<int>, string> := [(Some(0), "d1"), (Some(1), "d2")];
    assert Get(inv, Some(1)) == Some("d2") by {
      assert KeyIndex(inv, Some(1)) == Some(1);
    }
    assert Get(inv, Some(0)) == Some("d1") by {
      assert KeyIndex(inv, Some(0)) == Some(0);
    }
    assert FindPosition(inv, "d1") == Some(0);
  }

  /** Two docids sharing an index: the later one takes it and the earlier one is not found. */
  lemma SharedIndexExample()
    ensures
      var inv := Inverted([("d1", Some(0)), ("d2", Some(0))]);
      FindKeyOf(inv, "d2") == Some(Some(0)) && FindKeyOf(inv, "d1") == None
  {
    var es: Sidecar := [("d1", Some(0)), ("d2", Some(0))];
    assert es[..1] == [("d1", Some(0))];
    assert Inverted(es[..1]) == [(Some(0), "d1")];
    assert KeyIndex(Inverted(es[..1]), Some(0)) == Some(0);
    assert Inverted(es) == [(Some(0), "d2")];
  }
}
