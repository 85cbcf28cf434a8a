# SafeTensors dense-vector side files in Anserini, modelled in Dafny

This project models three parts of Anserini's support for dense vectors stored in
SafeTensors side files.

- **The Java document generator** (`HnswJsonWithSafeTensorsDenseVectorDocumentGenerator`).
  - `generateFilePaths` finds the first `.json`/`.jsonl`/`.gz` file of the input folder. It
    derives the three side files `<g>/<parent>.safetensors/<shard>/<base>_vectors.safetensors`,
    `..._docids.safetensors` and `..._docid_to_idx.json`.
  - `parseHeader` reads the 8-byte little-endian header length and the trimmed header text.
  - `extractVectors` decodes an `F64` row-major matrix of 8-byte words. `extractDocidIndices`
    decodes an `I64` vector, each element narrowed to a Java `int`.
  - `createDocument` inverts the docid→index side-car into a `LinkedHashMap`, builds the
    `docids` array, and looks up the row of the document's id. It narrows that row to `float`
    and turns every exception into `InvalidDocumentException`.
- **The converter `json_to_bin.py`**, function `process_file`.
  - The output names come from the input's base name.
  - An overwrite guard and a suffix-based choice of opener run before any line is read.
  - The line loop keeps each line whose vector starts with a `float`, together with the
    character codes of its docid.
  - The docid codes are zero-padded into one matrix.
- **The validator `compare_jsonl.py`**, function `compare_jsonl`. It builds two dicts keyed by
  docid, walks their sorted union, and prints the report of missing entries and vector mismatches.

Every loop of the source is a `method` with a loop and its invariants. Each is proved equal to a
specification function, for example `ExtractVectors` to `VectorsOf`, `ScanLines` to `Collect`
and `CollectDifferences` to `Differences`. The properties are lemmas about those functions.

Modules, one per file:
- `Outcomes`: `Option`, `Result`.
- `Bytes`: little-endian words; Java `long` and `int` narrowing.
- `Strings`: suffixes; `replace(pat, "")`; Python's string order.
- `SafeTensors`: the container decoder.
- `FilePaths`: `java.nio.file.Path` on Unix, and `generateFilePaths`.
- `Generator`: `createDocument`.
- `JsonToBin`: `process_file`.
- `CompareJsonl`: `compare_jsonl`.

The model follows the code where it departs from the intended design:
- The row `createDocument` returns is the side-car's index for the id itself (`vectors[index]`).
- The `docids` array built from the docid-index tensor is never consulted (`LookupIgnoresDocids`, `TwoDocidExample`).
- `data_offsets[1]` is never read (`PayloadStartFirstOffset`).
- A float-led line without a `docid` adds a vector and no docid, so the two lists of
  `process_file` fall out of step (`Desync`, `DesyncExample`).
- The `Docid mismatch` branch of `compare_jsonl` can never be taken (`NoDocidMismatch`).

The environment is passed in as parameters:
- The folder listing is an `Option<seq<string>>`; `None` means `Files.list` failed.
- The file system is a map from path to bytes (Java), or a predicate `present` plus a function
  returning an opener's lines (Python).
- Jackson and `json.loads` are parsing functions (`decodeHeader`, `decodeSidecar`) or parsed values.
- `(float)` of a double is a function `toFloat` on the raw 64-bit word.

## Model

| member | source | states |
|---|---|---|
| Bytes.LeValueOfLeBytes | src/main/java/io/anserini/index/generator/HnswJsonWithSafeTensorsDenseVectorDocumentGenerator.java:170-171 | the little-endian value of the `k` bytes written for `n < 256^k` is `n` |
| Bytes.LeBytesOfLeValue | src/main/java/io/anserini/index/generator/HnswJsonWithSafeTensorsDenseVectorDocumentGenerator.java:170-171 | writing the little-endian value of a byte sequence gives the bytes back |
| Bytes.ToLong | src/main/java/io/anserini/index/generator/HnswJsonWithSafeTensorsDenseVectorDocumentGenerator.java:171 | `getLong` yields a value in the signed 64-bit range |
| Bytes.ToInt | src/main/java/io/anserini/index/generator/HnswJsonWithSafeTensorsDenseVectorDocumentGenerator.java:228 | the cast `(int)` yields a value in the Java `int` range |
| Bytes.IntThroughWord | src/main/java/io/anserini/index/generator/HnswJsonWithSafeTensorsDenseVectorDocumentGenerator.java:228 | an `int` stored as a two's-complement 64-bit word comes back unchanged through `(int) getLong()` |
| SafeTensors.TrimBounds | src/main/java/io/anserini/index/generator/HnswJsonWithSafeTensorsDenseVectorDocumentGenerator.java:174 | `trim()` cuts only bytes at or below U+0020, and the kept part starts and ends above U+0020 |
| SafeTensors.HeaderTextSlice | src/main/java/io/anserini/index/generator/HnswJsonWithSafeTensorsDenseVectorDocumentGenerator.java:170-174 | for a header length that fits an `int`, the header text is exactly bytes `[8, 8 + headerSize)`; it fails with a buffer underflow exactly when the buffer is shorter |
| SafeTensors.PayloadStartValue | src/main/java/io/anserini/index/generator/HnswJsonWithSafeTensorsDenseVectorDocumentGenerator.java:190-193 | the payload starts at `8 + headerSize + data_offsets[0]`, with `headerSize` re-read from bytes 0..7; a start past the end fails |
| SafeTensors.PayloadStartFirstOffset | src/main/java/io/anserini/index/generator/HnswJsonWithSafeTensorsDenseVectorDocumentGenerator.java:219-223 | `data_offsets[1]` and later entries never change where the payload starts |
| SafeTensors.ExtractVectors | src/main/java/io/anserini/index/generator/HnswJsonWithSafeTensorsDenseVectorDocumentGenerator.java:179-207 | the nested read loop returns exactly `VectorsOf`: the layout checks in source order, then the `rows * cols` word reads |
| SafeTensors.ReadRows | src/main/java/io/anserini/index/generator/HnswJsonWithSafeTensorsDenseVectorDocumentGenerator.java:197-201 | the outer read loop gives exactly `ReadMatrix` from the payload start: the rows in order, or the underflow of the first short row |
| SafeTensors.ReadRow | src/main/java/io/anserini/index/generator/HnswJsonWithSafeTensorsDenseVectorDocumentGenerator.java:198-200 | the inner read loop gives exactly `ReadWords`: `cols` words at 8-byte steps, or an underflow at the first read past the end |
| SafeTensors.ExtractDocidIndices | src/main/java/io/anserini/index/generator/HnswJsonWithSafeTensorsDenseVectorDocumentGenerator.java:209-235 | the read loop returns exactly `DocidIndicesOf`: the layout checks, then one `(int) getLong()` per element |
| SafeTensors.ReadWordsClosedForm | src/main/java/io/anserini/index/generator/HnswJsonWithSafeTensorsDenseVectorDocumentGenerator.java:227-229 | `n` reads succeed iff they stay in the buffer (or `n == 0`); read `k` is the word at `pos + 8k`; a failure is a buffer underflow |
| SafeTensors.ReadMatrixSucceeds | src/main/java/io/anserini/index/generator/HnswJsonWithSafeTensorsDenseVectorDocumentGenerator.java:195-201 | the matrix read succeeds iff `rows * cols == 0` or all `rows * cols` words fit; a failure is a buffer underflow |
| SafeTensors.ReadMatrixEntries | src/main/java/io/anserini/index/generator/HnswJsonWithSafeTensorsDenseVectorDocumentGenerator.java:197-201 | a successful read has `rows` rows of `cols` entries, entry `[i][j]` being the word at its row-major offset |
| SafeTensors.VectorsRowMajor | src/main/java/io/anserini/index/generator/HnswJsonWithSafeTensorsDenseVectorDocumentGenerator.java:186-201 | after the layout checks, the result has `shape[0]` rows of `shape[1]` entries, entry `[i][j]` the word at its row-major entry offset; zero rows or columns never fail |
| SafeTensors.VectorsEntry | src/main/java/io/anserini/index/generator/HnswJsonWithSafeTensorsDenseVectorDocumentGenerator.java:197-200 | entry `[i][j]` of the extracted vectors is the word at `start + 8(i*cols + j)`, which lies inside the buffer |
| SafeTensors.DocidIndicesLayout | src/main/java/io/anserini/index/generator/HnswJsonWithSafeTensorsDenseVectorDocumentGenerator.java:216-229 | after the layout checks, the result has `shape[0]` elements, element `i` the low 32 bits of the word at `start + 8i` as an `int`; it fails only past the end |
| SafeTensors.DTypeWhitelist | src/main/java/io/anserini/index/generator/HnswJsonWithSafeTensorsDenseVectorDocumentGenerator.java:196-232 | only an `F64` vectors tensor and an `I64` docids tensor decode; any other dtype fails with `UnsupportedDType` once shape and offset pass |
| SafeTensors.VectorsLayoutAt | src/main/java/io/anserini/index/generator/HnswJsonWithSafeTensorsDenseVectorDocumentGenerator.java:181-196 | a well-formed `F64` vectors entry with a known payload start passes every check, with its shape as rows and columns |
| SafeTensors.DocidsLayoutAt | src/main/java/io/anserini/index/generator/HnswJsonWithSafeTensorsDenseVectorDocumentGenerator.java:211-226 | a well-formed `I64` docids entry with a known payload start passes every check |
| SafeTensors.ContainerHeaderSize | src/main/java/io/anserini/index/generator/HnswJsonWithSafeTensorsDenseVectorDocumentGenerator.java:171 | the header length read from an encoded container is the length of its header text |
| SafeTensors.HeaderTextOfContainer | src/main/java/io/anserini/index/generator/HnswJsonWithSafeTensorsDenseVectorDocumentGenerator.java:169-174 | the header text read from an encoded container is exactly the text written |
| SafeTensors.ReadEncodedWords | src/main/java/io/anserini/index/generator/HnswJsonWithSafeTensorsDenseVectorDocumentGenerator.java:227-229 | reading back words written as 8 little-endian bytes each gives the words |
| SafeTensors.ReadEncodedMatrix | src/main/java/io/anserini/index/generator/HnswJsonWithSafeTensorsDenseVectorDocumentGenerator.java:197-201 | reading back a rectangular matrix written row-major gives the matrix |
| SafeTensors.VectorsOfContainer | src/main/java/io/anserini/index/generator/HnswJsonWithSafeTensorsDenseVectorDocumentGenerator.java:179-207 | a container holding an `F64` matrix at `data_offsets[0]` decodes to that matrix, whatever `data_offsets[1]` says and whatever follows |
| SafeTensors.NarrowedWidened | src/main/java/io/anserini/index/generator/HnswJsonWithSafeTensorsDenseVectorDocumentGenerator.java:228 | `(int) getLong()` undoes writing `int` values as two's-complement words |
| SafeTensors.DocidIndicesOfContainer | src/main/java/io/anserini/index/generator/HnswJsonWithSafeTensorsDenseVectorDocumentGenerator.java:209-235 | a container holding `int` indices as `I64` words decodes to those indices |
| FilePaths.Parse | src/main/java/io/anserini/index/generator/HnswJsonWithSafeTensorsDenseVectorDocumentGenerator.java:75 | `Paths.get` gives non-empty, slash-free names, and the path is absolute iff the text starts with `/` |
| FilePaths.ParseShow | src/main/java/io/anserini/index/generator/HnswJsonWithSafeTensorsDenseVectorDocumentGenerator.java:150 | `Paths.get(p.toString())` is `p` for every path |
| FilePaths.FirstInput | src/main/java/io/anserini/index/generator/HnswJsonWithSafeTensorsDenseVectorDocumentGenerator.java:137-141 | the chosen name is the first allowed one in listing order; there is none iff no name is allowed |
| FilePaths.GetFile | src/main/java/io/anserini/index/generator/HnswJsonWithSafeTensorsDenseVectorDocumentGenerator.java:150-152 | `Paths.get(folder.toString(), name)` is the folder with `name` appended |
| FilePaths.SafetensorsFolder | src/main/java/io/anserini/index/generator/HnswJsonWithSafeTensorsDenseVectorDocumentGenerator.java:146-147 | the folder built from the grandparent, parent name and shard name is `<g>/<parent>.safetensors/<shard>` |
| FilePaths.Parents | src/main/java/io/anserini/index/generator/HnswJsonWithSafeTensorsDenseVectorDocumentGenerator.java:144-147 | for a deep enough folder, the parent, grandparent and both file names dereferenced exist and are the expected prefixes and names |
| FilePaths.FolderOfDeep | src/main/java/io/anserini/index/generator/HnswJsonWithSafeTensorsDenseVectorDocumentGenerator.java:144-147 | the safetensors folder of `<g>/<parent>/<shard>` is `<g>/<parent>.safetensors/<shard>` |
| FilePaths.SuffixedValid | src/main/java/io/anserini/index/generator/HnswJsonWithSafeTensorsDenseVectorDocumentGenerator.java:149-152 | the base name of a listed name followed by a suffix is a valid file name |
| FilePaths.SideFilesOfDeep | src/main/java/io/anserini/index/generator/HnswJsonWithSafeTensorsDenseVectorDocumentGenerator.java:150-154 | the three paths are the base name with its three suffixes, inside the safetensors folder |
| FilePaths.GeneratedPaths | src/main/java/io/anserini/index/generator/HnswJsonWithSafeTensorsDenseVectorDocumentGenerator.java:134-155 | a deep folder whose listing has an allowed name yields the three side files of the first allowed name's base name |
| FilePaths.GenerateFilePathsErrors | src/main/java/io/anserini/index/generator/HnswJsonWithSafeTensorsDenseVectorDocumentGenerator.java:136-147 | a listing failure, no allowed file, and a folder too shallow to have a parent and grandparent each give their own error, in both directions |
| FilePaths.BaseNameOfSuffixed | src/main/java/io/anserini/index/generator/HnswJsonWithSafeTensorsDenseVectorDocumentGenerator.java:149 | removing `.jsonl`, then `.json`, then `.gz` from `stem + suffix` leaves `stem` when `stem` holds none of them |
| FilePaths.BaseNameVectorsPart00 | src/test/java/io/anserini/index/generator/HnswJsonWithSafeTensorsDenseVectorDocumentGeneratorTest.java:24-26 | the base name of `vectors.part00.jsonl` is `vectors.part00` |
| FilePaths.NfcorpusPaths | src/test/java/io/anserini/index/generator/HnswJsonWithSafeTensorsDenseVectorDocumentGeneratorTest.java:18-26 | the unit test's folder, with `vectors.part00.jsonl` as its first allowed file, gives the three expected paths under `bge-base-en-v1.5.safetensors/nfcorpus` |
| Generator.KeyIndex | src/main/java/io/anserini/index/generator/HnswJsonWithSafeTensorsDenseVectorDocumentGenerator.java:92 | a key's position in the `LinkedHashMap` is its first occurrence, and there is none iff the key is absent |
| Generator.Put | src/main/java/io/anserini/index/generator/HnswJsonWithSafeTensorsDenseVectorDocumentGenerator.java:94 | `put` keeps keys distinct; a present key keeps its place and a new one is appended |
| Generator.GetPut | src/main/java/io/anserini/index/generator/HnswJsonWithSafeTensorsDenseVectorDocumentGenerator.java:94 | after `put(k, v)`, `get(k)` is `v` and every other key keeps its value |
| Generator.GetAt | src/main/java/io/anserini/index/generator/HnswJsonWithSafeTensorsDenseVectorDocumentGenerator.java:111-112 | with distinct keys, the entry at any position is what `get` returns for its key |
| Generator.Inverted | src/main/java/io/anserini/index/generator/HnswJsonWithSafeTensorsDenseVectorDocumentGenerator.java:92-95 | the inverted map has distinct keys |
| Generator.InvertDocidMap | src/main/java/io/anserini/index/generator/HnswJsonWithSafeTensorsDenseVectorDocumentGenerator.java:92-95 | the loop over `docidToIdx` builds exactly `Inverted` of the side-car |
| Generator.InvertedGet | src/main/java/io/anserini/index/generator/HnswJsonWithSafeTensorsDenseVectorDocumentGenerator.java:92-95 | the inverted map sends an index to the docid of the last side-car entry carrying it; an index carried by none is absent |
| Generator.FindPosition | src/main/java/io/anserini/index/generator/HnswJsonWithSafeTensorsDenseVectorDocumentGenerator.java:111-112 | `filter(..).findFirst()` finds the first entry, in iteration order, whose value is the id, or none iff no entry has it |
| Generator.FindKeyOfInverted | src/main/java/io/anserini/index/generator/HnswJsonWithSafeTensorsDenseVectorDocumentGenerator.java:92-112 | an index found for `id` maps back to `id` in the side-car; nothing is found iff every entry of `id` had its index taken by a later entry |
| Generator.UnknownIdNotFound | src/main/java/io/anserini/index/generator/HnswJsonWithSafeTensorsDenseVectorDocumentGenerator.java:111-115 | an id absent from the side-car is never found |
| Generator.InjectiveSidecar | src/main/java/io/anserini/index/generator/HnswJsonWithSafeTensorsDenseVectorDocumentGenerator.java:92-112 | with no shared index and no repeated docid, the lookup finds the id's own side-car index |
| Generator.SharedIndexExample | src/main/java/io/anserini/index/generator/HnswJsonWithSafeTensorsDenseVectorDocumentGenerator.java:92-115 | of two docids sharing index 0, the later one is found at 0 and the earlier one is not found |
| Generator.RowDocids | src/main/java/io/anserini/index/generator/HnswJsonWithSafeTensorsDenseVectorDocumentGenerator.java:100-103 | the `docids` array has one entry per docid index |
| Generator.ResolveRowDocids | src/main/java/io/anserini/index/generator/HnswJsonWithSafeTensorsDenseVectorDocumentGenerator.java:100-103 | element `i` of `docids` is `idxToDocid.get(docidIndices[i])` |
| Generator.NarrowContents | src/main/java/io/anserini/index/generator/HnswJsonWithSafeTensorsDenseVectorDocumentGenerator.java:117-120 | `contents` is as long as the row, and entry `i` is the narrowing of entry `i` of the row |
| Generator.ReadSideFiles | src/main/java/io/anserini/index/generator/HnswJsonWithSafeTensorsDenseVectorDocumentGenerator.java:84-91 | the three side files are read in source order, and a missing one fails |
| Generator.DecodeDocidIndices | src/main/java/io/anserini/index/generator/HnswJsonWithSafeTensorsDenseVectorDocumentGenerator.java:98-99 | `parseHeader` then `extractDocidIndices` on the docids file, any failure becoming `InvalidDocument` |
| Generator.DecodeVectors | src/main/java/io/anserini/index/generator/HnswJsonWithSafeTensorsDenseVectorDocumentGenerator.java:106-107 | `parseHeader` then `extractVectors` on the vectors file, any failure becoming `InvalidDocument` |
| Generator.DecodeSideFiles | src/main/java/io/anserini/index/generator/HnswJsonWithSafeTensorsDenseVectorDocumentGenerator.java:75-107 | the paths, reads, inversion, `docids` array and both tensors in source order equal `DecodeAll` |
| Generator.DocumentForFailed | src/main/java/io/anserini/index/generator/HnswJsonWithSafeTensorsDenseVectorDocumentGenerator.java:129-131 | any decoding failure, each an exception in the source, ends in `InvalidDocument` |
| Generator.DocumentForDecoded | src/main/java/io/anserini/index/generator/HnswJsonWithSafeTensorsDenseVectorDocumentGenerator.java:109-120 | once decoding succeeds, the document is the lookup on the decoded values |
| Generator.CreateDocument | src/main/java/io/anserini/index/generator/HnswJsonWithSafeTensorsDenseVectorDocumentGenerator.java:67-132 | `createDocument` for `args.input` and `src.id()` returns exactly `DocumentFor` of the generated paths |
| Generator.LookupRow | src/main/java/io/anserini/index/generator/HnswJsonWithSafeTensorsDenseVectorDocumentGenerator.java:110-120 | the lookup succeeds iff the id has a non-null index that is a row of the matrix; the document then has that id and that row, narrowed entry by entry |
| Generator.LookupIgnoresDocids | src/main/java/io/anserini/index/generator/HnswJsonWithSafeTensorsDenseVectorDocumentGenerator.java:100-119 | replacing the `docids` array changes nothing in the document |
| Generator.DocumentContents | src/main/java/io/anserini/index/generator/HnswJsonWithSafeTensorsDenseVectorDocumentGenerator.java:106-120 | the contents are `shape[1]` entries of row `index` of the `F64` matrix, entry `i` the narrowed word at its row-major entry offset; an index past `shape[0]` fails |
| Generator.DocumentEntry | src/main/java/io/anserini/index/generator/HnswJsonWithSafeTensorsDenseVectorDocumentGenerator.java:116-120 | for a document found at side-car index `index`, entry `i` is the narrowed word at `start + 8(index*cols + i)` |
| Generator.TwoDocidInverted | src/main/java/io/anserini/index/generator/HnswJsonWithSafeTensorsDenseVectorDocumentGenerator.java:92-95 | the side-car `{d1: 0, d2: 1}` inverts to `{0: d1, 1: d2}` |
| Generator.TwoDocidExample | src/main/java/io/anserini/index/generator/HnswJsonWithSafeTensorsDenseVectorDocumentGenerator.java:92-119 | with docid indices `[1, 0]` the `docids` array reads `[d2, d1]`, yet `d1` takes row 0, its own side-car index |
| JsonToBin.LastMember | src/main/python/safetensors/json_to_bin.py:67 | the member `json.loads` keeps for a key is the last one with that name, and none exists iff no member has it |
| JsonToBin.DictKeys | src/main/python/safetensors/json_to_bin.py:72 | iterating a parsed dict yields each member name exactly once |
| JsonToBin.OrdsOf | src/main/python/safetensors/json_to_bin.py:72 | `ord` over a list succeeds iff every element is a one-character string, and gives their codes |
| JsonToBin.Codes | src/main/python/safetensors/json_to_bin.py:72 | the codes of a string have one entry per character |
| JsonToBin.CodesInjective | src/main/python/safetensors/json_to_bin.py:72 | distinct docid strings have distinct code rows |
| JsonToBin.KeptCodes | src/main/python/safetensors/json_to_bin.py:70-73 | a kept line's docid row is the code point of each character of its `docid` string |
| JsonToBin.FloatLedFilter | src/main/python/safetensors/json_to_bin.py:68-79 | only a float-led `vector` reaches `vectors.append`; such a line is an orphan without `docid`, kept when its docid has codes, and fatal otherwise |
| JsonToBin.OrphanLineStep | src/main/python/safetensors/json_to_bin.py:68-70 | a float-led line without `docid` contributes its vector alone |
| JsonToBin.KeptLineStep | src/main/python/safetensors/json_to_bin.py:68-73 | a float-led line with docid `"b"` contributes its vector and the row `[98]` |
| JsonToBin.ScanLines | src/main/python/safetensors/json_to_bin.py:57-85 | the line loop crashes iff `Collect` does; otherwise it returns `Collect`'s two lists, and progress counts every line |
| JsonToBin.CrashPersists | src/main/python/safetensors/json_to_bin.py:65-81 | once a line raises an uncaught exception, later lines change nothing |
| JsonToBin.CollectCrashes | src/main/python/safetensors/json_to_bin.py:65-81 | the loop fails iff some line raises an exception it does not catch |
| JsonToBin.Desync | src/main/python/safetensors/json_to_bin.py:68-73 | there are exactly as many more vectors than docids as there are orphan lines |
| JsonToBin.NoOrphans | src/main/python/safetensors/json_to_bin.py:68-73 | there are no orphans iff no line is one |
| JsonToBin.AlignedRows | src/main/python/safetensors/json_to_bin.py:68-73 | without orphans there are as many vector rows as docid rows as kept lines, and row `k` of both comes from the `k`-th kept line |
| JsonToBin.KeptIndicesExact | src/main/python/safetensors/json_to_bin.py:65-73 | the kept-line positions are listed in increasing order, each once, and every kept line is among them |
| JsonToBin.CollectInOrder | src/main/python/safetensors/json_to_bin.py:65-73 | the loop appends in file order: `docids` is the codes of the kept lines and `vectors` the vectors of the orphan and kept lines, both as read front to back |
| JsonToBin.DesyncExample | src/main/python/safetensors/json_to_bin.py:68-73 | an orphan followed by a kept line pairs the only docid row with the orphan's vector |
| JsonToBin.Width | src/main/python/safetensors/json_to_bin.py:89-91 | the padded width is the length of the longest row, 0 for no rows |
| JsonToBin.Zeros | src/main/python/safetensors/json_to_bin.py:89-91 | the padding is `n` zeros |
| JsonToBin.PaddedRow | src/main/python/safetensors/json_to_bin.py:89-91 | padded row `k` is as long as the longest docid, begins with docid `k`'s codes and is zero after them |
| JsonToBin.UnpaddedZeros | src/main/python/safetensors/json_to_bin.py:89-91 | stripping trailing zeros undoes padding of a row that does not end in 0 |
| JsonToBin.UnpadPadded | src/main/python/safetensors/json_to_bin.py:89-91 | a padded row without its trailing zeros is the codes of a NUL-free docid |
| JsonToBin.Basename | src/main/python/safetensors/json_to_bin.py:22 | `os.path.basename` is a slash-free suffix of the path, preceded by `/` when shorter |
| JsonToBin.BasenameAfter | src/main/python/safetensors/json_to_bin.py:22 | the basename of a slash-free name after a directory prefix is that name |
| JsonToBin.BasenameOfJoin | src/main/python/safetensors/json_to_bin.py:28-29 | a slash-free name joined under any directory is its own basename |
| JsonToBin.BaseNameSlashFree | src/main/python/safetensors/json_to_bin.py:21-26 | the base name never contains `/` |
| JsonToBin.OutputNames | src/main/python/safetensors/json_to_bin.py:28-29 | both outputs are in the output directory, named base name + `_vectors.safetensors` and base name + `_docids.safetensors` |
| JsonToBin.StripJsonl | src/main/python/safetensors/json_to_bin.py:23-25 | removing the three suffixes from `stem + ".jsonl"` leaves an extension-free `stem` |
| JsonToBin.StripJson | src/main/python/safetensors/json_to_bin.py:23-25 | removing the three suffixes from `stem + ".json"` leaves an extension-free `stem` |
| JsonToBin.StripGz | src/main/python/safetensors/json_to_bin.py:23-25 | removing the three suffixes from `stem + ".gz"` leaves an extension-free `stem` |
| JsonToBin.BaseNameOfSuffixed | src/main/python/safetensors/json_to_bin.py:21-26 | for `dir/stem + suffix` the base name is `stem`, the same as the Java generator's |
| JsonToBin.OpenerDispatch | src/main/python/safetensors/json_to_bin.py:42-48 | the gzip opener iff `.gz`; the plain opener iff not `.gz` but `.jsonl` or `.json`; an opener at all iff the Java side would list the name |
| JsonToBin.ConvertedErrors | src/main/python/safetensors/json_to_bin.py:16-48 | a missing input, the overwrite guard and an unsupported suffix each raise their own error exactly in their circumstances, in source order |
| JsonToBin.GuardBeforeRead | src/main/python/safetensors/json_to_bin.py:31-35 | when the overwrite guard fires the input is never read, and an existing input raises `FileExistsError` |
| JsonToBin.ConvertedResult | src/main/python/safetensors/json_to_bin.py:57-91 | a successful run counted every line, saves the vectors of the orphan and kept lines in file order and the padded codes of the kept lines in file order, has at least one docid row, and is off by the orphans |
| JsonToBin.ProcessFile | src/main/python/safetensors/json_to_bin.py:14-91 | `process_file` returns exactly `Converted`: the checks in source order, the line loop, then the padding |
| CompareJsonl.Docids | src/main/python/safetensors/compare_jsonl.py:12-13 | one docid per record |
| CompareJsonl.VectorsDictFails | src/main/python/safetensors/compare_jsonl.py:12 | building the vectors dict raises `KeyError` iff a record lacks its docid or its vector |
| CompareJsonl.VectorsDictKeys | src/main/python/safetensors/compare_jsonl.py:12 | the vectors dict's keys are the file's docids, and no value is a missing vector |
| CompareJsonl.VectorsDictLastWins | src/main/python/safetensors/compare_jsonl.py:12 | a docid maps to the vector of the last record that has it |
| CompareJsonl.ContentsDictFails | src/main/python/safetensors/compare_jsonl.py:13 | building the contents dict raises `KeyError` iff a record lacks its docid |
| CompareJsonl.ContentsDictKeys | src/main/python/safetensors/compare_jsonl.py:13 | the contents dict's keys are the file's docids, each entry carrying its own key as `docid` |
| CompareJsonl.ContentsDictLastWins | src/main/python/safetensors/compare_jsonl.py:13 | a docid maps to the last record that has it |
| CompareJsonl.InsertAscending | src/main/python/safetensors/compare_jsonl.py:19 | inserting into an ascending sequence keeps it ascending and adds exactly the element |
| CompareJsonl.SortedSetAscending | src/main/python/safetensors/compare_jsonl.py:15-19 | `sorted(set(xs))` is strictly ascending and holds exactly the elements of `xs` |
| CompareJsonl.UnionOfKeys | src/main/python/safetensors/compare_jsonl.py:15-19 | the walked docids are ascending and are the union of both dicts' keys |
| CompareJsonl.DifferenceFor | src/main/python/safetensors/compare_jsonl.py:20-33 | a message produced for a docid names that docid |
| CompareJsonl.DifferenceCases | src/main/python/safetensors/compare_jsonl.py:20-33 | `Missing` iff the docid is absent from a dict or its vector is `None` or empty; `Vector mismatch` iff the vector is non-empty and differs; `Docid mismatch` never |
| CompareJsonl.CollectDifferences | src/main/python/safetensors/compare_jsonl.py:17-33 | the loop over the sorted docids builds exactly `Differences` |
| CompareJsonl.DifferencesSound | src/main/python/safetensors/compare_jsonl.py:19-33 | every message belongs to a walked docid and is the one that docid's turn produced |
| CompareJsonl.DifferencesComplete | src/main/python/safetensors/compare_jsonl.py:19-33 | every walked docid whose turn produces a message has it in the list |
| CompareJsonl.DifferencesAscending | src/main/python/safetensors/compare_jsonl.py:19 | along an ascending walk the messages name strictly ascending docids, so no docid has two |
| CompareJsonl.NoDocidMismatch | src/main/python/safetensors/compare_jsonl.py:27-30 | when every content entry carries its own key, no `Docid mismatch` message is produced |
| CompareJsonl.ReportIdentical | src/main/python/safetensors/compare_jsonl.py:35-40 | the report is the single "No differences" line iff there are no differences, and otherwise has one line more than there are differences |
| CompareJsonl.CompareFiles | src/main/python/safetensors/compare_jsonl.py:8-40 | `compare_jsonl` on the parsed lines returns exactly `Compared` |
| CompareJsonl.ComparedFails | src/main/python/safetensors/compare_jsonl.py:12-13 | the comparison raises `KeyError` iff a vectors line lacks its docid or vector, or a contents line lacks its docid |
| CompareJsonl.IdenticalIff | src/main/python/safetensors/compare_jsonl.py:15-40 | "No differences found" is printed iff every docid of either file is in both files, with a non-empty vector equal to the content entry's |

## Definitions

The functions below model the source's code directly. Most carry no contract of their own; the members above state what they compute.

| definition | source | computes |
|---|---|---|
| SafeTensors.HeaderSize | src/main/java/io/anserini/index/generator/HnswJsonWithSafeTensorsDenseVectorDocumentGenerator.java:170-171 | the first 8 bytes as a signed little-endian `long` |
| SafeTensors.HeaderText | src/main/java/io/anserini/index/generator/HnswJsonWithSafeTensorsDenseVectorDocumentGenerator.java:170-173 | `(int) headerSize` bytes from offset 8; a negative size or a short buffer fails |
| SafeTensors.Trim | src/main/java/io/anserini/index/generator/HnswJsonWithSafeTensorsDenseVectorDocumentGenerator.java:174 | `String.trim()`: bytes at or below U+0020 cut from both ends |
| SafeTensors.ParseHeader | src/main/java/io/anserini/index/generator/HnswJsonWithSafeTensorsDenseVectorDocumentGenerator.java:169-177 | `parseHeader`: the trimmed header text given to the JSON decoder |
| SafeTensors.PayloadStart | src/main/java/io/anserini/index/generator/HnswJsonWithSafeTensorsDenseVectorDocumentGenerator.java:189-193 | `(int) (begin + getLong(0) + 8)` in `long` arithmetic, checked against the buffer limit |
| SafeTensors.VectorsLayout | src/main/java/io/anserini/index/generator/HnswJsonWithSafeTensorsDenseVectorDocumentGenerator.java:180-196 | the lookups and checks of `extractVectors` before its reads, in source order |
| SafeTensors.DocidsLayout | src/main/java/io/anserini/index/generator/HnswJsonWithSafeTensorsDenseVectorDocumentGenerator.java:210-226 | the lookups and checks of `extractDocidIndices` before its reads, in source order |
| SafeTensors.ReadWords | src/main/java/io/anserini/index/generator/HnswJsonWithSafeTensorsDenseVectorDocumentGenerator.java:227-229 | successive `getLong`/`getDouble` reads of 8-byte words, failing at the first read past the end |
| SafeTensors.ReadMatrix | src/main/java/io/anserini/index/generator/HnswJsonWithSafeTensorsDenseVectorDocumentGenerator.java:197-201 | the nested read loop of `extractVectors`, row by row |
| SafeTensors.VectorsOf | src/main/java/io/anserini/index/generator/HnswJsonWithSafeTensorsDenseVectorDocumentGenerator.java:179-207 | `extractVectors` |
| SafeTensors.DocidIndicesOf | src/main/java/io/anserini/index/generator/HnswJsonWithSafeTensorsDenseVectorDocumentGenerator.java:209-235 | `extractDocidIndices`, each word narrowed by `(int)` |
| FilePaths.Parse | src/main/java/io/anserini/index/generator/HnswJsonWithSafeTensorsDenseVectorDocumentGenerator.java:75 | `Paths.get(s)` on a Unix file system: the slash-separated names, absolute when `s` starts with `/` |
| FilePaths.Show | src/main/java/io/anserini/index/generator/HnswJsonWithSafeTensorsDenseVectorDocumentGenerator.java:146-152 | `Path.toString()` |
| FilePaths.Get | src/main/java/io/anserini/index/generator/HnswJsonWithSafeTensorsDenseVectorDocumentGenerator.java:146-152 | `Paths.get(first, more)` |
| FilePaths.Parent | src/main/java/io/anserini/index/generator/HnswJsonWithSafeTensorsDenseVectorDocumentGenerator.java:144-145 | `getParent()`, `None` for `null` |
| FilePaths.FileName | src/main/java/io/anserini/index/generator/HnswJsonWithSafeTensorsDenseVectorDocumentGenerator.java:138-139 | `getFileName().toString()`, `None` when `getFileName()` is `null` |
| FilePaths.Allowed | src/main/java/io/anserini/index/generator/HnswJsonWithSafeTensorsDenseVectorDocumentGenerator.java:138 | the `allowedFileSuffix` filter |
| FilePaths.JavaBaseName | src/main/java/io/anserini/index/generator/HnswJsonWithSafeTensorsDenseVectorDocumentGenerator.java:149 | the three `String.replace` calls that give `baseName` |
| FilePaths.SafetensorsFolderOf | src/main/java/io/anserini/index/generator/HnswJsonWithSafeTensorsDenseVectorDocumentGenerator.java:144-147 | the folder `<grandparent>/<parent>.safetensors/<shard>` |
| FilePaths.SideFilesIn | src/main/java/io/anserini/index/generator/HnswJsonWithSafeTensorsDenseVectorDocumentGenerator.java:150-154 | the three side-file paths in a folder |
| FilePaths.GenerateFilePaths | src/main/java/io/anserini/index/generator/HnswJsonWithSafeTensorsDenseVectorDocumentGenerator.java:134-155 | `generateFilePaths` over a folder listing |
| Strings.RemoveAll | src/main/java/io/anserini/index/generator/HnswJsonWithSafeTensorsDenseVectorDocumentGenerator.java:149 | `s.replace(pat, "")`, which is also Python's `str.replace` at json_to_bin.py lines 23-25 |
| Generator.Inverted | src/main/java/io/anserini/index/generator/HnswJsonWithSafeTensorsDenseVectorDocumentGenerator.java:92-95 | `idxToDocid`, the side-car inverted entry by entry |
| Generator.FindKeyOf | src/main/java/io/anserini/index/generator/HnswJsonWithSafeTensorsDenseVectorDocumentGenerator.java:111-112 | `filter(..).findFirst().orElse(null).getKey()`, `None` for the `null` dereference |
| Generator.RowDocids | src/main/java/io/anserini/index/generator/HnswJsonWithSafeTensorsDenseVectorDocumentGenerator.java:100-103 | the `docids` array |
| Generator.ReadInputs | src/main/java/io/anserini/index/generator/HnswJsonWithSafeTensorsDenseVectorDocumentGenerator.java:75-91 | the paths, then the three `readAllBytes` calls in source order |
| Generator.SidecarOf | src/main/java/io/anserini/index/generator/HnswJsonWithSafeTensorsDenseVectorDocumentGenerator.java:88-91 | Jackson's `readValue` of the side-car |
| Generator.DecodeAll | src/main/java/io/anserini/index/generator/HnswJsonWithSafeTensorsDenseVectorDocumentGenerator.java:75-107 | the decoding half of `createDocument` |
| Generator.Lookup | src/main/java/io/anserini/index/generator/HnswJsonWithSafeTensorsDenseVectorDocumentGenerator.java:110-120 | the lookup half of `createDocument`: the row of the first index mapped to `id`, narrowed |
| Generator.DocumentFor | src/main/java/io/anserini/index/generator/HnswJsonWithSafeTensorsDenseVectorDocumentGenerator.java:67-132 | `createDocument`, every failure an `InvalidDocument` |
| JsonToBin.Member | src/main/python/safetensors/json_to_bin.py:68-70 | `entry.get(key)` / `entry[key]` on the dict `json.loads` builds |
| JsonToBin.DocidCodes | src/main/python/safetensors/json_to_bin.py:72 | `[ord(char) for char in docid]` for every kind of JSON value |
| JsonToBin.First | src/main/python/safetensors/json_to_bin.py:68 | `entry.get("vector", [None])[0]` |
| JsonToBin.Classify | src/main/python/safetensors/json_to_bin.py:66-79 | one turn of the line loop: skipped, vector only, kept with its codes, or an uncaught exception |
| JsonToBin.Collect | src/main/python/safetensors/json_to_bin.py:65-81 | the `vectors` and `docids` lists after the line loop |
| JsonToBin.Orphans | src/main/python/safetensors/json_to_bin.py:68-73 | the number of lines that add a vector and no docid |
| JsonToBin.Padded | src/main/python/safetensors/json_to_bin.py:89-91 | `pad_sequence(.., batch_first=True)` |
| JsonToBin.Basename | src/main/python/safetensors/json_to_bin.py:22 | `os.path.basename` |
| JsonToBin.BaseName | src/main/python/safetensors/json_to_bin.py:21-26 | `base_name` |
| JsonToBin.PathJoin | src/main/python/safetensors/json_to_bin.py:28-29 | `os.path.join` |
| JsonToBin.OpenerFor | src/main/python/safetensors/json_to_bin.py:42-48 | the choice of opener, a `ValueError` for other suffixes |
| JsonToBin.Converted | src/main/python/safetensors/json_to_bin.py:14-91 | `process_file` up to the tensors it saves |
| JsonToBin.KeptRows | src/main/python/safetensors/json_to_bin.py:68-73 | a front-to-back reference for `docids`: the codes of the kept lines |
| JsonToBin.AppendedVectors | src/main/python/safetensors/json_to_bin.py:68-73 | a front-to-back reference for `vectors`: the vectors of the orphan and kept lines |
| JsonToBin.KeptIndices | src/main/python/safetensors/json_to_bin.py:68-73 | the positions of the kept lines |
| CompareJsonl.VectorsDict | src/main/python/safetensors/compare_jsonl.py:12 | `vectors_dict`, `KeyError` for a record without `docid` or `vector` |
| CompareJsonl.ContentsDict | src/main/python/safetensors/compare_jsonl.py:13 | `contents_dict`, `KeyError` for a record without `docid` |
| CompareJsonl.SortedSet | src/main/python/safetensors/compare_jsonl.py:15-19 | `sorted(all_docids)` over the docids of both files |
| CompareJsonl.Differences | src/main/python/safetensors/compare_jsonl.py:17-33 | the `differences` list |
| CompareJsonl.Report | src/main/python/safetensors/compare_jsonl.py:35-40 | the printed lines |
| CompareJsonl.Compared | src/main/python/safetensors/compare_jsonl.py:8-40 | `compare_jsonl` on parsed records |

## Left out

- Reading files, listing folders, `os.path.exists`, Jackson and `json.loads` are parameters. The model takes a listing, a map or predicate for the file system, and already-parsed headers, side-cars and lines.
- Floating point is not modelled. A vector entry is its raw 64-bit word, and `(float)` is the parameter `toFloat`. In `compare_jsonl` vector elements have an abstract type compared with `==`, so Python's `1 == 1.0` and NaN inequality are not modelled. In `json_to_bin.py` a float is kept as its bits.
- Lucene `Document` and field construction, all logging, the constructors and `setArgs` are not modelled. `setArgs` only stores the arguments; `args.input` is the `input` parameter of `CreateDocument`.
- Side-car values that are not JSON integers (or `null`) are not modelled. Java's boxed `Integer` compared with a non-integer value is left out.
- `Paths.get`'s rejection of NUL characters is not modelled.
- Generator.DocumentForFailed: allocation failure is not modelled. `new byte[(int) headerSize]` (line 172), `new double[rows][cols]` (line 195) and `new int[length]` (line 225) of `HnswJsonWithSafeTensorsDenseVectorDocumentGenerator.java` run before any payload is read. With a huge declared size they throw `OutOfMemoryError`, an `Error` that the `catch (Exception e)` at line 129 does not catch, so it escapes `createDocument`. For such inputs the model reports a buffer underflow and so `InvalidDocument`.
- `tqdm` and the first pass that counts `total_lines` are not modelled; only the progress count is. Torch tensor construction is not modelled beyond the padding. This includes a ragged vector list making `torch.tensor` raise. `save_file`, `load_file` and the reload check are left out too, as are the `__main__` block, its `Pool` and the command line.
- `read_jsonl`, the `__main__` block and printing in `compare_jsonl.py` are not modelled; the report is returned as its lines. A `vector` that is neither a list nor `null`, or a docid that is not a string, is not modelled, and neither is the `TypeError` of sorting mixed docid types.
- There is no round trip between the Python writer and the Java reader. The writer emits a 2-D character-code docids tensor and no `_docid_to_idx.json`, while the reader expects a 1-D index tensor. Round trips are proved for the reader alone (`VectorsOfContainer`, `DocidIndicesOfContainer`).
- FilePaths.NfcorpusPaths: states the three expected paths as `Path` values written via `Show`, not as the test's literal strings.
- JsonToBin.BaseNameOfSuffixed: shows the Python and Java base names agree only for an extension-free stem. Python removes `.gz` before `.json` and Java after, so a name such as `a..gzjson.gz` gives `a` in Python and `a.json` in Java. That divergence is not proved.
- `SafetensorsDenseVectorCollection.java` (an embedded interpreter with a placeholder script), `HnswSafetensorsDenseVectorDocumentGenerator.java` (a whole-file big-endian float reinterpretation) and `test.py` are not part of this model.
