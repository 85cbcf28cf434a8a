/**
 * The SafeTensors read path of the Java document generator: the 8-byte
 * little-endian header length, the header text, and the two payload decoders
 * (an `F64` row-major matrix of vectors and an `I64` vector of docid indices).
 *
 * A payload word is kept as its unsigned 64-bit value; what `getDouble` makes of
 * those bits is left to the caller. JSON parsing of the header text is a parameter
 * of `ParseHeader`: the decoders receive the header as the parser's result.
 */
module SafeTensors {
  import opened Outcomes
  import opened Bytes

  /** One tensor entry of a header: `dtype`, `shape` and `data_offsets` as parsed. */
  datatype Descriptor = Descriptor(dtype: string, shape: seq<int>, dataOffsets: seq<int>)

  /** The parsed header object: tensor name to descriptor. */
  type Header = map<string, Descriptor>

  /** The Java exceptions the read path can raise, by kind. */
  datatype Error =
    | BufferUnderflow                 // a read past the end of the byte array
    | NegativeSize                    // NegativeArraySizeException
    | MalformedHeader                 // the header text is not a JSON object of descriptors
    | MissingTensor(name: string)     // header.get(name) is null
    | MalformedDescriptor             // a short shape or offset list, or a dimension that is not an int
    | BadPosition                     // ByteBuffer.position outside [0, limit]
    | UnsupportedDType(dtype: string) // UnsupportedOperationException

  /** `buffer.getLong()` at offset 0: the header length as a signed `long`. */
  function HeaderSize(data: seq<byte>): int
    requires |data| >= 8
  {
    ToLong(Word(data, 0))
  }

  /** The header bytes `parseHeader` copies out: `(int) headerSize` bytes from offset 8. */
  function HeaderText(data: seq<byte>): Result<seq<byte>, Error>
  {
    if |data| < 8 then Err(BufferUnderflow)
    else
      var n := ToInt(HeaderSize(data));
      if n < 0 then Err(NegativeSize)
      else if 8 + n > |data| then Err(BufferUnderflow)
      else Ok(data[8..8 + n])
  }

  /** The first index at or after `from` holding a byte above U+0020, or `|bs|`. */
  function FirstNonBlank(bs: seq<byte>, from: nat): (i: nat)
    requires from <= |bs|
    ensures from <= i <= |bs|
    ensures forall k :: from <= k < i ==> bs[k] <= 32
    ensures i < |bs| ==> bs[i] > 32
    decreases |bs| - from
  {
    if from == |bs| || bs[from] > 32 then from else FirstNonBlank(bs, from + 1)
  }

  /** The end of the last byte above U+0020 before `to`, or 0. */
  function LastNonBlankEnd(bs: seq<byte>, to: nat): (j: nat)
    requires to <= |bs|
    ensures j <= to
    ensures forall k :: j <= k < to ==> bs[k] <= 32
    ensures j > 0 ==> bs[j - 1] > 32
  {
    if to == 0 || bs[to - 1] > 32 then to else LastNonBlankEnd(bs, to - 1)
  }

  /**
   * Where `String.trim()` cuts: every byte before `lo` and from `hi` on is at or below
   * U+0020, and the kept part, when there is one, starts and ends above it.
   */
  function TrimBounds(bs: seq<byte>): (b: (nat, nat))
    ensures b.0 <= b.1 <= |bs|
    ensures forall k :: 0 <= k < b.0 ==> bs[k] <= 32
    ensures forall k :: b.1 <= k < |bs| ==> bs[k] <= 32
    ensures b.0 < b.1 ==> bs[b.0] > 32 && bs[b.1 - 1] > 32
  {
    var i := FirstNonBlank(bs, 0);
    var j := LastNonBlankEnd(bs, |bs|);
    if i < j then (i, j) else (0, 0)
  }

  /** `String.trim()` on the header text. */
  function Trim(bs: seq<byte>): seq<byte>
  {
    var b := TrimBounds(bs);
    bs[b.0..b.1]
  }

  /** `parseHeader`: the header text, trimmed and handed to the JSON parser `decode`. */
  function ParseHeader(data: seq<byte>, decode: seq<byte> -> Option<Header>): Result<Header, Error>
  {
    var text :- HeaderText(data);
    match decode(Trim(text))
    case None => Err(MalformedHeader)
    case Some(header) => Ok(header)
  }

  /**
   * `buffer.position((int) (begin + buffer.getLong(0) + 8))` with `begin` the
   * `longValue()` of `data_offsets[0]`, all in `long` arithmetic; `data_offsets[1]`
   * is never read.
   */
  function PayloadStart(data: seq<byte>, d: Descriptor): (r: Result<nat, Error>)
    ensures r.Ok? ==> r.value <= |data|
  {
    if |d.dataOffsets| == 0 then Err(MalformedDescriptor)
    else if |data| < 8 then Err(BufferUnderflow)
    else
      var begin := ToLong(d.dataOffsets[0]);
      var p := ToInt(ToLong(ToLong(begin + HeaderSize(data)) + 8));
      if p < 0 || p > |data| then Err(BadPosition) else Ok(p)
  }

  /** Where a payload starts and how many rows and columns of 8-byte words it holds. */
  datatype Layout = Layout(start: nat, rows: nat, cols: nat)

  /** The checks `extractVectors` makes, in its order, before it reads the payload. */
  function VectorsLayout(data: seq<byte>, header: Header): Result<Layout, Error>
  {
    if "vectors" !in header then Err(MissingTensor("vectors"))
    else
      var d := header["vectors"];
      if |d.shape| < 2 || !IsInt(d.shape[0]) || !IsInt(d.shape[1]) then Err(MalformedDescriptor)
      else
        var start :- PayloadStart(data, d);
        if d.shape[0] < 0 || d.shape[1] < 0 then Err(NegativeSize)
        else if d.dtype != "F64" then Err(UnsupportedDType(d.dtype))
        else Ok(Layout(start, d.shape[0], d.shape[1]))
  }

  /** The checks `extractDocidIndices` makes, in its order; the layout has one column. */
  function DocidsLayout(data: seq<byte>, header: Header): Result<Layout, Error>
  {
    if "docids" !in header then Err(MissingTensor("docids"))
    else
      var d := header["docids"];
      if |d.shape| < 1 || !IsInt(d.shape[0]) then Err(MalformedDescriptor)
      else
        var start :- PayloadStart(data, d);
        if d.shape[0] < 0 then Err(NegativeSize)
        else if d.dtype != "I64" then Err(UnsupportedDType(d.dtype))
        else Ok(Layout(start, d.shape[0], 1))
  }

  /** `n` successive reads of an 8-byte word from `pos`, failing at the first read past the end. */
  function ReadWords(data: seq<byte>, pos: nat, n: nat): Result<seq<nat>, Error>
    decreases n
  {
    if n == 0 then Ok([])
    else if pos + 8 > |data| then Err(BufferUnderflow)
    else
      var rest :- ReadWords(data, pos + 8, n - 1);
      Ok([Word(data, pos)] + rest)
  }

  /** `rows` successive rows of `cols` words each, read from `pos` on. */
  function ReadMatrix(data: seq<byte>, pos: nat, rows: nat, cols: nat): Result<seq<seq<nat>>, Error>
    decreases rows
  {
    if rows == 0 then Ok([])
    else
      var row :- ReadWords(data, pos, cols);
      var rest :- ReadMatrix(data, pos + 8 * cols, rows - 1, cols);
      Ok([row] + rest)
  }

  /** What `extractVectors` returns: the layout checks, then `rows * cols` reads of 8 bytes. */
  function VectorsOf(data: seq<byte>, header: Header): Result<seq<seq<nat>>, Error>
  {
    var l :- VectorsLayout(data, header);
    ReadMatrix(data, l.start, l.rows, l.cols)
  }

  /** Java's `(int)` of a word read by `getLong`: its low 32 bits as an `int`. */
  function Narrowed(ws: seq<nat>): seq<int>
  {
    seq(|ws|, i requires 0 <= i < |ws| => ToInt(ToLong(ws[i])))
  }

  /** What `extractDocidIndices` returns. */
  function DocidIndicesOf(data: seq<byte>, header: Header): Result<seq<int>, Error>
  {
    var l :- DocidsLayout(data, header);
    var ws :- ReadWords(data, l.start, l.rows);
    Ok(Narrowed(ws))
  }

  /** The values read so far, put in front of the outcome of the reads still to come. */
  function Prefixed<T>(done: seq<T>, rest: Result<seq<T>, Error>): Result<seq<T>, Error>
  {
    if rest.Ok? then Ok(done + rest.value) else rest
  }

  lemma PrefixedNothing<T>(r: Result<seq<T>, Error>)
    ensures Prefixed([], r) == r
  {
    if r.Ok? {
      assert [] + r.value == r.value;
    }
  }

  /** One more word read moves from the outcome still to come into the values read. */
  lemma PrefixedWord(data: seq<byte>, done: seq<nat>, pos: nat, n: nat)
    requires n > 0 && pos + 8 <= |data|
    ensures Prefixed(done, ReadWords(data, pos, n)) == Prefixed(done + [Word(data, pos)], ReadWords(data, pos + 8, n - 1))
  {
    var rest := ReadWords(data, pos + 8, n - 1);
    if rest.Ok? {
      assert done + ([Word(data, pos)] + rest.value) == done + [Word(data, pos)] + rest.value;
    }
  }

  /** One more row read moves from the outcome still to come into the rows read. */
  lemma PrefixedRow(data: seq<byte>, done: seq<seq<nat>>, row: seq<nat>, pos: nat, rows: nat, cols: nat)
    requires rows > 0 && ReadWords(data, pos, cols) == Ok(row)
    ensures Prefixed(done, ReadMatrix(data, pos, rows, cols)) == Prefixed(done + [row], ReadMatrix(data, pos + 8 * cols, rows - 1, cols))
  {
    var rest := ReadMatrix(data, pos + 8 * cols, rows - 1, cols);
    if rest.Ok? {
      assert done + ([row] + rest.value) == done + [row] + rest.value;
    }
  }

  /** The inner loop of `extractVectors`: `cols` reads of `getDouble()` from `pos`. */
  method ReadRow(data: seq<byte>, pos: nat, cols: nat) returns (r: Result<seq<nat>, Error>)
    ensures r == ReadWords(data, pos, cols)
  {
    var at: nat := pos;
    var row: seq<nat> := [];
    PrefixedNothing(ReadWords(data, pos, cols));
    for j := 0 to cols
      invariant at == pos + 8 * j
      invariant ReadWords(data, pos, cols) == Prefixed(row, ReadWords(data, at, cols - j))
    {
      if at + 8 > |data| {
        return Err(BufferUnderflow);
      }
      PrefixedWord(data, row, at, cols - j);
      row := row + [Word(data, at)];
      at := at + 8;
    }
    assert row + [] == row;
    return Ok(row);
  }

  /** The outer loop of `extractVectors`: `rows` rows of `cols` words from `start`, row by row. */
  method ReadRows(data: seq<byte>, start: nat, rows: nat, cols: nat) returns (r: Result<seq<seq<nat>>, Error>)
    ensures r == ReadMatrix(data, start, rows, cols)
  {
    var pos: nat := start;
    var vectors: seq<seq<nat>> := [];
    PrefixedNothing(ReadMatrix(data, start, rows, cols));
    for i := 0 to rows
      invariant ReadMatrix(data, start, rows, cols) == Prefixed(vectors, ReadMatrix(data, pos, rows - i, cols))
    {
      var row := ReadRow(data, pos, cols);
      if row.Err? {
        return Err(row.error);
      }
      PrefixedRow(data, vectors, row.value, pos, rows - i, cols);
      vectors := vectors + [row.value];
      pos := pos + 8 * cols;
    }
    assert vectors + [] == vectors;
    return Ok(vectors);
  }

  /** `extractVectors`: the layout checks, then the matrix filled row by row. */
  method ExtractVectors(data: seq<byte>, header: Header) returns (r: Result<seq<seq<nat>>, Error>)
    ensures r == VectorsOf(data, header)
  {
    var layout := VectorsLayout(data, header);
    if layout.Err? {
      return Err(layout.error);
    }
    r := ReadRows(data, layout.value.start, layout.value.rows, layout.value.cols);
  }

  /** `extractDocidIndices`: one `(int) getLong()` per element, advancing 8 bytes each. */
  method ExtractDocidIndices(data: seq<byte>, header: Header) returns (r: Result<seq<int>, Error>)
    ensures r == DocidIndicesOf(data, header)
  {
    var layout := DocidsLayout(data, header);
    if layout.Err? {
      return Err(layout.error);
    }
    var start, length := layout.value.start, layout.value.rows;
    var pos: nat := start;
    var indices: seq<int> := [];
    ghost var words: seq<nat> := [];
    PrefixedNothing(ReadWords(data, start, length));
    for i := 0 to length
      invariant ReadWords(data, start, length) == Prefixed(words, ReadWords(data, pos, length - i))
      invariant indices == Narrowed(words)
    {
      if pos + 8 > |data| {
        return Err(BufferUnderflow);
      }
      PrefixedWord(data, words, pos, length - i);
      indices := indices + [ToInt(ToLong(Word(data, pos)))];
      words := words + [Word(data, pos)];
      pos := pos + 8;
    }
    assert words + [] == words;
    return Ok(indices);
  }

  // ---------------------------------------------------------------------
  // What the decoders compute, in closed form
  // ---------------------------------------------------------------------

  /** For a header length that fits an `int`, the header text is exactly bytes [8, 8 + headerSize). */
  lemma HeaderTextSlice(data: seq<byte>)
    requires |data| >= 8 && Word(data, 0) < TWO_31
    ensures HeaderText(data).Ok? <==> 8 + Word(data, 0) <= |data|
    ensures HeaderText(data).Err? ==> HeaderText(data) == Err(BufferUnderflow)
    ensures HeaderText(data).Ok? ==> HeaderText(data).value == data[8..8 + Word(data, 0)]
  {
    IntUnchanged(Word(data, 0));
  }

  /** `n` reads succeed exactly when they stay inside the buffer; read `k` is the word at `pos + 8 * k`. */
  lemma {:induction false} ReadWordsClosedForm(data: seq<byte>, pos: nat, n: nat)
    ensures ReadWords(data, pos, n).Ok? <==> n == 0 || pos + 8 * n <= |data|
    ensures ReadWords(data, pos, n).Err? ==> ReadWords(data, pos, n) == Err(BufferUnderflow)
    ensures ReadWords(data, pos, n).Ok? ==>
              |ReadWords(data, pos, n).value| == n
              && forall k :: 0 <= k < n ==>
                   pos + 8 * k + 8 <= |data| && ReadWords(data, pos, n).value[k] == Word(data, pos + 8 * k)
    decreases n
  {
    if n > 0 && pos + 8 <= |data| {
      ReadWordsClosedForm(data, pos + 8, n - 1);
      var r := ReadWords(data, pos, n);
      if r.Ok? {
        var rest := ReadWords(data, pos + 8, n - 1).value;
        forall k | 0 <= k < n
          ensures pos + 8 * k + 8 <= |data| && r.value[k] == Word(data, pos + 8 * k)
        {
          if k > 0 {
            assert r.value[k] == rest[k - 1];
          }
        }
      }
    }
  }

  lemma RowsStep(rows: nat, cols: nat)
    requires rows > 0
    ensures (rows - 1) * cols + cols == rows * cols
  {
  }

  lemma OffsetStep(pos: nat, cols: nat, i: nat, j: nat)
    requires i > 0
    ensures pos + 8 * cols + 8 * ((i - 1) * cols + j) == pos + 8 * (i * cols + j)
  {
    RowsStep(i, cols);
  }

  /** `rows` rows of `cols` words succeed exactly when the `rows * cols` words fit the buffer. */
  lemma {:induction false} ReadMatrixSucceeds(data: seq<byte>, pos: nat, rows: nat, cols: nat)
    ensures ReadMatrix(data, pos, rows, cols).Ok? <==> rows * cols == 0 || pos + 8 * (rows * cols) <= |data|
    ensures ReadMatrix(data, pos, rows, cols).Err? ==> ReadMatrix(data, pos, rows, cols) == Err(BufferUnderflow)
    decreases rows
  {
    if rows > 0 {
      ReadWordsClosedForm(data, pos, cols);
      ReadMatrixSucceeds(data, pos + 8 * cols, rows - 1, cols);
      RowsStep(rows, cols);
      ProductZero(rows, cols);
      ProductZero(rows - 1, cols);
    }
  }

  lemma ProductZero(a: nat, b: nat)
    ensures a * b >= 0
    ensures a * b == 0 <==> a == 0 || b == 0
  {
    if a > 0 && b > 0 {
      assert a * b >= b by { assert a * b == (a - 1) * b + b; assert (a - 1) * b >= 0; }
    }
  }

  /**
   * The byte offset of entry `[i][j]` of a row-major matrix of 8-byte words with `cols`
   * columns that starts at `pos`: `i` rows of `8 * cols` bytes, then `j` words.
   */
  function EntryOffset(pos: nat, cols: nat, i: nat, j: nat): nat
    decreases i
  {
    if i == 0 then pos + 8 * j else EntryOffset(pos + 8 * cols, cols, i - 1, j)
  }

  /** In closed form, entry `[i][j]` sits at `pos + 8 * (i * cols + j)`. */
  lemma {:induction false} EntryOffsetValue(pos: nat, cols: nat, i: nat, j: nat)
    ensures EntryOffset(pos, cols, i, j) == pos + 8 * (i * cols + j)
    decreases i
  {
    if i > 0 {
      EntryOffsetValue(pos + 8 * cols, cols, i - 1, j);
      RowsStep(i, cols);
    }
  }

  lemma {:induction false} EntryOffsetInRow(pos: nat, cols: nat, i: nat, j: nat)
    ensures EntryOffset(pos, cols, i, j) == EntryOffset(pos, cols, i, 0) + 8 * j
    decreases i
  {
    if i > 0 {
      EntryOffsetInRow(pos + 8 * cols, cols, i - 1, j);
    }
  }

  /** Row `i` of a successful read is the `cols` words read from the offset of its entry `[i][0]`. */
  lemma {:induction false} ReadMatrixRow(data: seq<byte>, pos: nat, rows: nat, cols: nat, m: seq<seq<nat>>, i: nat)
    requires ReadMatrix(data, pos, rows, cols) == Ok(m) && i < rows
    ensures i < |m| && ReadWords(data, EntryOffset(pos, cols, i, 0), cols) == Ok(m[i])
    decreases rows
  {
    var row := ReadWords(data, pos, cols).value;
    var rest := ReadMatrix(data, pos + 8 * cols, rows - 1, cols).value;
    assert m == [row] + rest;
    if i > 0 {
      ReadMatrixRow(data, pos + 8 * cols, rows - 1, cols, rest, i - 1);
    }
  }

  /** Entry `[i][j]` of a successful read is the word at its entry offset. */
  lemma ReadMatrixEntry(data: seq<byte>, pos: nat, rows: nat, cols: nat, m: seq<seq<nat>>, i: nat, j: nat)
    requires ReadMatrix(data, pos, rows, cols) == Ok(m) && i < rows && j < cols
    ensures i < |m| && |m[i]| == cols && EntryOffset(pos, cols, i, j) + 8 <= |data|
    ensures m[i][j] == Word(data, EntryOffset(pos, cols, i, j))
  {
    ReadMatrixRow(data, pos, rows, cols, m, i);
    ReadWordsClosedForm(data, EntryOffset(pos, cols, i, 0), cols);
    EntryOffsetInRow(pos, cols, i, j);
  }

  /** A successful read has `rows` rows of `cols` entries, entry `[i][j]` the word at its offset. */
  lemma ReadMatrixEntries(data: seq<byte>, pos: nat, rows: nat, cols: nat, m: seq<seq<nat>>)
    requires ReadMatrix(data, pos, rows, cols) == Ok(m)
    ensures |m| == rows
    ensures forall i :: 0 <= i < rows ==> |m[i]| == cols
    ensures forall i, j :: 0 <= i < rows && 0 <= j < cols ==>
              EntryOffset(pos, cols, i, j) + 8 <= |data| && m[i][j] == Word(data, EntryOffset(pos, cols, i, j))
  {
    ReadMatrixLength(data, pos, rows, cols);
    forall i | 0 <= i < rows
      ensures |m[i]| == cols
    {
      ReadMatrixRow(data, pos, rows, cols, m, i);
      ReadWordsClosedForm(data, EntryOffset(pos, cols, i, 0), cols);
    }
    forall i, j | 0 <= i < rows && 0 <= j < cols
      ensures EntryOffset(pos, cols, i, j) + 8 <= |data| && m[i][j] == Word(data, EntryOffset(pos, cols, i, j))
    {
      ReadMatrixEntry(data, pos, rows, cols, m, i, j);
    }
  }

  lemma {:induction false} ReadMatrixLength(data: seq<byte>, pos: nat, rows: nat, cols: nat)
    requires ReadMatrix(data, pos, rows, cols).Ok?
    ensures |ReadMatrix(data, pos, rows, cols).value| == rows
    decreases rows
  {
    if rows > 0 {
      ReadMatrixLength(data, pos + 8 * cols, rows - 1, cols);
    }
  }

  /**
   * Once its layout checks pass, `extractVectors` yields `shape[0]` rows of `shape[1]`
   * entries, entry `[i][j]` the word at `start + 8 * (i * cols + j)`; it fails, with a
   * buffer underflow, only when those words run past the end (so zero rows or zero
   * columns never fail).
   */
  lemma VectorsRowMajor(data: seq<byte>, header: Header, l: Layout)
    requires VectorsLayout(data, header) == Ok(l)
    ensures l.rows == header["vectors"].shape[0] && l.cols == header["vectors"].shape[1]
    ensures VectorsOf(data, header).Ok? <==> l.rows * l.cols == 0 || l.start + 8 * (l.rows * l.cols) <= |data|
    ensures VectorsOf(data, header).Err? ==> VectorsOf(data, header) == Err(BufferUnderflow)
    ensures VectorsOf(data, header).Ok? ==>
              var m := VectorsOf(data, header).value;
              && |m| == l.rows
              && (forall i :: 0 <= i < l.rows ==> |m[i]| == l.cols)
              && forall i, j :: 0 <= i < l.rows && 0 <= j < l.cols ==>
                   EntryOffset(l.start, l.cols, i, j) + 8 <= |data|
                   && m[i][j] == Word(data, EntryOffset(l.start, l.cols, i, j))
  {
    assert VectorsOf(data, header) == ReadMatrix(data, l.start, l.rows, l.cols);
    ReadMatrixSucceeds(data, l.start, l.rows, l.cols);
    if VectorsOf(data, header).Ok? {
      ReadMatrixEntries(data, l.start, l.rows, l.cols, VectorsOf(data, header).value);
    }
  }

  /**
   * Entry `[i][j]` of the extracted vectors: the word at `start + 8 * (i * cols + j)` (the
   * entry offset, stated in closed form beside it).
   */
  lemma VectorsEntry(data: seq<byte>, header: Header, l: Layout, i: nat, j: nat)
    requires VectorsLayout(data, header) == Ok(l) && VectorsOf(data, header).Ok?
    requires i < l.rows && j < l.cols
    ensures |VectorsOf(data, header).value| == l.rows && |VectorsOf(data, header).value[i]| == l.cols
    ensures EntryOffset(l.start, l.cols, i, j) == l.start + 8 * (i * l.cols + j)
    ensures l.start + 8 * (i * l.cols + j) + 8 <= |data|
    ensures VectorsOf(data, header).value[i][j] == Word(data, EntryOffset(l.start, l.cols, i, j))
  {
    VectorsRowMajor(data, header, l);
    EntryOffsetValue(l.start, l.cols, i, j);
  }

  /**
   * `extractDocidIndices` yields `shape[0]` elements, element `i` the low 32 bits of the
   * word at `start + 8 * i` read as an `int`; it fails only when those words run past the end.
   */
  lemma DocidIndicesLayout(data: seq<byte>, header: Header)
    requires DocidsLayout(data, header).Ok?
    ensures var l := DocidsLayout(data, header).value;
            var r := DocidIndicesOf(data, header);
            && l.rows == header["docids"].shape[0]
            && (r.Ok? <==> l.rows == 0 || l.start + 8 * l.rows <= |data|)
            && (r.Err? ==> r == Err(BufferUnderflow))
            && (r.Ok? ==>
                  && |r.value| == l.rows
                  && forall i :: 0 <= i < l.rows ==>
                       l.start + 8 * i + 8 <= |data| && r.value[i] == ToInt(ToLong(Word(data, l.start + 8 * i))))
  {
    var l := DocidsLayout(data, header).value;
    ReadWordsClosedForm(data, l.start, l.rows);
  }

  /**
   * Only the two whitelisted dtypes decode: a vectors tensor that is not `F64` or a
   * docids tensor that is not `I64` fails with `UnsupportedDType` once its shape and
   * offset pass the earlier checks, whatever the dimensions (zero rows included).
   */
  lemma DTypeWhitelist(data: seq<byte>, header: Header)
    ensures VectorsOf(data, header).Ok? ==> "vectors" in header && header["vectors"].dtype == "F64"
    ensures DocidIndicesOf(data, header).Ok? ==> "docids" in header && header["docids"].dtype == "I64"
    ensures "vectors" in header && header["vectors"].dtype != "F64"
            && |header["vectors"].shape| >= 2 && 0 <= header["vectors"].shape[0] < TWO_31
            && 0 <= header["vectors"].shape[1] < TWO_31 && PayloadStart(data, header["vectors"]).Ok?
            ==> VectorsOf(data, header) == Err(UnsupportedDType(header["vectors"].dtype))
    ensures "docids" in header && header["docids"].dtype != "I64"
            && |header["docids"].shape| >= 1 && 0 <= header["docids"].shape[0] < TWO_31
            && PayloadStart(data, header["docids"]).Ok?
            ==> DocidIndicesOf(data, header) == Err(UnsupportedDType(header["docids"].dtype))
  {
  }

  /**
   * For offsets and a header length that keep `8 + headerSize + data_offsets[0]` inside
   * an `int`, the payload starts at exactly that position, with `headerSize` re-read from
   * bytes 0..7 and `data_offsets[1]` never consulted.
   */
  lemma PayloadStartValue(data: seq<byte>, d: Descriptor, p: int)
    requires |data| >= 8 && |d.dataOffsets| >= 1 && d.dataOffsets[0] >= 0
    requires p == 8 + Word(data, 0) + d.dataOffsets[0] && p < TWO_31
    ensures p <= |data| ==> PayloadStart(data, d) == Ok(p)
    ensures p > |data| ==> PayloadStart(data, d) == Err(BadPosition)
  {
    var w, begin := Word(data, 0), d.dataOffsets[0];
    IntUnchanged(begin);
    IntUnchanged(w);
    IntUnchanged(begin + w);
    IntUnchanged(begin + w + 8);
  }

  /** `data_offsets[1]` and anything after it never influence where the payload starts. */
  lemma PayloadStartFirstOffset(data: seq<byte>, d: Descriptor, rest: seq<int>)
    requires |d.dataOffsets| >= 1
    ensures PayloadStart(data, Descriptor(d.dtype, d.shape, [d.dataOffsets[0]] + rest)) == PayloadStart(data, d)
  {
  }

  // ---------------------------------------------------------------------
  // Encoding a container, and decoding it back
  // ---------------------------------------------------------------------

  /** The 8-byte little-endian length prefix, the header text, then the payload region. */
  function Container(text: seq<byte>, payload: seq<byte>): seq<byte>
  {
    LeBytes(|text|, 8) + text + payload
  }

  /** Words written back to back, 8 little-endian bytes each. */
  function EncodeWords(ws: seq<nat>): (bs: seq<byte>)
    ensures |bs| == 8 * |ws|
  {
    if ws == [] then [] else LeBytes(ws[0], 8) + EncodeWords(ws[1..])
  }

  /** The rows of a matrix, one after the other. */
  function Flatten(m: seq<seq<nat>>): seq<nat>
  {
    if m == [] then [] else m[0] + Flatten(m[1..])
  }

  predicate AllWords(ws: seq<nat>) {
    forall k :: 0 <= k < |ws| ==> ws[k] < TWO_64
  }

  lemma {:induction false} EncodeWordsAppend(a: seq<nat>, b: seq<nat>)
    ensures EncodeWords(a + b) == EncodeWords(a) + EncodeWords(b)
  {
    if a != [] {
      assert (a + b)[1..] == a[1..] + b;
      EncodeWordsAppend(a[1..], b);
    } else {
      assert a + b == b;
    }
  }

  /** Reading back words written at `pos == |pre|` gives the words. */
  lemma {:induction false} ReadEncodedWords(data: seq<byte>, pos: nat, pre: seq<byte>, ws: seq<nat>, post: seq<byte>)
    requires AllWords(ws)
    requires data == pre + EncodeWords(ws) + post && pos == |pre|
    ensures ReadWords(data, pos, |ws|) == Ok(ws)
    decreases |ws|
  {
    if ws != [] {
      var first := LeBytes(ws[0], 8);
      assert data == (pre + first) + EncodeWords(ws[1..]) + post;
      assert Word(data, pos) == ws[0] by {
        assert data[pos..pos + 8] == first;
        assert Pow256(8) == TWO_64;
        LeValueOfLeBytes(ws[0], 8);
      }
      ReadEncodedWords(data, pos + 8, pre + first, ws[1..], post);
      assert [ws[0]] + ws[1..] == ws;
    }
  }

  /** Every row has `cols` entries, each a 64-bit word. */
  predicate Rectangular(m: seq<seq<nat>>, cols: nat) {
    forall i :: 0 <= i < |m| ==> |m[i]| == cols && AllWords(m[i])
  }

  /** Reading back the rows of a matrix written row-major at `pos == |pre|` gives the matrix. */
  lemma {:induction false} ReadEncodedMatrix(data: seq<byte>, pos: nat, pre: seq<byte>, m: seq<seq<nat>>, cols: nat,
                                             post: seq<byte>)
    requires Rectangular(m, cols)
    requires data == pre + EncodeWords(Flatten(m)) + post && pos == |pre|
    ensures ReadMatrix(data, pos, |m|, cols) == Ok(m)
    decreases |m|
  {
    if m != [] {
      ReadEncodedFirstRow(data, pos, pre, m, cols, post);
      ReadEncodedMatrix(data, pos + 8 * cols, pre + EncodeWords(m[0]), m[1..], cols, post);
      ReadMatrixCons(data, pos, m, cols);
    }
  }

  /** The first row of an encoded matrix reads back, and the remaining rows are encoded right after it. */
  lemma ReadEncodedFirstRow(data: seq<byte>, pos: nat, pre: seq<byte>, m: seq<seq<nat>>, cols: nat, post: seq<byte>)
    requires m != [] && Rectangular(m, cols)
    requires data == pre + EncodeWords(Flatten(m)) + post && pos == |pre|
    ensures ReadWords(data, pos, cols) == Ok(m[0])
    ensures Rectangular(m[1..], cols)
    ensures data == (pre + EncodeWords(m[0])) + EncodeWords(Flatten(m[1..])) + post
    ensures pos + 8 * cols == |pre + EncodeWords(m[0])|
  {
    var row, restWords := EncodeWords(m[0]), EncodeWords(Flatten(m[1..]));
    assert |m[0]| == cols && AllWords(m[0]);
    assert Flatten(m) == m[0] + Flatten(m[1..]);
    EncodeWordsAppend(m[0], Flatten(m[1..]));
    Regroup(pre, row, restWords, post);
    ReadEncodedWords(data, pos, pre, m[0], restWords + post);
  }

  lemma Regroup<T>(pre: seq<T>, a: seq<T>, b: seq<T>, post: seq<T>)
    ensures pre + (a + b) + post == pre + a + (b + post)
    ensures pre + (a + b) + post == (pre + a) + b + post
  {
  }

  /** Reading a first row and then the remaining rows reads the whole matrix. */
  lemma ReadMatrixCons(data: seq<byte>, pos: nat, m: seq<seq<nat>>, cols: nat)
    requires |m| > 0
    requires ReadWords(data, pos, cols) == Ok(m[0])
    requires ReadMatrix(data, pos + 8 * cols, |m[1..]|, cols) == Ok(m[1..])
    ensures ReadMatrix(data, pos, |m|, cols) == Ok(m)
  {
    assert [m[0]] + m[1..] == m;
  }

  /** The header length of an encoded container is the length of its text. */
  lemma ContainerHeaderSize(text: seq<byte>, payload: seq<byte>)
    requires |text| < TWO_31
    ensures |Container(text, payload)| >= 8 && Word(Container(text, payload), 0) == |text|
    ensures HeaderSize(Container(text, payload)) == |text|
  {
    var data := Container(text, payload);
    assert data[0..8] == LeBytes(|text|, 8);
    assert Pow256(8) == TWO_64;
    LeValueOfLeBytes(|text|, 8);
  }

  /** `parseHeader` on an encoded container recovers exactly the header text. */
  lemma HeaderTextOfContainer(text: seq<byte>, payload: seq<byte>)
    requires |text| < TWO_31
    ensures HeaderText(Container(text, payload)) == Ok(text)
  {
    var data := Container(text, payload);
    ContainerHeaderSize(text, payload);
    HeaderTextSlice(data);
    assert data[8..8 + |text|] == text;
  }

  /**
   * A container holding `gap` and then a row-major `F64` matrix, described by a
   * `vectors` entry whose `data_offsets[0]` is `|gap|`, decodes to that matrix,
   * whatever `data_offsets[1]` says and whatever follows the payload.
   */
  lemma VectorsOfContainer(text: seq<byte>, gap: seq<byte>, m: seq<seq<nat>>, cols: nat,
                           trailing: seq<byte>, header: Header)
    requires Rectangular(m, cols)
    requires |m| < TWO_31 && cols < TWO_31 && 8 + |text| + |gap| < TWO_31
    requires "vectors" in header
    requires header["vectors"].dtype == "F64"
    requires |header["vectors"].shape| >= 2 && header["vectors"].shape[0] == |m| && header["vectors"].shape[1] == cols
    requires |header["vectors"].dataOffsets| >= 1 && header["vectors"].dataOffsets[0] == |gap|
    ensures VectorsOf(Container(text, gap + EncodeWords(Flatten(m)) + trailing), header) == Ok(m)
  {
    var words := EncodeWords(Flatten(m));
    var data := Container(text, gap + words + trailing);
    var start := 8 + |text| + |gap|;
    assert VectorsLayout(data, header) == Ok(Layout(start, |m|, cols)) by {
      ContainerPayloadStart(text, gap + words + trailing, |gap|, header["vectors"]);
      VectorsLayoutAt(data, header, start);
    }
    assert ReadMatrix(data, start, |m|, cols) == Ok(m) by {
      RegroupPayload(LeBytes(|text|, 8), text, gap, words, trailing);
      ReadEncodedMatrix(data, start, LeBytes(|text|, 8) + text + gap, m, cols, trailing);
    }
  }

  /** A well-formed `vectors` entry whose payload start is known passes every layout check. */
  lemma VectorsLayoutAt(data: seq<byte>, header: Header, start: nat)
    requires "vectors" in header && header["vectors"].dtype == "F64" && |header["vectors"].shape| >= 2
    requires 0 <= header["vectors"].shape[0] < TWO_31 && 0 <= header["vectors"].shape[1] < TWO_31
    requires PayloadStart(data, header["vectors"]) == Ok(start)
    ensures VectorsLayout(data, header) == Ok(Layout(start, header["vectors"].shape[0], header["vectors"].shape[1]))
  {
  }

  /** A well-formed `docids` entry whose payload start is known passes every layout check. */
  lemma DocidsLayoutAt(data: seq<byte>, header: Header, start: nat)
    requires "docids" in header && header["docids"].dtype == "I64" && |header["docids"].shape| >= 1
    requires 0 <= header["docids"].shape[0] < TWO_31
    requires PayloadStart(data, header["docids"]) == Ok(start)
    ensures DocidsLayout(data, header) == Ok(Layout(start, header["docids"].shape[0], 1))
  {
  }

  /** A payload offset of `skip` bytes points `8 + |text| + skip` bytes into the container. */
  lemma ContainerPayloadStart(text: seq<byte>, payload: seq<byte>, skip: nat, d: Descriptor)
    requires 8 + |text| + skip < TWO_31 && skip <= |payload|
    requires |d.dataOffsets| >= 1 && d.dataOffsets[0] == skip
    ensures PayloadStart(Container(text, payload), d) == Ok(8 + |text| + skip)
  {
    ContainerHeaderSize(text, payload);
    assert |Container(text, payload)| == 8 + |text| + |payload|;
    PayloadStartValue(Container(text, payload), d, 8 + |text| + skip);
  }

  lemma RegroupPayload<T>(a: seq<T>, b: seq<T>, c: seq<T>, d: seq<T>, e: seq<T>)
    ensures a + b + (c + d + e) == (a + b + c) + d + e
  {
  }

  /** `int` values written as two's-complement 64-bit words. */
  function Widened(indices: seq<int>): (ws: seq<nat>)
    requires forall i :: 0 <= i < |indices| ==> IsInt(indices[i])
    ensures |ws| == |indices| && AllWords(ws)
  {
    seq(|indices|, i requires 0 <= i < |indices| => indices[i] % TWO_64)
  }

  /** `(int) getLong()` undoes writing an `int` as a two's-complement word. */
  lemma NarrowedWidened(indices: seq<int>)
    requires forall i :: 0 <= i < |indices| ==> IsInt(indices[i])
    ensures Narrowed(Widened(indices)) == indices
  {
    var ws := Widened(indices);
    forall i | 0 <= i < |indices|
      ensures Narrowed(ws)[i] == indices[i]
    {
      IntThroughWord(indices[i]);
    }
  }

  /**
   * A container holding `gap` and then `int` indices written as two's-complement
   * 64-bit words decodes, through `(int) getLong()`, to those indices.
   */
  lemma DocidIndicesOfContainer(text: seq<byte>, gap: seq<byte>, indices: seq<int>,
                                trailing: seq<byte>, header: Header)
    requires forall i :: 0 <= i < |indices| ==> IsInt(indices[i])
    requires |indices| < TWO_31 && 8 + |text| + |gap| < TWO_31
    requires "docids" in header
    requires header["docids"].dtype == "I64"
    requires |header["docids"].shape| >= 1 && header["docids"].shape[0] == |indices|
    requires |header["docids"].dataOffsets| >= 1 && header["docids"].dataOffsets[0] == |gap|
    ensures DocidIndicesOf(Container(text, gap + EncodeWords(Widened(indices)) + trailing), header) == Ok(indices)
  {
    var words := Widened(indices);
    var data := Container(text, gap + EncodeWords(words) + trailing);
    var start := 8 + |text| + |gap|;
    assert DocidsLayout(data, header) == Ok(Layout(start, |indices|, 1)) by {
      ContainerPayloadStart(text, gap + EncodeWords(words) + trailing, |gap|, header["docids"]);
      DocidsLayoutAt(data, header, start);
    }
    assert ReadWords(data, start, |indices|) == Ok(words) by {
      RegroupPayload(LeBytes(|text|, 8), text, gap, EncodeWords(words), trailing);
      ReadEncodedWords(data, start, LeBytes(|text|, 8) + text + gap, words, trailing);
    }
    NarrowedWidened(indices);
  }
}
