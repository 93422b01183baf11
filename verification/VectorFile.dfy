/**
 The fvecs file format: the streaming reader of the Rust benchmark
 (crates/benchmark/src/ann.rs), the strided whole-file reader of the Python
 benchmark (scripts/competitor_ann_bench.py) and the chunked writer
 (scripts/convert_ann_benchmarks_hdf5.py).  A record is its dimension and then
 that many values, each four little-endian bytes; a value is kept as the
 unsigned number its four bytes spell, whatever type they are read as.
 */
module VectorFile {
  import opened Wrappers

  const MAX_DIMENSIONS: nat := 16384
  const WORD_BOUND: nat := 0x1_0000_0000
  const SIGN_BOUND: nat := 0x8000_0000

  type Word = n: nat | n < WORD_BOUND

  datatype Fault =
    | TruncatedDimension | DimensionOutOfRange | InconsistentDimensions | TruncatedRow
    | TooSmall | NotWords | EmptyMatrix | HeaderOverflow

  type Rows = seq<seq<Word>>

  /** The word as a signed 32-bit number. */
  function Signed(word: Word): int {
    if word < SIGN_BOUND then word else word - WORD_BOUND
  }

  function WordAt(bytes: seq<Byte>, p: nat): Word
    requires p + 4 <= |bytes|
  {
    var b0: int, b1: int, b2: int, b3: int := bytes[p], bytes[p + 1], bytes[p + 2], bytes[p + 3];
    b0 + 256 * (b1 + 256 * (b2 + 256 * b3))
  }

  /** The signed number fits 31 bits and a sign, and differs from the word by a multiple of the modulus. */
  lemma SignedExact(word: Word)
    ensures -0x8000_0000 <= Signed(word) < 0x8000_0000 && (Signed(word) - word) % 0x1_0000_0000 == 0
  {
    assert Signed(word) == word || Signed(word) - word == -0x1_0000_0000;
  }

  /** Little endian: four zero bytes are zero, and the bytes weigh 1, 256, 256² and 256³ in this order. */
  lemma ByteWeights(bytes: seq<Byte>, p: nat, k: nat, byte: Byte)
    requires p + 4 <= |bytes| && k < 4
    ensures bytes[p..p + 4] == [0, 0, 0, 0] ==> WordAt(bytes, p) == 0
    ensures WordAt(bytes[p + k := byte], p) - WordAt(bytes, p) ==
      (byte as int - bytes[p + k] as int) * [1, 0x100, 0x1_0000, 0x100_0000][k]
  {
    if bytes[p..p + 4] == [0, 0, 0, 0] {
      var four := bytes[p..p + 4];
      assert four[0] == bytes[p] && four[1] == bytes[p + 1] && four[2] == bytes[p + 2] && four[3] == bytes[p + 3];
    }
  }

  predicate InRange(dimension: int) {
    0 < dimension <= MAX_DIMENSIONS
  }

  // ---- Reading a stream ----

  function RowAt(bytes: seq<Byte>, p: nat, dimension: nat): seq<Word>
    requires p + 4 * dimension <= |bytes|
  {
    seq(dimension, k requires 0 <= k < dimension => WordAt(bytes, p + 4 * k))
  }

  function Prepend(row: seq<Word>, rest: Result<Rows, Fault>): Result<Rows, Fault> {
    match rest
    case Success(rows) => Success([row] + rows)
    case Failure(_) => rest
  }

  /** The rows from byte `p` on, given the dimension of the rows before it. */
  function StreamFrom(bytes: seq<Byte>, p: nat, dimension: Option<nat>): Result<Rows, Fault>
    requires p <= |bytes|
    decreases |bytes| - p
  {
    if p == |bytes| then Success([])
    else if p + 4 > |bytes| then Failure(TruncatedDimension)
    else
      var d := Signed(WordAt(bytes, p));
      if !InRange(d) then Failure(DimensionOutOfRange)
      else if dimension.Some? && dimension.value != d then Failure(InconsistentDimensions)
      else if p + 4 + 4 * d > |bytes| then Failure(TruncatedRow)
      else Prepend(RowAt(bytes, p + 4, d), StreamFrom(bytes, p + 4 + 4 * d, Some(d)))
  }

  class FvecReader {
    const bytes: seq<Byte>
    var position: nat
    var dimension: Option<nat>

    ghost predicate Valid()
      reads this
    {
      position <= |bytes|
    }

    constructor (bytes: seq<Byte>)
      ensures Valid() && this.bytes == bytes && position == 0 && dimension == None
    {
      this.bytes := bytes;
      position, dimension := 0, None;
    }

    /** Reads four bytes in however many pieces they come. */
    method ReadDimension() returns (result: Result<Option<nat>, Fault>)
      requires Valid()
      modifies this`position
      ensures Valid()
      ensures result == Success(None) <==> old(position) == |bytes|
      ensures result == Failure(TruncatedDimension) <==> old(position) < |bytes| < old(position) + 4
      ensures old(position) + 4 <= |bytes| ==> position == old(position) + 4
      ensures old(position) + 4 <= |bytes| ==>
        var d := Signed(WordAt(bytes, old(position)));
        result == if InRange(d) then Success(Some(d)) else Failure(DimensionOutOfRange)
    {
      ghost var start := position;
      var header: seq<Byte> := [];
      while |header| < 4
        invariant |header| <= 4 && start + |header| == position <= |bytes|
        invariant header == bytes[start..position]
        decreases 4 - |header|
      {
        var available := |bytes| - position;
        if available == 0 {
          return if |header| == 0 then Success(None) else Failure(TruncatedDimension);
        }
        var count :| 1 <= count <= available && count <= 4 - |header|;
        header := header + bytes[position..position + count];
        position := position + count;
      }
      assert forall k :: 0 <= k < 4 ==> header[k] == bytes[start + k];
      var d := Signed(WordAt(header, 0));
      return if InRange(d) then Success(Some(d)) else Failure(DimensionOutOfRange);
    }

    /** One record: `None` at the end of the file.  On success the rest of the stream is what remains. */
    method Next() returns (result: Result<Option<seq<Word>>, Fault>)
      requires Valid()
      modifies this
      ensures Valid()
      ensures result.Failure? ==> StreamFrom(bytes, old(position), old(dimension)) == Failure(result.error)
      ensures result == Success(None) ==> StreamFrom(bytes, old(position), old(dimension)) == Success([])
      ensures result.Success? && result.value.Some? ==> position > old(position)
      ensures result.Success? && result.value.Some? ==>
        StreamFrom(bytes, old(position), old(dimension))
        == Prepend(result.value.value, StreamFrom(bytes, position, dimension))
    {
      var read := ReadDimension();
      if read.Failure? {
        return Failure(read.error);
      }
      if read.value.None? {
        return Success(None);
      }
      var d := read.value.value;
      if dimension.Some? && dimension.value != d {
        return Failure(InconsistentDimensions);
      }
      dimension := Some(d);
      if position + 4 * d > |bytes| {
        return Failure(TruncatedRow);
      }
      var row := RowAt(bytes, position, d);
      position := position + 4 * d;
      return Success(Some(row));
    }
  }

  function JoinRows(rows: Rows, rest: Result<Rows, Fault>): Result<Rows, Fault> {
    match rest
    case Success(more) => Success(rows + more)
    case Failure(_) => rest
  }

  /** Reading to the end gives all rows, or the first fault. */
  method ReadAll(bytes: seq<Byte>) returns (result: Result<Rows, Fault>)
    ensures result == StreamFrom(bytes, 0, None)
  {
    var reader := new FvecReader(bytes);
    var rows: Rows := [];
    JoinUnits(rows, StreamFrom(bytes, 0, None));
    while true
      invariant reader.Valid() && reader.bytes == bytes
      invariant StreamFrom(bytes, 0, None) == JoinRows(rows, StreamFrom(bytes, reader.position, reader.dimension))
      decreases |bytes| - reader.position
    {
      var next := reader.Next();
      if next.Failure? {
        return Failure(next.error);
      }
      if next.value.None? {
        JoinUnits(rows, Success([]));
        return Success(rows);
      }
      var row := next.value.value;
      Rejoined(rows, row, StreamFrom(bytes, reader.position, reader.dimension));
      rows := rows + [row];
    }
  }

  lemma JoinUnits(rows: Rows, rest: Result<Rows, Fault>)
    ensures rows == [] ==> JoinRows(rows, rest) == rest
    ensures rest == Success([]) ==> JoinRows(rows, rest) == Success(rows)
  {
    if rest.Success? && rows == [] {
      assert rows + rest.value == rest.value;
    }
    if rest == Success([]) {
      assert rows + rest.value == rows;
    }
  }

  lemma Rejoined(rows: Rows, row: seq<Word>, rest: Result<Rows, Fault>)
    ensures JoinRows(rows, Prepend(row, rest)) == JoinRows(rows + [row], rest)
  {
    if rest.Success? {
      assert rows + ([row] + rest.value) == rows + [row] + rest.value;
    }
  }

  // ---- Reading the whole file ----

  function Words(bytes: seq<Byte>): seq<Word> {
    seq(|bytes| / 4, k requires 0 <= k < |bytes| / 4 => WordAt(bytes, 4 * k))
  }

  /** Record `i` of words laid out `width + 1` to a record. */
  function RecordAt(words: seq<Word>, width: nat, i: nat): seq<Word>
    requires (i + 1) * (width + 1) <= |words|
  {
    StrideEnds(width, i);
    words[i * (width + 1) + 1..(i + 1) * (width + 1)]
  }

  lemma StrideEnds(width: nat, i: nat)
    ensures (i + 1) * (width + 1) == i * (width + 1) + width + 1
  {
  }

  lemma StrideFits(width: nat, i: nat, n: nat)
    requires i < n
    ensures (i + 1) * (width + 1) <= n * (width + 1)
  {
  }

  function Matrix(words: seq<Word>, width: nat, n: nat): Rows
    requires n * (width + 1) <= |words|
  {
    seq(n, i requires 0 <= i < n => StrideFits(width, i, n); RecordAt(words, width, i))
  }

  predicate HeadersAgree(words: seq<Word>, width: nat, n: nat)
    requires n * (width + 1) <= |words|
  {
    forall i :: 0 <= i < n ==> HeaderAt(words, width, i) == width
  }

  function HeaderAt(words: seq<Word>, width: nat, i: nat): int {
    if 0 <= i * (width + 1) < |words| then Signed(words[i * (width + 1)]) else -1
  }

  /** How many whole records of a size there are. */
  function RecordCount(length: nat, size: nat): (n: nat)
    requires size > 0
    ensures n * size <= length
  {
    length / size
  }

  function MapWords(words: seq<Word>): Result<Rows, Fault>
    requires words != []
  {
    var width := Signed(words[0]);
    if !InRange(width) then Failure(DimensionOutOfRange)
    else if |words| % (width + 1) != 0 then Failure(TruncatedRow)
    else
      var n := RecordCount(|words|, width + 1);
      if !HeadersAgree(words, width, n) then Failure(InconsistentDimensions) else Success(Matrix(words, width, n))
  }

  /** The strided reader. */
  function MapMatrix(bytes: seq<Byte>): Result<Rows, Fault> {
    if |bytes| < 8 then Failure(TooSmall)
    else if |bytes| % 4 != 0 then Failure(NotWords)
    else MapWords(Words(bytes))
  }

  // ---- The two readers agree ----

  /** The stream over whole words. */
  function StreamWords(words: seq<Word>, q: nat, dimension: Option<nat>): Result<Rows, Fault>
    requires q <= |words|
    decreases |words| - q
  {
    if q == |words| then Success([])
    else
      var d := Signed(words[q]);
      if !InRange(d) then Failure(DimensionOutOfRange)
      else if dimension.Some? && dimension.value != d then Failure(InconsistentDimensions)
      else if q + 1 + d > |words| then Failure(TruncatedRow)
      else Prepend(words[q + 1..q + 1 + d], StreamWords(words, q + 1 + d, Some(d)))
  }

  lemma RowWords(bytes: seq<Byte>, q: nat, d: nat)
    requires |bytes| % 4 == 0 && q + d <= |bytes| / 4
    ensures RowAt(bytes, 4 * q, d) == Words(bytes)[q..q + d]
  {
    forall k | 0 <= k < d ensures RowAt(bytes, 4 * q, d)[k] == Words(bytes)[q..q + d][k] {
      assert Words(bytes)[q..q + d][k] == Words(bytes)[q + k];
    }
  }

  /** A file of whole words reads the same byte by byte and word by word. */
  lemma {:induction false} WholeWords(bytes: seq<Byte>, q: nat, dimension: Option<nat>)
    requires |bytes| % 4 == 0 && q <= |bytes| / 4
    ensures StreamFrom(bytes, 4 * q, dimension) == StreamWords(Words(bytes), q, dimension)
    decreases |bytes| / 4 - q
  {
    var n := |bytes| / 4;
    assert |Words(bytes)| == n && |bytes| == 4 * n;
    if q < n {
      var d := Signed(WordAt(bytes, 4 * q));
      assert Words(bytes)[q] == WordAt(bytes, 4 * q);
      assert 4 * q + 4 == 4 * (q + 1) && 4 * q + 4 + 4 * d == 4 * (q + 1 + d);
      if InRange(d) && q + 1 + d <= n {
        RowWords(bytes, q + 1, d);
        WholeWords(bytes, q + 1 + d, Some(d));
      }
    }
  }

  /** A file that is not whole words cannot be read to its end. */
  lemma {:induction false} PartWords(bytes: seq<Byte>, q: nat, dimension: Option<nat>)
    requires |bytes| % 4 != 0 && 4 * q <= |bytes|
    ensures StreamFrom(bytes, 4 * q, dimension).Failure?
    decreases |bytes| - 4 * q
  {
    if 4 * q + 4 <= |bytes| {
      var d := Signed(WordAt(bytes, 4 * q));
      if InRange(d) && 4 * q + 4 + 4 * d <= |bytes| {
        assert 4 * q + 4 + 4 * d == 4 * (q + 1 + d);
        PartWords(bytes, q + 1 + d, Some(d));
      }
    }
  }

  /** The words from `q` on are whole records, each headed by the width. */
  predicate Framed(words: seq<Word>, width: nat, q: nat)
    decreases |words| - q
  {
    q == |words| || (q + width < |words| && Signed(words[q]) == width && Framed(words, width, q + width + 1))
  }

  function FramedRows(words: seq<Word>, width: nat, q: nat): Rows
    requires Framed(words, width, q)
    decreases |words| - q
  {
    if q == |words| then [] else [words[q + 1..q + 1 + width]] + FramedRows(words, width, q + width + 1)
  }

  lemma {:induction false} StreamFramed(words: seq<Word>, width: nat, q: nat)
    requires InRange(width) && q <= |words|
    ensures StreamWords(words, q, Some(width)).Success? <==> Framed(words, width, q)
    ensures Framed(words, width, q) ==> StreamWords(words, q, Some(width)) == Success(FramedRows(words, width, q))
    decreases |words| - q
  {
    if q + width < |words| && Signed(words[q]) == width {
      StreamFramed(words, width, q + width + 1);
    }
  }

  /** Whole records by offset are whole records by index. */
  lemma {:induction false} FramedStrides(words: seq<Word>, width: nat, n: nat, extra: nat, i: nat)
    requires |words| == n * (width + 1) + extra && extra <= width && i <= n
    ensures Framed(words, width, i * (width + 1)) <==>
      extra == 0 && forall j :: i <= j < n ==> HeaderAt(words, width, j) == width
    ensures Framed(words, width, i * (width + 1)) ==>
      FramedRows(words, width, i * (width + 1)) == Matrix(words, width, n)[i..]
    decreases n - i
  {
    if i < n {
      StrideEnds(width, i);
      StrideFits(width, i, n);
      FramedStrides(words, width, n, extra, i + 1);
      assert HeaderAt(words, width, i) == Signed(words[i * (width + 1)]);
      assert Matrix(words, width, n)[i..] == [Matrix(words, width, n)[i]] + Matrix(words, width, n)[i + 1..];
    }
  }

  /** The stream's first record has no dimension before it to disagree with. */
  lemma FirstIsFree(words: seq<Word>)
    requires words != []
    ensures InRange(Signed(words[0])) ==> StreamWords(words, 0, None) == StreamWords(words, 0, Some(Signed(words[0])))
    ensures !InRange(Signed(words[0])) ==> StreamWords(words, 0, None).Failure?
  {
  }

  /**
   On every non-empty file the streaming and the strided reader accept the same
   files and give the same rows.
   */
  lemma ReadersAgree(bytes: seq<Byte>)
    requires bytes != []
    ensures StreamFrom(bytes, 0, None).Success? <==> MapMatrix(bytes).Success?
    ensures StreamFrom(bytes, 0, None).Success? ==> StreamFrom(bytes, 0, None) == MapMatrix(bytes)
  {
    if |bytes| % 4 != 0 {
      PartWords(bytes, 0, None);
    } else {
      WholeWords(bytes, 0, None);
      WordsAgree(Words(bytes));
      if |bytes| < 8 {
        OneWordFails(Words(bytes));
      }
    }
  }

  lemma RecordsAgree(words: seq<Word>, width: nat, n: nat, extra: nat)
    requires InRange(width) && |words| == n * (width + 1) + extra && extra <= width
    ensures StreamWords(words, 0, Some(width)).Success? <==> extra == 0 && HeadersAgree(words, width, n)
    ensures StreamWords(words, 0, Some(width)).Success? ==>
      StreamWords(words, 0, Some(width)) == Success(Matrix(words, width, n))
  {
    StreamFramed(words, width, 0);
    FramedStrides(words, width, n, extra, 0);
    assert 0 * (width + 1) == 0;
    assert Matrix(words, width, n)[0..] == Matrix(words, width, n);
  }

  lemma Divided(length: nat, size: nat)
    requires size > 0
    ensures length == RecordCount(length, size) * size + length % size
  {
  }

  lemma WordsAgree(words: seq<Word>)
    requires words != []
    ensures StreamWords(words, 0, None).Success? <==> MapWords(words).Success?
    ensures MapWords(words).Success? ==> StreamWords(words, 0, None) == MapWords(words)
  {
    FirstIsFree(words);
    var width := Signed(words[0]);
    if InRange(width) {
      Divided(|words|, width + 1);
      RecordsAgree(words, width, RecordCount(|words|, width + 1), |words| % (width + 1));
    }
  }

  /** One word is a header without its row. */
  lemma OneWordFails(words: seq<Word>)
    requires |words| == 1
    ensures StreamWords(words, 0, None).Failure?
  {
  }

  /** Only the empty file divides them: the stream is empty, the strided reader refuses. */
  lemma EmptyFile()
    ensures StreamFrom([], 0, None) == Success([]) && MapMatrix([]) == Failure(TooSmall)
  {
  }

  // ---- Writing ----

  function ByteOf(word: Word, k: nat): Byte
    requires k < 4
  {
    if k == 0 then word % 256
    else if k == 1 then word / 256 % 256
    else if k == 2 then word / 65536 % 256
    else word / 16777216
  }

  function BytesOf(words: seq<Word>): seq<Byte> {
    seq(4 * |words|, p requires 0 <= p < 4 * |words| => ByteOf(words[p / 4], p % 4))
  }

  /** The words of the first `n` rows, each after its header. */
  function Encoded(rows: Rows, dimensions: Word, n: nat): seq<Word>
    requires n <= |rows|
  {
    if n == 0 then [] else Encoded(rows, dimensions, n - 1) + ([dimensions] + rows[n - 1])
  }

  lemma BytesJoin(a: seq<Word>, b: seq<Word>)
    ensures BytesOf(a + b) == BytesOf(a) + BytesOf(b)
  {
  }

  /** Writes the rows chunk by chunk; the bytes do not depend on the chunk size. */
  method WriteVectors(rows: Rows, dimensions: nat, chunkRows: nat) returns (result: Result<seq<Byte>, Fault>)
    requires chunkRows > 0
    requires forall i :: 0 <= i < |rows| ==> |rows[i]| == dimensions
    ensures result.Success? <==> |rows| > 0 && 0 < dimensions < SIGN_BOUND
    ensures result.Success? ==> result.value == BytesOf(Encoded(rows, dimensions, |rows|))
  {
    if |rows| < 1 || dimensions < 1 {
      return Failure(EmptyMatrix);
    }
    if dimensions >= SIGN_BOUND {
      return Failure(HeaderOverflow);
    }
    var header := BytesOf([dimensions]);
    var output: seq<Byte> := [];
    var offset := 0;
    while offset < |rows|
      invariant offset <= |rows|
      invariant output == BytesOf(Encoded(rows, dimensions, offset))
    {
      var end := if offset + chunkRows < |rows| then offset + chunkRows else |rows|;
      for r := offset to end
        invariant output == BytesOf(Encoded(rows, dimensions, r))
      {
        BytesJoin([dimensions], rows[r]);
        BytesJoin(Encoded(rows, dimensions, r), [dimensions] + rows[r]);
        output := output + header;
        output := output + BytesOf(rows[r]);
      }
      offset := end;
    }
    assert offset == |rows|;
    return Success(output);
  }

  lemma WordRebuilt(word: Word)
    ensures var b0: int, b1: int := ByteOf(word, 0), ByteOf(word, 1);
            var b2: int, b3: int := ByteOf(word, 2), ByteOf(word, 3);
            b0 + 256 * (b1 + 256 * (b2 + 256 * b3)) == word
  {
    assert word / 65536 == word / 256 / 256 && word / 16777216 == word / 65536 / 256;
  }

  lemma ByteAt(words: seq<Word>, k: nat, b: nat)
    requires k < |words| && b < 4
    ensures BytesOf(words)[4 * k + b] == ByteOf(words[k], b)
  {
    assert (4 * k + b) / 4 == k && (4 * k + b) % 4 == b;
  }

  lemma WordBack(words: seq<Word>, k: nat)
    requires k < |words|
    ensures WordAt(BytesOf(words), 4 * k) == words[k]
  {
    ByteAt(words, k, 0);
    ByteAt(words, k, 1);
    ByteAt(words, k, 2);
    ByteAt(words, k, 3);
    WordRebuilt(words[k]);
  }

  lemma WordsOfBytes(words: seq<Word>)
    ensures Words(BytesOf(words)) == words
  {
    forall k | 0 <= k < |words| ensures Words(BytesOf(words))[k] == words[k] {
      WordBack(words, k);
    }
  }

  /** Row `i` stands at stride `i`, behind its header. */
  lemma {:induction false} Layout(rows: Rows, dimensions: Word, n: nat)
    requires n <= |rows| && forall i :: 0 <= i < |rows| ==> |rows[i]| == dimensions
    requires dimensions < SIGN_BOUND
    ensures |Encoded(rows, dimensions, n)| == n * (dimensions + 1)
    ensures HeadersAgree(Encoded(rows, dimensions, n), dimensions, n)
    ensures Matrix(Encoded(rows, dimensions, n), dimensions, n) == rows[..n]
  {
    if n > 0 {
      Layout(rows, dimensions, n - 1);
      StrideEnds(dimensions, n - 1);
      var before, words := Encoded(rows, dimensions, n - 1), Encoded(rows, dimensions, n);
      forall i: nat | i < n
        ensures HeaderAt(words, dimensions, i) == dimensions && Matrix(words, dimensions, n)[i] == rows[i]
      {
        StrideEnds(dimensions, i);
        if i < n - 1 {
          StrideFits(dimensions, i, n - 1);
          assert HeaderAt(before, dimensions, i) == dimensions;
          assert Matrix(before, dimensions, n - 1)[i] == rows[..n - 1][i];
          assert RecordAt(words, dimensions, i) == RecordAt(before, dimensions, i);
        } else {
          assert words[|before|] == dimensions;
          assert words[|before| + 1..] == rows[i];
        }
      }
    }
  }

  lemma Multiples(k: int, size: nat)
    ensures k >= 1 ==> k * size >= size
    ensures k <= -1 ==> k * size + size <= 0
  {
  }

  lemma WholeRecords(n: nat, size: nat)
    requires size > 0
    ensures (n * size) % size == 0 && RecordCount(n * size, size) == n
  {
    var q := RecordCount(n * size, size);
    assert (n - q) * size == (n * size) % size;
    Multiples(n - q, size);
  }

  lemma MapsBack(rows: Rows, dimensions: nat)
    requires |rows| > 0 && 0 < dimensions < SIGN_BOUND
    requires forall i :: 0 <= i < |rows| ==> |rows[i]| == dimensions
    ensures var words := Encoded(rows, dimensions, |rows|);
            && |words| >= 2
            && MapWords(words) == if dimensions <= MAX_DIMENSIONS then Success(rows) else Failure(DimensionOutOfRange)
  {
    Layout(rows, dimensions, |rows|);
    StrideFits(dimensions, 0, |rows|);
    assert HeaderAt(Encoded(rows, dimensions, |rows|), dimensions, 0) == dimensions;
    assert rows[..|rows|] == rows;
    WholeRecords(|rows|, dimensions + 1);
  }

  /** Both readers give back what was written, exactly when the width is one they accept. */
  lemma WrittenReadsBack(rows: Rows, dimensions: nat)
    requires |rows| > 0 && 0 < dimensions < SIGN_BOUND
    requires forall i :: 0 <= i < |rows| ==> |rows[i]| == dimensions
    ensures var bytes := BytesOf(Encoded(rows, dimensions, |rows|));
            if dimensions <= MAX_DIMENSIONS then
              MapMatrix(bytes) == Success(rows) && StreamFrom(bytes, 0, None) == Success(rows)
            else MapMatrix(bytes).Failure? && StreamFrom(bytes, 0, None).Failure?
  {
    MapsBack(rows, dimensions);
    WordsOfBytes(Encoded(rows, dimensions, |rows|));
    ReadersAgree(BytesOf(Encoded(rows, dimensions, |rows|)));
  }
}
