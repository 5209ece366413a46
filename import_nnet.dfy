/**
  * The NNet importer (src/redy/convert/import_nnet.py): reads the text of an NNet file
  * (the format of Marabou's NNet loader) and builds a layered network of plain input
  * nodes, weighted sums and ReLUs.
  *
  * The file is a list of lines. Lines whose stripped text starts with "//" are comments.
  * Every other line is a record: its comma-separated fields, without the text after the
  * last comma. The record layout is
  *   0  numLayers, inputSize, _, _
  *   1  the layer sizes (numLayers + 1 of them, the input layer first)
  *   2  unused
  *   3..6  input minimums, input maximums, means, ranges
  *   then, per layer k: layerSizes[k+1] weight rows and layerSizes[k+1] bias records.
  */
module Nnet {
  import opened Wrappers
  import opened Nodes
  import opened Views
  import Text

  // ---------------------------------------------------------------------------
  // Records

  /**
    * The lexical functions the importer applies: `str.strip`, `int` and `float`. The reading
    * phase is stated for any of them; the importer uses Python's, as the Text module models them.
    */
  datatype Lexicon = Lexicon(strip: string -> string, toInt: string -> Option<int>, toReal: string -> Option<real>)

  const Python: Lexicon := Lexicon(Text.Strip, Text.ParseInt, Text.ParseReal)

  predicate IsComment(line: string)
  {
    |line| >= 2 && line[..2] == "//"
  }

  /** `line.split(",")[:-1]`: the fields before the last comma. */
  function Fields(line: string): (r: seq<string>)
    ensures forall i :: 0 <= i < |r| ==> ',' !in r[i]
  {
    var parts := Text.Split(line, ',');
    parts[..|parts| - 1]
  }

  /** The text after the last comma is dropped, whatever it holds. */
  lemma FieldsOfJoin(fs: seq<string>, tail: string)
    requires forall i :: 0 <= i < |fs| ==> ',' !in fs[i]
    requires ',' !in tail
    ensures Fields(Text.Join(fs + [tail], ',')) == fs
  {
    var parts := fs + [tail];
    assert forall i :: 0 <= i < |parts| ==> ',' !in parts[i];
    Text.SplitJoin(parts, ',');
    assert parts[..|parts| - 1] == fs;
  }

  /** The records of a list of lines, in order: the fields of every non-comment line. */
  function Records(lines: seq<string>, lex: Lexicon): seq<seq<string>>
  {
    if lines == [] then []
    else
      var line := lex.strip(lines[0]);
      (if IsComment(line) then [] else [Fields(line)]) + Records(lines[1..], lex)
  }

  /**
    * One call of the reader: the first record and the lines after it. The source asserts
    * that a line remains before each pop, so running out of lines is a failure, and the
    * comment lines read on the way are gone.
    */
  function NextRecord(lines: seq<string>, lex: Lexicon): (Result<seq<string>, Fault>, seq<string>)
  {
    if lines == [] then (Fail(Malformed), [])
    else
      var line := lex.strip(lines[0]);
      if IsComment(line) then NextRecord(lines[1..], lex) else (Ok(Fields(line)), lines[1..])
  }

  /** The reader yields the records one after the other, and fails exactly when none is left. */
  lemma {:induction false} NextRecordIsFirst(lines: seq<string>, lex: Lexicon)
    ensures NextRecord(lines, lex).0.Ok? <==> Records(lines, lex) != []
    ensures NextRecord(lines, lex).0.Fail? ==> NextRecord(lines, lex).0.error == Malformed
    ensures NextRecord(lines, lex).0.Ok? ==>
              Records(lines, lex) == [NextRecord(lines, lex).0.value] + Records(NextRecord(lines, lex).1, lex)
  {
    if lines != [] {
      var line := lex.strip(lines[0]);
      if IsComment(line) {
        NextRecordIsFirst(lines[1..], lex);
      }
    }
  }

  /** A record written as a line with a trailing comma is read back field by field. */
  lemma ReadBack(comments: seq<string>, fs: seq<string>, rest: seq<string>)
    requires forall i :: 0 <= i < |comments| ==> IsComment(Text.Strip(comments[i]))
    requires forall i :: 0 <= i < |fs| ==> ',' !in fs[i]
    requires Text.Trimmed(Text.Join(fs + [""], ',')) && !IsComment(Text.Join(fs + [""], ','))
    ensures NextRecord(comments + [Text.Join(fs + [""], ',')] + rest, Python) == (Ok(fs), rest)
  {
    var line := Text.Join(fs + [""], ',');
    Text.StripTrimmed(line);
    FieldsOfJoin(fs, "");
    ReadLineBack(comments, line, fs, rest, Python);
  }

  lemma ReadLineBack(comments: seq<string>, line: string, fs: seq<string>, rest: seq<string>, lex: Lexicon)
    requires forall i :: 0 <= i < |comments| ==> IsComment(lex.strip(comments[i]))
    requires lex.strip(line) == line && !IsComment(line) && Fields(line) == fs
    ensures NextRecord(comments + [line] + rest, lex) == (Ok(fs), rest)
  {
    SkipComments(comments, [line] + rest, lex);
    assert comments + [line] + rest == comments + ([line] + rest);
    assert ([line] + rest)[1..] == rest;
  }

  lemma {:induction false} SkipComments(comments: seq<string>, rest: seq<string>, lex: Lexicon)
    requires forall i :: 0 <= i < |comments| ==> IsComment(lex.strip(comments[i]))
    ensures NextRecord(comments + rest, lex) == NextRecord(rest, lex)
    decreases |comments|
  {
    if comments != [] {
      var all := comments + rest;
      assert all[0] == comments[0] && IsComment(lex.strip(comments[0]));
      assert all[1..] == comments[1..] + rest;
      assert NextRecord(all, lex) == NextRecord(all[1..], lex);
      SkipComments(comments[1..], rest, lex);
      assert NextRecord(all[1..], lex) == NextRecord(rest, lex);
    } else {
      assert comments + rest == rest;
    }
  }

  /** `LineReader`: the lines not yet consumed. */
  class LineReader {
    var data: seq<string>

    /** The lines are those of `data.splitlines()`. */
    constructor (lines: seq<string>)
      ensures data == lines
    {
      data := lines;
    }

    /** `__call__`: pops lines until one is not a comment and returns its fields. */
    method Read(lex: Lexicon) returns (r: Result<seq<string>, Fault>)
      modifies this
      ensures (r, data) == NextRecord(old(data), lex)
      ensures r == RecordAt(Records(old(data), lex), 0)
      ensures r.Ok? ==> Records(data, lex) == Records(old(data), lex)[1..]
    {
      NextRecordIsFirst(data, lex);
      r := Fail(Malformed);
      var searching := true;
      while searching && |data| > 0
        invariant searching ==> r == Fail(Malformed) && NextRecord(data, lex) == NextRecord(old(data), lex)
        invariant !searching ==> (r, data) == NextRecord(old(data), lex)
        decreases |data|
      {
        var line := lex.strip(data[0]);
        data := data[1..];
        if !IsComment(line) {
          r := Ok(Fields(line));
          searching := false;
        }
      }
    }
  }

  // ---------------------------------------------------------------------------
  // The file's contents

  /** `range(n)` runs max(0, n) times. */
  function Count(n: int): nat
  {
    if n < 0 then 0 else n
  }

  /** `[f(x) for x in fields]`; None where one field does not parse. */
  function ParseAll<T>(fs: seq<string>, parse: string -> Option<T>): (r: Option<seq<T>>)
    ensures r.Some? <==> forall i :: 0 <= i < |fs| ==> parse(fs[i]).Some?
    ensures r.Some? ==> |r.value| == |fs| && forall i :: 0 <= i < |fs| ==> parse(fs[i]) == Some(r.value[i])
  {
    if fs == [] then Some([])
    else
      match (parse(fs[0]), ParseAll(fs[1..], parse))
      case (Some(v), Some(vs)) => Some([v] + vs)
      case _ => None
  }

  /** A ValueError of `int(...)` or `float(...)` stops the import. */
  function OrMalformed<T>(o: Option<T>): (r: Result<T, Fault>)
    ensures r.Ok? <==> o.Some?
    ensures r.Ok? ==> r.value == o.value
    ensures r.Fail? ==> r.error == Malformed
  {
    match o
    case Some(v) => Ok(v)
    case None => Fail(Malformed)
  }

  /** The record at a position; past the end the reader's assertion fails. */
  function RecordAt(recs: seq<seq<string>>, pos: nat): Result<seq<string>, Fault>
  {
    if pos < |recs| then Ok(recs[pos]) else Fail(Malformed)
  }

  /** `[int(x) for x in read()]` on the record at `pos`. */
  function IntsAt(recs: seq<seq<string>>, lex: Lexicon, pos: nat): Result<seq<int>, Fault>
  {
    if pos < |recs| then OrMalformed(ParseAll(recs[pos], lex.toInt)) else Fail(Malformed)
  }

  /** `[float(x) for x in read()]` on the record at `pos`. */
  function RealsAt(recs: seq<seq<string>>, lex: Lexicon, pos: nat): Result<seq<real>, Fault>
  {
    if pos < |recs| then OrMalformed(ParseAll(recs[pos], lex.toReal)) else Fail(Malformed)
  }

  /** What the header and the weight and bias records give, before normalisation. */
  datatype NnetFile = NnetFile(
    numLayers: int, inputSize: int, layerSizes: seq<int>,
    mins: seq<real>, maxs: seq<real>, means: seq<real>, ranges: seq<real>,
    weights: seq<seq<seq<real>>>, biases: seq<seq<real>>)

  /** A weight row: the record at `pos`, cut to its first `width` values. */
  function RowAt(recs: seq<seq<string>>, lex: Lexicon, pos: nat, width: nat): Result<seq<real>, Fault>
  {
    match RealsAt(recs, lex, pos)
    case Fail(e) => Fail(e)
    case Ok(aux) => if |aux| < width then Fail(IndexOutOfRange) else Ok(aux[..width])
  }

  /** A bias: `float(read()[0])` on the record at `pos`. */
  function BiasAt(recs: seq<seq<string>>, lex: Lexicon, pos: nat): Result<real, Fault>
  {
    match RecordAt(recs, pos)
    case Fail(e) => Fail(e)
    case Ok(fs) => if |fs| == 0 then Fail(IndexOutOfRange) else OrMalformed(lex.toReal(fs[0]))
  }

  /** The weight rows of one layer: `count` rows from `pos`, appended to `rows`. */
  function RowsFrom(recs: seq<seq<string>>, lex: Lexicon, pos: nat, count: nat, width: nat, rows: seq<seq<real>>)
    : Result<seq<seq<real>>, Fault>
    decreases count
  {
    if count == 0 then Ok(rows)
    else
      match RowAt(recs, lex, pos, width)
      case Fail(e) => Fail(e)
      case Ok(row) => RowsFrom(recs, lex, pos + 1, count - 1, width, rows + [row])
  }

  /** The biases of one layer: `count` biases from `pos`, appended to `bs`. */
  function BiasesFrom(recs: seq<seq<string>>, lex: Lexicon, pos: nat, count: nat, bs: seq<real>): Result<seq<real>, Fault>
    decreases count
  {
    if count == 0 then Ok(bs)
    else
      match BiasAt(recs, lex, pos)
      case Fail(e) => Fail(e)
      case Ok(b) => BiasesFrom(recs, lex, pos + 1, count - 1, bs + [b])
  }

  /** One layer: its weight rows, then its biases, from `pos`. */
  function LayerAt(recs: seq<seq<string>>, lex: Lexicon, pos: nat, previous: nat, current: nat)
    : Result<(seq<seq<real>>, seq<real>), Fault>
  {
    match RowsFrom(recs, lex, pos, current, previous, [])
    case Fail(e) => Fail(e)
    case Ok(rows) =>
      match BiasesFrom(recs, lex, pos + current, current, [])
      case Fail(e) => Fail(e)
      case Ok(bs) => Ok((rows, bs))
  }

  /** Layers k, k+1, ... up to numLayers = |layerSizes| - 1, appended to `ws` and `bs`. */
  function LayersFrom(recs: seq<seq<string>>, lex: Lexicon, pos: nat, ls: seq<int>, k: nat,
                      ws: seq<seq<seq<real>>>, bs: seq<seq<real>>)
    : Result<(seq<seq<seq<real>>>, seq<seq<real>>), Fault>
    decreases |ls| - k
  {
    if k + 1 >= |ls| then Ok((ws, bs))
    else
      var current := Count(ls[k + 1]);
      match LayerAt(recs, lex, pos, Count(ls[k]), current)
      case Fail(e) => Fail(e)
      case Ok((rows, b)) => LayersFrom(recs, lex, pos + 2 * current, ls, k + 1, ws + [rows], bs + [b])
  }

  /** The first seven records: the header, the layer sizes, the unused record and the input statistics. */
  function HeaderOf(recs: seq<seq<string>>, lex: Lexicon): (r: Result<NnetFile, Fault>)
    ensures r.Ok? ==> r.value.weights == [] && r.value.biases == []
  {
    match IntsAt(recs, lex, 0)
    case Fail(e) => Fail(e)
    case Ok(header) =>
      if |header| != 4 then Fail(Malformed)
      else
        match IntsAt(recs, lex, 1)
        case Fail(e) => Fail(e)
        case Ok(ls) =>
          if |ls| != header[0] + 1 || |recs| < 3 then Fail(Malformed)
          else
            match (RealsAt(recs, lex, 3), RealsAt(recs, lex, 4), RealsAt(recs, lex, 5), RealsAt(recs, lex, 6))
            case (Ok(mins), Ok(maxs), Ok(means), Ok(ranges)) =>
              Ok(NnetFile(header[0], header[1], ls, mins, maxs, means, ranges, [], []))
            case _ => Fail(Malformed)
  }

  /** The whole reading phase of `import_nnet`, on the records of the file. */
  function Decode(recs: seq<seq<string>>, lex: Lexicon): Result<NnetFile, Fault>
  {
    match HeaderOf(recs, lex)
    case Fail(e) => Fail(e)
    case Ok(f) =>
      match LayersFrom(recs, lex, 7, f.layerSizes, 0, [], [])
      case Fail(e) => Fail(e)
      case Ok((ws, bs)) => Ok(f.(weights := ws, biases := bs))
  }

  // ---------------------------------------------------------------------------
  // Reading, as the source does it

  method ReadInts(reader: LineReader, lex: Lexicon) returns (r: Result<seq<int>, Fault>)
    modifies reader
    ensures r == IntsAt(Records(old(reader.data), lex), lex, 0)
    ensures r.Ok? ==> Records(reader.data, lex) == Records(old(reader.data), lex)[1..]
  {
    var fs := reader.Read(lex);
    if fs.Fail? {
      return Fail(Malformed);
    }
    r := OrMalformed(ParseAll(fs.value, lex.toInt));
  }

  method ReadReals(reader: LineReader, lex: Lexicon) returns (r: Result<seq<real>, Fault>)
    modifies reader
    ensures r == RealsAt(Records(old(reader.data), lex), lex, 0)
    ensures r.Ok? ==> Records(reader.data, lex) == Records(old(reader.data), lex)[1..]
  {
    var fs := reader.Read(lex);
    if fs.Fail? {
      return Fail(Malformed);
    }
    r := OrMalformed(ParseAll(fs.value, lex.toReal));
  }

  /** The inner loop over `j`: the first `width` values of a row, one by one. */
  method TakeRow(aux: seq<real>, width: nat) returns (r: Result<seq<real>, Fault>)
    ensures r == if |aux| < width then Fail(IndexOutOfRange) else Ok(aux[..width])
  {
    var row: seq<real> := [];
    var j := 0;
    while j < width
      invariant j <= width && j <= |aux| && row == aux[..j]
    {
      if j >= |aux| {
        return Fail(IndexOutOfRange);
      }
      row := row + [aux[j]];
      j := j + 1;
    }
    r := Ok(row);
  }

  /** The weight-row loop of one layer. */
  method ReadRows(reader: LineReader, lex: Lexicon, width: nat, count: nat) returns (r: Result<seq<seq<real>>, Fault>)
    modifies reader
    ensures r == RowsFrom(Records(old(reader.data), lex), lex, 0, count, width, [])
    ensures r.Ok? ==> count <= |Records(old(reader.data), lex)|
                      && Records(reader.data, lex) == Records(old(reader.data), lex)[count..]
  {
    ghost var recs := Records(reader.data, lex);
    var rows: seq<seq<real>> := [];
    var i := 0;
    while i < count
      invariant i <= count && i <= |recs| && Records(reader.data, lex) == recs[i..]
      invariant RowsFrom(recs, lex, i, count - i, width, rows) == RowsFrom(recs, lex, 0, count, width, [])
    {
      var aux := ReadReals(reader, lex);
      assert aux == RealsAt(recs, lex, i);
      if aux.Fail? {
        return Fail(aux.error);
      }
      var row := TakeRow(aux.value, width);
      assert row == RowAt(recs, lex, i, width);
      if row.Fail? {
        return Fail(row.error);
      }
      assert recs[i + 1..] == recs[i..][1..];
      RowsStep(recs, lex, i, count - i, width, rows, row.value);
      rows := rows + [row.value];
      i := i + 1;
    }
    r := Ok(rows);
  }

  /** The bias loop of one layer. */
  method ReadBiases(reader: LineReader, lex: Lexicon, count: nat) returns (r: Result<seq<real>, Fault>)
    modifies reader
    ensures r == BiasesFrom(Records(old(reader.data), lex), lex, 0, count, [])
    ensures r.Ok? ==> count <= |Records(old(reader.data), lex)|
                      && Records(reader.data, lex) == Records(old(reader.data), lex)[count..]
  {
    ghost var recs := Records(reader.data, lex);
    var bs: seq<real> := [];
    var i := 0;
    while i < count
      invariant i <= count && i <= |recs| && Records(reader.data, lex) == recs[i..]
      invariant BiasesFrom(recs, lex, i, count - i, bs) == BiasesFrom(recs, lex, 0, count, [])
    {
      var fs := reader.Read(lex);
      assert fs == RecordAt(recs, i);
      if fs.Fail? {
        return Fail(Malformed);
      }
      if |fs.value| == 0 {
        return Fail(IndexOutOfRange);
      }
      var b := lex.toReal(fs.value[0]);
      assert OrMalformed(b) == BiasAt(recs, lex, i);
      if b.None? {
        return Fail(Malformed);
      }
      assert recs[i + 1..] == recs[i..][1..];
      BiasesStep(recs, lex, i, count - i, bs, b.value);
      bs := bs + [b.value];
      i := i + 1;
    }
    r := Ok(bs);
  }

  lemma RowsStep(recs: seq<seq<string>>, lex: Lexicon, pos: nat, count: nat, width: nat, rows: seq<seq<real>>, row: seq<real>)
    requires count > 0 && RowAt(recs, lex, pos, width) == Ok(row)
    ensures RowsFrom(recs, lex, pos, count, width, rows) == RowsFrom(recs, lex, pos + 1, count - 1, width, rows + [row])
  {
  }

  lemma BiasesStep(recs: seq<seq<string>>, lex: Lexicon, pos: nat, count: nat, bs: seq<real>, b: real)
    requires count > 0 && BiasAt(recs, lex, pos) == Ok(b)
    ensures BiasesFrom(recs, lex, pos, count, bs) == BiasesFrom(recs, lex, pos + 1, count - 1, bs + [b])
  {
  }

  /** RowsFrom and BiasesFrom read the same records wherever those records sit. */
  lemma {:induction false} RowsShift(recs: seq<seq<string>>, lex: Lexicon, pos: nat, at: nat, count: nat, width: nat, rows: seq<seq<real>>)
    requires pos <= |recs|
    ensures RowsFrom(recs[pos..], lex, at, count, width, rows) == RowsFrom(recs, lex, pos + at, count, width, rows)
    decreases count
  {
    if count > 0 {
      assert RowAt(recs[pos..], lex, at, width) == RowAt(recs, lex, pos + at, width) by {
        assert RealsAt(recs[pos..], lex, at) == RealsAt(recs, lex, pos + at);
      }
      var row := RowAt(recs, lex, pos + at, width);
      if row.Ok? {
        RowsShift(recs, lex, pos, at + 1, count - 1, width, rows + [row.value]);
      }
    }
  }

  lemma {:induction false} BiasesShift(recs: seq<seq<string>>, lex: Lexicon, pos: nat, at: nat, count: nat, bs: seq<real>)
    requires pos <= |recs|
    ensures BiasesFrom(recs[pos..], lex, at, count, bs) == BiasesFrom(recs, lex, pos + at, count, bs)
    decreases count
  {
    if count > 0 {
      assert BiasAt(recs[pos..], lex, at) == BiasAt(recs, lex, pos + at) by {
        assert RecordAt(recs[pos..], at) == RecordAt(recs, pos + at);
      }
      var b := BiasAt(recs, lex, pos + at);
      if b.Ok? {
        BiasesShift(recs, lex, pos, at + 1, count - 1, bs + [b.value]);
      }
    }
  }

  /** One iteration of the `layernum` loop: the weight rows, then the biases. */
  method ReadLayer(reader: LineReader, lex: Lexicon, previous: nat, current: nat) returns (r: Result<(seq<seq<real>>, seq<real>), Fault>)
    modifies reader
    ensures r == LayerAt(Records(old(reader.data), lex), lex, 0, previous, current)
    ensures r.Ok? ==> 2 * current <= |Records(old(reader.data), lex)|
                      && Records(reader.data, lex) == Records(old(reader.data), lex)[2 * current..]
  {
    ghost var recs := Records(reader.data, lex);
    var rows := ReadRows(reader, lex, previous, current);
    if rows.Fail? {
      return Fail(rows.error);
    }
    var bs := ReadBiases(reader, lex, current);
    BiasesShift(recs, lex, current, 0, current, []);
    if bs.Fail? {
      return Fail(bs.error);
    }
    assert recs[2 * current..] == recs[current..][current..];
    r := Ok((rows.value, bs.value));
  }

  lemma LayerShift(recs: seq<seq<string>>, lex: Lexicon, pos: nat, at: nat, previous: nat, current: nat)
    requires pos <= |recs|
    ensures LayerAt(recs[pos..], lex, at, previous, current) == LayerAt(recs, lex, pos + at, previous, current)
  {
    RowsShift(recs, lex, pos, at, current, previous, []);
    BiasesShift(recs, lex, pos, at + current, current, []);
  }

  lemma {:induction false} LayersShift(recs: seq<seq<string>>, lex: Lexicon, pos: nat, at: nat, ls: seq<int>, k: nat,
                                       ws: seq<seq<seq<real>>>, bs: seq<seq<real>>)
    requires pos <= |recs|
    ensures LayersFrom(recs[pos..], lex, at, ls, k, ws, bs) == LayersFrom(recs, lex, pos + at, ls, k, ws, bs)
    decreases |ls| - k
  {
    if k + 1 < |ls| {
      var current := Count(ls[k + 1]);
      LayerShift(recs, lex, pos, at, Count(ls[k]), current);
      var layer := LayerAt(recs, lex, pos + at, Count(ls[k]), current);
      if layer.Ok? {
        LayersShift(recs, lex, pos, at + 2 * current, ls, k + 1, ws + [layer.value.0], bs + [layer.value.1]);
      }
    }
  }

  /** Lines 33-43 of the importer: the header, the layer sizes and the input statistics. */
  method ReadHeader(reader: LineReader, lex: Lexicon) returns (res: Result<NnetFile, Fault>)
    modifies reader
    ensures res == HeaderOf(Records(old(reader.data), lex), lex)
    ensures res.Ok? ==> 7 <= |Records(old(reader.data), lex)|
                        && Records(reader.data, lex) == Records(old(reader.data), lex)[7..]
  {
    ghost var recs := Records(reader.data, lex);
    var header := ReadInts(reader, lex);
    if header.Fail? {
      return Fail(header.error);
    }
    if |header.value| != 4 {
      return Fail(Malformed);
    }
    var numLayers, inputSize := header.value[0], header.value[1];
    var sizes := ReadInts(reader, lex);
    assert sizes == IntsAt(recs, lex, 1);
    if sizes.Fail? {
      return Fail(sizes.error);
    }
    var layerSizes := sizes.value;
    if |layerSizes| != numLayers + 1 {
      return Fail(Malformed);
    }
    var unused := reader.Read(lex);
    if unused.Fail? {
      return Fail(Malformed);
    }
    assert Records(reader.data, lex) == recs[3..];
    var stats := ReadStatistics(reader, lex);
    assert stats == StatisticsAt(recs, lex, 3) by {
      StatisticsShift(recs, lex, 3);
    }
    if stats.Fail? {
      return Fail(Malformed);
    }
    assert recs[7..] == recs[3..][4..];
    var (mins, maxs, means, ranges) := stats.value;
    res := Ok(NnetFile(numLayers, inputSize, layerSizes, mins, maxs, means, ranges, [], []));
  }

  /** The four records of minimums, maximums, means and ranges, from `pos`. */
  function StatisticsAt(recs: seq<seq<string>>, lex: Lexicon, pos: nat)
    : Result<(seq<real>, seq<real>, seq<real>, seq<real>), Fault>
  {
    match (RealsAt(recs, lex, pos), RealsAt(recs, lex, pos + 1), RealsAt(recs, lex, pos + 2), RealsAt(recs, lex, pos + 3))
    case (Ok(mins), Ok(maxs), Ok(means), Ok(ranges)) => Ok((mins, maxs, means, ranges))
    case _ => Fail(Malformed)
  }

  lemma StatisticsShift(recs: seq<seq<string>>, lex: Lexicon, pos: nat)
    requires pos <= |recs|
    ensures StatisticsAt(recs[pos..], lex, 0) == StatisticsAt(recs, lex, pos)
  {
    assert forall j :: 0 <= j < 4 ==> RealsAt(recs[pos..], lex, j) == RealsAt(recs, lex, pos + j);
  }

  /** Lines 40-43 of the importer. */
  method ReadStatistics(reader: LineReader, lex: Lexicon)
    returns (res: Result<(seq<real>, seq<real>, seq<real>, seq<real>), Fault>)
    modifies reader
    ensures res == StatisticsAt(Records(old(reader.data), lex), lex, 0)
    ensures res.Ok? ==> 4 <= |Records(old(reader.data), lex)|
                        && Records(reader.data, lex) == Records(old(reader.data), lex)[4..]
  {
    ghost var recs := Records(reader.data, lex);
    var mins := ReadReals(reader, lex);
    if mins.Fail? {
      return Fail(Malformed);
    }
    var maxs := ReadReals(reader, lex);
    assert maxs == RealsAt(recs, lex, 1);
    if maxs.Fail? {
      return Fail(Malformed);
    }
    var means := ReadReals(reader, lex);
    assert means == RealsAt(recs, lex, 2);
    if means.Fail? {
      return Fail(Malformed);
    }
    var ranges := ReadReals(reader, lex);
    assert ranges == RealsAt(recs, lex, 3);
    if ranges.Fail? {
      return Fail(Malformed);
    }
    assert recs[4..] == recs[1..][1..][1..][1..];
    res := Ok((mins.value, maxs.value, means.value, ranges.value));
  }

  /** One pass of the `layernum` loop, on the records left at `pos`: `layer` is what it reads. */
  lemma LayersAdvance(recs: seq<seq<string>>, lex: Lexicon, pos: nat, ls: seq<int>, k: nat,
                      ws: seq<seq<seq<real>>>, bs: seq<seq<real>>, current: nat,
                      layer: Result<(seq<seq<real>>, seq<real>), Fault>)
    requires k + 1 < |ls| && pos <= |recs| && current == Count(ls[k + 1])
    requires layer == LayerAt(recs[pos..], lex, 0, Count(ls[k]), current)
    ensures layer.Fail? ==> LayersFrom(recs, lex, pos, ls, k, ws, bs) == Fail(layer.error)
    ensures layer.Ok? && 2 * current <= |recs| - pos ==>
              && recs[pos..][2 * current..] == recs[pos + 2 * current..]
              && LayersFrom(recs, lex, pos, ls, k, ws, bs)
                 == LayersFrom(recs, lex, pos + 2 * current, ls, k + 1, ws + [layer.value.0], bs + [layer.value.1])
  {
    LayerShift(recs, lex, pos, 0, Count(ls[k]), current);
  }

  /** One pass of the `layernum` loop, with the records `recs[pos..]` left to read. */
  method ReadNext(reader: LineReader, lex: Lexicon, layerSizes: seq<int>, k: nat,
                  weights: seq<seq<seq<real>>>, biases: seq<seq<real>>, ghost recs: seq<seq<string>>, ghost pos: nat)
    returns (layer: Result<(seq<seq<real>>, seq<real>), Fault>, ghost pos': nat)
    requires k + 1 < |layerSizes| && pos <= |recs| && Records(reader.data, lex) == recs[pos..]
    modifies reader
    ensures layer.Fail? ==> LayersFrom(recs, lex, pos, layerSizes, k, weights, biases) == Fail(layer.error)
    ensures layer.Ok? ==> && pos' <= |recs| && Records(reader.data, lex) == recs[pos'..]
                          && LayersFrom(recs, lex, pos, layerSizes, k, weights, biases)
                             == LayersFrom(recs, lex, pos', layerSizes, k + 1, weights + [layer.value.0], biases + [layer.value.1])
  {
    var previous, current := Count(layerSizes[k]), Count(layerSizes[k + 1]);
    layer := ReadLayer(reader, lex, previous, current);
    LayersAdvance(recs, lex, pos, layerSizes, k, weights, biases, current, layer);
    pos' := pos + 2 * current;
  }

  /** Lines 45-62 of the importer: the `layernum` loop. */
  method ReadLayers(reader: LineReader, lex: Lexicon, layerSizes: seq<int>)
    returns (res: Result<(seq<seq<seq<real>>>, seq<seq<real>>), Fault>)
    modifies reader
    ensures res == LayersFrom(Records(old(reader.data), lex), lex, 0, layerSizes, 0, [], [])
  {
    ghost var recs := Records(reader.data, lex);
    ghost var goal := LayersFrom(recs, lex, 0, layerSizes, 0, [], []);
    var weights: seq<seq<seq<real>>> := [];
    var biases: seq<seq<real>> := [];
    ghost var pos: nat := 0;
    var k: nat := 0;
    while k + 1 < |layerSizes|
      invariant pos <= |recs| && Records(reader.data, lex) == recs[pos..]
      invariant LayersFrom(recs, lex, pos, layerSizes, k, weights, biases) == goal
    {
      var layer;
      layer, pos := ReadNext(reader, lex, layerSizes, k, weights, biases, recs, pos);
      if layer.Fail? {
        return Fail(layer.error);
      }
      weights := weights + [layer.value.0];
      biases := biases + [layer.value.1];
      k := k + 1;
    }
    res := Ok((weights, biases));
  }

  /** Lines 30-62 of the importer: everything that is read from the file. */
  method ReadFile(reader: LineReader, lex: Lexicon) returns (res: Result<NnetFile, Fault>)
    modifies reader
    ensures res == Decode(Records(old(reader.data), lex), lex)
  {
    ghost var recs := Records(reader.data, lex);
    var header := ReadHeader(reader, lex);
    if header.Fail? {
      return Fail(header.error);
    }
    var layers := ReadLayers(reader, lex, header.value.layerSizes);
    LayersShift(recs, lex, 7, 0, header.value.layerSizes, 0, [], []);
    if layers.Fail? {
      return Fail(layers.error);
    }
    res := Ok(header.value.(weights := layers.value.0, biases := layers.value.1));
  }

  // ---------------------------------------------------------------------------
  // What the decoded file holds

  /** A weight row is the record's first `width` values; a short record is an IndexError. */
  lemma RowAtMeaning(recs: seq<seq<string>>, lex: Lexicon, pos: nat, width: nat)
    ensures var r := RowAt(recs, lex, pos, width);
      && (r.Ok? <==> pos < |recs| && width <= |recs[pos]|
                     && forall j :: 0 <= j < |recs[pos]| ==> lex.toReal(recs[pos][j]).Some?)
      && (r.Ok? ==> |r.value| == width && forall j :: 0 <= j < width ==> lex.toReal(recs[pos][j]) == Some(r.value[j]))
      && (r.Fail? ==> (r.error == IndexOutOfRange <==>
                        pos < |recs| && |recs[pos]| < width
                        && forall j :: 0 <= j < |recs[pos]| ==> lex.toReal(recs[pos][j]).Some?))
  {
  }

  /** A bias is the parsed first field of its record; an empty record is an IndexError. */
  lemma BiasAtMeaning(recs: seq<seq<string>>, lex: Lexicon, pos: nat)
    ensures var r := BiasAt(recs, lex, pos);
      && (r.Ok? <==> pos < |recs| && |recs[pos]| > 0 && lex.toReal(recs[pos][0]).Some?)
      && (r.Ok? ==> lex.toReal(recs[pos][0]) == Some(r.value))
      && (r.Fail? ==> (r.error == IndexOutOfRange <==> pos < |recs| && |recs[pos]| == 0))
  {
  }

  lemma {:induction false} RowsMeaning(recs: seq<seq<string>>, lex: Lexicon, pos: nat, count: nat, width: nat,
                                       rows: seq<seq<real>>)
    ensures var r := RowsFrom(recs, lex, pos, count, width, rows);
      && (r.Ok? <==> forall p :: pos <= p < pos + count ==> RowAt(recs, lex, p, width).Ok?)
      && (r.Ok? ==> |r.value| == |rows| + count && r.value[..|rows|] == rows
                    && forall p :: pos <= p < pos + count ==> RowAt(recs, lex, p, width) == Ok(r.value[|rows| + (p - pos)]))
    decreases count
  {
    if count > 0 {
      var row := RowAt(recs, lex, pos, width);
      if row.Ok? {
        var rows' := rows + [row.value];
        RowsMeaning(recs, lex, pos + 1, count - 1, width, rows');
        var r := RowsFrom(recs, lex, pos, count, width, rows);
        assert r == RowsFrom(recs, lex, pos + 1, count - 1, width, rows');
        if r.Ok? {
          assert r.value[..|rows'|] == rows';
          assert r.value[..|rows|] == rows'[..|rows|] == rows;
        }
      }
    }
  }

  lemma {:induction false} BiasesMeaning(recs: seq<seq<string>>, lex: Lexicon, pos: nat, count: nat, bs: seq<real>)
    ensures var r := BiasesFrom(recs, lex, pos, count, bs);
      && (r.Ok? <==> forall p :: pos <= p < pos + count ==> BiasAt(recs, lex, p).Ok?)
      && (r.Ok? ==> |r.value| == |bs| + count && r.value[..|bs|] == bs
                    && forall p :: pos <= p < pos + count ==> BiasAt(recs, lex, p) == Ok(r.value[|bs| + (p - pos)]))
    decreases count
  {
    if count > 0 {
      var b := BiasAt(recs, lex, pos);
      if b.Ok? {
        var bs' := bs + [b.value];
        BiasesMeaning(recs, lex, pos + 1, count - 1, bs');
        var r := BiasesFrom(recs, lex, pos, count, bs);
        assert r == BiasesFrom(recs, lex, pos + 1, count - 1, bs');
        if r.Ok? {
          assert r.value[..|bs'|] == bs';
          assert r.value[..|bs|] == bs'[..|bs|] == bs;
        }
      }
    }
  }

  /** Where the records of layer j start, counted from those of layer k: two per neuron of each layer between. */
  function Offset(ls: seq<int>, k: nat, j: nat): nat
    requires k <= j < |ls|
    decreases j - k
  {
    if k == j then 0 else 2 * Count(ls[k + 1]) + Offset(ls, k + 1, j)
  }

  /** The number of passes of the `layernum` loop from k on. */
  function Remaining(ls: seq<int>, k: nat): nat
  {
    if k + 1 < |ls| then |ls| - 1 - k else 0
  }

  lemma LayersMeaning(recs: seq<seq<string>>, lex: Lexicon, pos: nat, ls: seq<int>, k: nat,
                      ws: seq<seq<seq<real>>>, bs: seq<seq<real>>)
    ensures var r := LayersFrom(recs, lex, pos, ls, k, ws, bs);
      && (r.Ok? <==> forall j :: k <= j && j + 1 < |ls| ==>
                       LayerAt(recs, lex, pos + Offset(ls, k, j), Count(ls[j]), Count(ls[j + 1])).Ok?)
      && (r.Ok? ==> && |r.value.0| == |ws| + Remaining(ls, k) && |r.value.1| == |bs| + Remaining(ls, k)
                    && r.value.0[..|ws|] == ws && r.value.1[..|bs|] == bs
                    && forall j :: k <= j && j + 1 < |ls| ==>
                         LayerAt(recs, lex, pos + Offset(ls, k, j), Count(ls[j]), Count(ls[j + 1]))
                         == Ok((r.value.0[|ws| + (j - k)], r.value.1[|bs| + (j - k)])))
  {
    LayersOk(recs, lex, pos, ls, k, ws, bs);
    LayersValues(recs, lex, pos, ls, k, ws, bs);
  }

  /** The offset of layer j from layer k is that of layer k + 1 plus the records of layer k. */
  lemma OffsetStep(ls: seq<int>, k: nat)
    requires k + 1 < |ls|
    ensures forall j :: k + 1 <= j < |ls| ==> Offset(ls, k, j) == 2 * Count(ls[k + 1]) + Offset(ls, k + 1, j)
  {
  }

  /** Every layer from k on is read, layer j from its offset. */
  predicate LayersRead(recs: seq<seq<string>>, lex: Lexicon, pos: nat, ls: seq<int>, k: nat)
  {
    forall j :: k <= j && j + 1 < |ls| ==> LayerAt(recs, lex, pos + Offset(ls, k, j), Count(ls[j]), Count(ls[j + 1])).Ok?
  }

  /** The layer loop from layer k succeeds exactly when every layer from k on is read. */
  lemma {:induction false} LayersOk(recs: seq<seq<string>>, lex: Lexicon, pos: nat, ls: seq<int>, k: nat,
                                    ws: seq<seq<seq<real>>>, bs: seq<seq<real>>)
    ensures LayersFrom(recs, lex, pos, ls, k, ws, bs).Ok? <==> LayersRead(recs, lex, pos, ls, k)
    decreases |ls| - k
  {
    if k + 1 < |ls| {
      var current := Count(ls[k + 1]);
      var layer := LayerAt(recs, lex, pos, Count(ls[k]), current);
      if layer.Ok? {
        var pos' := pos + 2 * current;
        var ws', bs' := ws + [layer.value.0], bs + [layer.value.1];
        assert LayersFrom(recs, lex, pos, ls, k, ws, bs) == LayersFrom(recs, lex, pos', ls, k + 1, ws', bs');
        LayersOk(recs, lex, pos', ls, k + 1, ws', bs');
        ReadStep(recs, lex, pos, ls, k);
      } else {
        assert LayersFrom(recs, lex, pos, ls, k, ws, bs) == Fail(layer.error);
        assert Offset(ls, k, k) == 0;
        assert !LayerAt(recs, lex, pos + Offset(ls, k, k), Count(ls[k]), Count(ls[k + 1])).Ok?;
      }
    } else {
      assert LayersFrom(recs, lex, pos, ls, k, ws, bs) == Ok((ws, bs));
    }
  }

  /** Once layer k is read, the layers from k on are read exactly when those from k + 1 on are. */
  lemma ReadStep(recs: seq<seq<string>>, lex: Lexicon, pos: nat, ls: seq<int>, k: nat)
    requires k + 1 < |ls| && LayerAt(recs, lex, pos, Count(ls[k]), Count(ls[k + 1])).Ok?
    ensures LayersRead(recs, lex, pos, ls, k) <==> LayersRead(recs, lex, pos + 2 * Count(ls[k + 1]), ls, k + 1)
  {
    var pos' := pos + 2 * Count(ls[k + 1]);
    assert Offset(ls, k, k) == 0;
    OffsetStep(ls, k);
    forall j | k + 1 <= j && j + 1 < |ls| ensures pos + Offset(ls, k, j) == pos' + Offset(ls, k + 1, j) {
    }
  }

  /** What a successful layer loop from layer k returns: the old lists, then one entry per layer read. */
  predicate ValuesFrom(recs: seq<seq<string>>, lex: Lexicon, pos: nat, ls: seq<int>, k: nat,
                       ws: seq<seq<seq<real>>>, bs: seq<seq<real>>, r: Result<(seq<seq<seq<real>>>, seq<seq<real>>), Fault>)
  {
    r.Ok? ==> && |r.value.0| == |ws| + Remaining(ls, k) && |r.value.1| == |bs| + Remaining(ls, k)
              && r.value.0[..|ws|] == ws && r.value.1[..|bs|] == bs
              && forall j :: k <= j && j + 1 < |ls| ==>
                   LayerAt(recs, lex, pos + Offset(ls, k, j), Count(ls[j]), Count(ls[j + 1]))
                   == Ok((r.value.0[|ws| + (j - k)], r.value.1[|bs| + (j - k)]))
  }

  lemma {:induction false} LayersValues(recs: seq<seq<string>>, lex: Lexicon, pos: nat, ls: seq<int>, k: nat,
                                        ws: seq<seq<seq<real>>>, bs: seq<seq<real>>)
    ensures ValuesFrom(recs, lex, pos, ls, k, ws, bs, LayersFrom(recs, lex, pos, ls, k, ws, bs))
    decreases |ls| - k
  {
    if k + 1 < |ls| {
      var current := Count(ls[k + 1]);
      var layer := LayerAt(recs, lex, pos, Count(ls[k]), current);
      if layer.Ok? {
        var ws', bs' := ws + [layer.value.0], bs + [layer.value.1];
        var pos' := pos + 2 * current;
        LayersValues(recs, lex, pos', ls, k + 1, ws', bs');
        assert LayersFrom(recs, lex, pos, ls, k, ws, bs) == LayersFrom(recs, lex, pos', ls, k + 1, ws', bs');
        ValuesStep(recs, lex, pos, ls, k, ws, bs, layer.value, LayersFrom(recs, lex, pos', ls, k + 1, ws', bs'));
      }
    }
  }

  /** Layer k read as `lv`, and the loop from k + 1 on with `lv` appended: the loop from k on. */
  lemma ValuesStep(recs: seq<seq<string>>, lex: Lexicon, pos: nat, ls: seq<int>, k: nat,
                   ws: seq<seq<seq<real>>>, bs: seq<seq<real>>, lv: (seq<seq<real>>, seq<real>),
                   r: Result<(seq<seq<seq<real>>>, seq<seq<real>>), Fault>)
    requires k + 1 < |ls| && LayerAt(recs, lex, pos, Count(ls[k]), Count(ls[k + 1])) == Ok(lv)
    requires ValuesFrom(recs, lex, pos + 2 * Count(ls[k + 1]), ls, k + 1, ws + [lv.0], bs + [lv.1], r)
    ensures ValuesFrom(recs, lex, pos, ls, k, ws, bs, r)
  {
    if r.Ok? {
      var ws', bs' := ws + [lv.0], bs + [lv.1];
      assert r.value.0[..|ws|] == ws'[..|ws|] == ws;
      assert r.value.1[..|bs|] == bs'[..|bs|] == bs;
      forall j | k <= j && j + 1 < |ls|
        ensures LayerAt(recs, lex, pos + Offset(ls, k, j), Count(ls[j]), Count(ls[j + 1]))
             == Ok((r.value.0[|ws| + (j - k)], r.value.1[|bs| + (j - k)]))
      {
        ValueStepAt(recs, lex, pos, ls, k, ws, bs, lv, r, j);
      }
    }
  }

  /** `ValuesStep` for the entry of layer j. */
  lemma ValueStepAt(recs: seq<seq<string>>, lex: Lexicon, pos: nat, ls: seq<int>, k: nat,
                    ws: seq<seq<seq<real>>>, bs: seq<seq<real>>, lv: (seq<seq<real>>, seq<real>),
                    r: Result<(seq<seq<seq<real>>>, seq<seq<real>>), Fault>, j: nat)
    requires k + 1 < |ls| && LayerAt(recs, lex, pos, Count(ls[k]), Count(ls[k + 1])) == Ok(lv)
    requires ValuesFrom(recs, lex, pos + 2 * Count(ls[k + 1]), ls, k + 1, ws + [lv.0], bs + [lv.1], r)
    requires r.Ok? && k <= j && j + 1 < |ls|
    ensures |ws| + (j - k) < |r.value.0| && |bs| + (j - k) < |r.value.1|
    ensures LayerAt(recs, lex, pos + Offset(ls, k, j), Count(ls[j]), Count(ls[j + 1]))
         == Ok((r.value.0[|ws| + (j - k)], r.value.1[|bs| + (j - k)]))
  {
    var ws', bs' := ws + [lv.0], bs + [lv.1];
    var pos' := pos + 2 * Count(ls[k + 1]);
    if j == k {
      assert Offset(ls, k, k) == 0;
      assert r.value.0[|ws|] == r.value.0[..|ws'|][|ws|] == ws'[|ws|];
      assert r.value.1[|bs|] == r.value.1[..|bs'|][|bs|] == bs'[|bs|];
    } else {
      OffsetStep(ls, k);
      assert pos + Offset(ls, k, j) == pos' + Offset(ls, k + 1, j);
      assert |ws| + (j - k) == |ws'| + (j - (k + 1));
      assert |bs| + (j - k) == |bs'| + (j - (k + 1));
    }
  }

  /** A layer's records: `current` weight rows, then `current` biases. */
  lemma LayerAtMeaning(recs: seq<seq<string>>, lex: Lexicon, pos: nat, previous: nat, current: nat)
    ensures var r := LayerAt(recs, lex, pos, previous, current);
      && (r.Ok? <==> (forall p :: pos <= p < pos + current ==> RowAt(recs, lex, p, previous).Ok?)
                     && (forall p :: pos + current <= p < pos + 2 * current ==> BiasAt(recs, lex, p).Ok?))
      && (r.Ok? ==> && |r.value.0| == current && |r.value.1| == current
                    && (forall i :: 0 <= i < current ==> RowAt(recs, lex, pos + i, previous) == Ok(r.value.0[i]))
                    && (forall i :: 0 <= i < current ==> BiasAt(recs, lex, pos + current + i) == Ok(r.value.1[i])))
  {
    RowsMeaning(recs, lex, pos, current, previous, []);
    BiasesMeaning(recs, lex, pos + current, current, []);
    var r := LayerAt(recs, lex, pos, previous, current);
    if r.Ok? {
      forall i | 0 <= i < current ensures RowAt(recs, lex, pos + i, previous) == Ok(r.value.0[i]) {
        var p := pos + i;
        assert RowAt(recs, lex, p, previous) == Ok(r.value.0[0 + (p - pos)]);
      }
      forall i | 0 <= i < current ensures BiasAt(recs, lex, pos + current + i) == Ok(r.value.1[i]) {
        var p := pos + current + i;
        assert BiasAt(recs, lex, p) == Ok(r.value.1[0 + (p - (pos + current))]);
      }
    }
  }

  /** Layer k of the file sits at offset 7 + Offset(ls, 0, k) of the records. */
  lemma LayersLayout(recs: seq<seq<string>>, lex: Lexicon, ls: seq<int>,
                     ws: seq<seq<seq<real>>>, bs: seq<seq<real>>)
    requires LayersFrom(recs, lex, 7, ls, 0, [], []) == Ok((ws, bs))
    ensures |ws| == |bs| == Remaining(ls, 0)
    ensures forall k :: 0 <= k < |ws| ==>
              LayerAt(recs, lex, 7 + Offset(ls, 0, k), Count(ls[k]), Count(ls[k + 1])) == Ok((ws[k], bs[k]))
  {
    LayersMeaning(recs, lex, 7, ls, 0, [], []);
  }

  /**
    * The decoded file, record by record: the header fields, the four input statistics, and for
    * layer k (numLayers of them), the layer read at offset 7 + Offset(layerSizes, 0, k).
    */
  lemma DecodeLayout(recs: seq<seq<string>>, lex: Lexicon, f: NnetFile)
    requires Decode(recs, lex) == Ok(f)
    ensures var header := IntsAt(recs, lex, 0);
      header.Ok? && |header.value| == 4 && header.value[0] == f.numLayers && header.value[1] == f.inputSize
    ensures IntsAt(recs, lex, 1) == Ok(f.layerSizes) && |f.layerSizes| == f.numLayers + 1
    ensures RealsAt(recs, lex, 3) == Ok(f.mins) && RealsAt(recs, lex, 4) == Ok(f.maxs)
    ensures RealsAt(recs, lex, 5) == Ok(f.means) && RealsAt(recs, lex, 6) == Ok(f.ranges)
    ensures |f.weights| == |f.biases| == Remaining(f.layerSizes, 0)
    ensures forall k :: 0 <= k < |f.weights| ==>
              LayerAt(recs, lex, 7 + Offset(f.layerSizes, 0, k), Count(f.layerSizes[k]), Count(f.layerSizes[k + 1]))
              == Ok((f.weights[k], f.biases[k]))
  {
    DecodeParts(recs, lex, f);
    HeaderLayout(recs, lex, f.(weights := [], biases := []));
    LayersLayout(recs, lex, f.layerSizes, f.weights, f.biases);
  }

  /** A decoded file is its header followed by the layers the layer loop reads. */
  lemma DecodeParts(recs: seq<seq<string>>, lex: Lexicon, f: NnetFile)
    requires Decode(recs, lex) == Ok(f)
    ensures HeaderOf(recs, lex) == Ok(f.(weights := [], biases := []))
    ensures LayersFrom(recs, lex, 7, f.layerSizes, 0, [], []) == Ok((f.weights, f.biases))
  {
    var h := HeaderOf(recs, lex);
    assert h.Ok?;
    assert f == h.value.(weights := f.weights, biases := f.biases);
  }

  /** The header records of a file whose header reads as `h`. */
  lemma HeaderLayout(recs: seq<seq<string>>, lex: Lexicon, h: NnetFile)
    requires HeaderOf(recs, lex) == Ok(h)
    ensures IntsAt(recs, lex, 0).Ok? && |IntsAt(recs, lex, 0).value| == 4
    ensures IntsAt(recs, lex, 0).value[0] == h.numLayers && IntsAt(recs, lex, 0).value[1] == h.inputSize
    ensures IntsAt(recs, lex, 1) == Ok(h.layerSizes) && |h.layerSizes| == h.numLayers + 1
    ensures RealsAt(recs, lex, 3) == Ok(h.mins) && RealsAt(recs, lex, 4) == Ok(h.maxs)
    ensures RealsAt(recs, lex, 5) == Ok(h.means) && RealsAt(recs, lex, 6) == Ok(h.ranges)
  {
  }

  // ---------------------------------------------------------------------------
  // Normalisation of the input bounds

  /** A bound moved into the normalised input space. */
  function Standardised(x: real, mean: real, range: real): real
    requires range != 0.0
  {
    (x - mean) / range
  }

  /**
    * Whether pass i of the normalisation loop goes through: it reads `mins[i]`, `maxs[i]` and
    * entry i of `means[:-1]` and `ranges[:-1]`, and divides by the range.
    */
  predicate Normalisable(mins: seq<real>, maxs: seq<real>, means: seq<real>, ranges: seq<real>, i: nat)
  {
    i < |mins| && i < |maxs| && i + 1 < |means| && i + 1 < |ranges| && ranges[i] != 0.0
  }

  /** Passes i, i+1, ..., n-1 of the loop over `range(inputSize)`. */
  function NormaliseFrom(mins: seq<real>, maxs: seq<real>, means: seq<real>, ranges: seq<real>, n: int, i: nat)
    : Result<(seq<real>, seq<real>), Fault>
    decreases n - i
  {
    if n <= i then Ok((mins, maxs))
    else if i >= |mins| || i + 1 >= |means| || i + 1 >= |ranges| then Fail(IndexOutOfRange)
    else if ranges[i] == 0.0 then Fail(DegenerateEquation)
    else if i >= |maxs| then Fail(IndexOutOfRange)
    else
      NormaliseFrom(mins[i := Standardised(mins[i], means[i], ranges[i])],
                    maxs[i := Standardised(maxs[i], means[i], ranges[i])], means, ranges, n, i + 1)
  }

  /** Lines 64-66 of the importer: both bound lists are overwritten in place. */
  method Normalise(mins: seq<real>, maxs: seq<real>, means: seq<real>, ranges: seq<real>, inputSize: int)
    returns (res: Result<(seq<real>, seq<real>), Fault>)
    ensures res == NormaliseFrom(mins, maxs, means, ranges, inputSize, 0)
  {
    var lo, hi := mins, maxs;
    var i: nat := 0;
    while i < inputSize
      invariant NormaliseFrom(lo, hi, means, ranges, inputSize, i) == NormaliseFrom(mins, maxs, means, ranges, inputSize, 0)
      decreases inputSize - i
    {
      if i >= |lo| || i >= |means| - 1 || i >= |ranges| - 1 {
        return Fail(IndexOutOfRange);
      }
      if ranges[i] == 0.0 {
        return Fail(DegenerateEquation);
      }
      lo := lo[i := (lo[i] - means[i]) / ranges[i]];
      if i >= |hi| {
        return Fail(IndexOutOfRange);
      }
      hi := hi[i := (hi[i] - means[i]) / ranges[i]];
      i := i + 1;
    }
    res := Ok((lo, hi));
  }

  /**
    * The normalisation succeeds exactly when every pass below inputSize can read its four
    * entries and divide; it then rewrites entries 0 .. inputSize-1 of both lists and keeps the rest.
    */
  lemma {:induction false} NormaliseMeaning(mins: seq<real>, maxs: seq<real>, means: seq<real>, ranges: seq<real>,
                                            n: int, i: nat)
    ensures var r := NormaliseFrom(mins, maxs, means, ranges, n, i);
      && (r.Ok? <==> forall j :: i <= j < n ==> Normalisable(mins, maxs, means, ranges, j))
      && (r.Fail? ==> r.error == IndexOutOfRange || r.error == DegenerateEquation)
      && (r.Fail? && r.error == DegenerateEquation ==> exists j :: i <= j < n && j < |ranges| && ranges[j] == 0.0)
      && (r.Ok? ==> && |r.value.0| == |mins| && |r.value.1| == |maxs|
                    && (forall j :: i <= j < n ==>
                          && Normalisable(mins, maxs, means, ranges, j)
                          && r.value.0[j] == Standardised(mins[j], means[j], ranges[j])
                          && r.value.1[j] == Standardised(maxs[j], means[j], ranges[j]))
                    && (forall j :: 0 <= j < |mins| && !(i <= j < n) ==> r.value.0[j] == mins[j])
                    && (forall j :: 0 <= j < |maxs| && !(i <= j < n) ==> r.value.1[j] == maxs[j]))
    decreases n - i
  {
    if i < n && Normalisable(mins, maxs, means, ranges, i) {
      var lo := mins[i := Standardised(mins[i], means[i], ranges[i])];
      var hi := maxs[i := Standardised(maxs[i], means[i], ranges[i])];
      NormaliseMeaning(lo, hi, means, ranges, n, i + 1);
      assert forall j :: i + 1 <= j < n ==> (Normalisable(lo, hi, means, ranges, j) <==> Normalisable(mins, maxs, means, ranges, j));
    }
  }

  // ---------------------------------------------------------------------------
  // Building the network

  /** `"nnet{}_".format(NNET_COUNTER)`: the prefix of every node name of one import. */
  function Prefix(counter: nat): string
  {
    "nnet" + Text.Digits(counter) + "_"
  }

  /** `prefix + "{:02}_{:02}".format(l, n)`. */
  function NodeName(prefix: string, l: nat, n: nat): string
  {
    prefix + Text.Pad(Text.Digits(l), 2) + "_" + Text.Pad(Text.Digits(n), 2)
  }

  /** The name of neuron n of layer l in the import numbered `counter`, before any suffix. */
  function Naming(counter: nat): (nat, nat) -> string
  {
    (l: nat, n: nat) => NodeName(Prefix(counter), l, n)
  }

  /** `list(zip(ws, hs))`: pairs up to the shorter of the two lists. */
  function Zip(ws: seq<real>, hs: seq<Handle>): (r: seq<Term>)
    ensures |r| == if |ws| < |hs| then |ws| else |hs|
    ensures forall i :: 0 <= i < |r| ==> r[i] == (ws[i], hs[i])
  {
    seq(if |ws| < |hs| then |ws| else |hs|, i requires 0 <= i < |ws| && 0 <= i < |hs| => (ws[i], hs[i]))
  }

  /** `[[] for _ in range(n)]`. */
  function NoLayers(n: int): (r: Layers)
    ensures |r| == Count(n) && forall j :: 0 <= j < |r| ==> r[j] == []
  {
    seq(Count(n), _ => [])
  }

  /** Input i: a plain node named for position (0, i) whose interval is [lo, hi]. */
  function InputNode(name: (nat, nat) -> string, i: nat, lo: real, hi: real): Node
  {
    Node(Plain, Limit(Some(lo), Some(hi)), Some(name(0, i)))
  }

  /** Neuron c of layer l: the weighted sum of the previous layer's outputs plus the bias. */
  function SumNode(name: (nat, nat) -> string, l: nat, c: nat, ws: seq<real>, prev: seq<Handle>, b: real, last: bool): Node
  {
    Node(Sum(Zip(ws, prev), b), Unbounded, Some(if last then name(l, c) else name(l, c) + "_b"))
  }

  /** The activation of neuron c of a hidden layer l, reading the sum `sum`, bounded below by 0. */
  function ReluNode(name: (nat, nat) -> string, l: nat, c: nat, sum: Handle): Node
  {
    Node(ReLU(sum, false), Limit(Some(0.0), None), Some(name(l, c) + "_f"))
  }

  /**
    * Passes i, i+1, ... of the input loop: the arena after them (a failing pass has already
    * created its node) and the layers, or the error that ended the loop.
    */
  function InputsFrom(A: seq<Node>, L: Layers, mins: seq<real>, maxs: seq<real>, name: (nat, nat) -> string, i: nat)
    : (r: (seq<Node>, Result<Layers, Fault>))
    ensures r.1.Ok? ==> |r.1.value| == |L|
    ensures r.1.Ok? && NonEmptyChains(L) ==> NonEmptyChains(r.1.value)
    decreases |mins| - i
  {
    if i >= |mins| || i >= |maxs| then (A, Ok(L))
    else
      var A' := A + [InputNode(name, i, mins[i], maxs[i])];
      if mins[i] > maxs[i] then (A', Fail(InvalidBounds))
      else if |L| == 0 then (A', Fail(IndexOutOfRange))
      else InputsFrom(A', L[0 := L[0] + [[|A|]]], mins, maxs, name, i + 1)
  }

  /**
    * Passes c, c+1, ... of the neuron loop of layer l, given the rows `ws` and biases `bs`
    * of its weights and the outputs `prev` of the layer before.
    */
  function ChainsFrom(A: seq<Node>, L: Layers, l: nat, ws: seq<seq<real>>, bs: seq<real>, prev: seq<Handle>,
                      last: bool, name: (nat, nat) -> string, c: nat): (r: (seq<Node>, Layers))
    requires l < |L|
    ensures |r.1| == |L|
    ensures NonEmptyChains(L) ==> NonEmptyChains(r.1)
    decreases |ws| - c
  {
    if c >= |ws| || c >= |bs| then (A, L)
    else
      var sum := SumNode(name, l, c, ws[c], prev, bs[c], last);
      if last then ChainsFrom(A + [sum], L[l := L[l] + [[|A|]]], l, ws, bs, prev, last, name, c + 1)
      else
        ChainsFrom(A + [sum, ReluNode(name, l, c, |A|)], L[l := L[l] + [[|A|, |A| + 1]]],
                   l, ws, bs, prev, last, name, c + 1)
  }

  /** Passes l, l+1, ... of the layer loop, which pairs layer l with `weights[l-1]` and `biases[l-1]`. */
  function BuildFrom(A: seq<Node>, L: Layers, weights: seq<seq<seq<real>>>, biases: seq<seq<real>>,
                     name: (nat, nat) -> string, l: nat): (r: (seq<Node>, Layers))
    requires 1 <= l && NonEmptyChains(L)
    requires |weights| < |L| || weights == []
    ensures |r.1| == |L| && NonEmptyChains(r.1)
    decreases |weights| - l
  {
    if l > |weights| || l > |biases| then (A, L)
    else
      var (A', L') := ChainsFrom(A, L, l, weights[l - 1], biases[l - 1], Outputs(L[l - 1]), l == |L| - 1, name, 0);
      BuildFrom(A', L', weights, biases, name, l + 1)
  }

  /** Everything after the last `read()`: normalisation, the input layer, then the other layers. */
  function Build(A: seq<Node>, f: NnetFile, name: (nat, nat) -> string): (r: (seq<Node>, Result<Layers, Fault>))
    requires |f.weights| < |f.layerSizes| || f.weights == []
  {
    match NormaliseFrom(f.mins, f.maxs, f.means, f.ranges, f.inputSize, 0)
    case Fail(e) => (A, Fail(e))
    case Ok((lo, hi)) =>
      var L := NoLayers(|f.layerSizes|);
      match InputsFrom(A, L, lo, hi, name, 0)
      case (A', Fail(e)) => (A', Fail(e))
      case (A', Ok(L')) =>
        var (A'', L'') := BuildFrom(A', L', f.weights, f.biases, name, 1);
        (A'', Ok(L''))
  }

  /** `import_nnet(filename)`, on the lines of the file: the arena afterwards and the layers built. */
  function Import(A: seq<Node>, lines: seq<string>, counter: nat): (seq<Node>, Result<Layers, Fault>)
  {
    var recs := Records(lines, Python);
    match Decode(recs, Python)
    case Fail(e) => (A, Fail(e))
    case Ok(f) =>
      DecodeLayout(recs, Python, f);
      Build(A, f, Naming(counter))
  }

  // ---------------------------------------------------------------------------
  // Building, as the source does it

  /** The input loop: one named, bounded plain node per input, each its own chain of layer 0. */
  method BuildInputs(g: Graph, layers: Layers, mins: seq<real>, maxs: seq<real>, name: (nat, nat) -> string)
    returns (res: Result<Layers, Fault>)
    modifies g
    ensures (g.nodes, res) == InputsFrom(old(g.nodes), layers, mins, maxs, name, 0)
  {
    var L := layers;
    var i: nat := 0;
    while i < |mins| && i < |maxs|
      invariant InputsFrom(g.nodes, L, mins, maxs, name, i) == InputsFrom(old(g.nodes), layers, mins, maxs, name, 0)
      decreases |mins| - i
    {
      label Step:
      var n := g.Add(Node(Plain, Unbounded, None));
      g.SetName(n, Some(name(0, i)));
      var ok := g.UpdateLimit(n, Some(mins[i]), Some(maxs[i]));
      assert g.nodes == old@Step(g.nodes) + [InputNode(name, i, mins[i], maxs[i])];
      if !ok {
        return Fail(InvalidBounds);
      }
      if |L| == 0 {
        return Fail(IndexOutOfRange);
      }
      L := L[0 := L[0] + [[n]]];
      i := i + 1;
    }
    res := Ok(L);
  }

  /** The neuron loop of layer l: a sum per neuron, followed by a ReLU unless l is the output layer. */
  method BuildChains(g: Graph, layers: Layers, l: nat, ws: seq<seq<real>>, bs: seq<real>, prev: seq<Handle>,
                     last: bool, name: (nat, nat) -> string) returns (L: Layers)
    requires l < |layers|
    modifies g
    ensures (g.nodes, L) == ChainsFrom(old(g.nodes), layers, l, ws, bs, prev, last, name, 0)
  {
    L := layers;
    var c: nat := 0;
    while c < |ws| && c < |bs|
      invariant |L| == |layers|
      invariant ChainsFrom(g.nodes, L, l, ws, bs, prev, last, name, c)
                == ChainsFrom(old(g.nodes), layers, l, ws, bs, prev, last, name, 0)
      decreases |ws| - c
    {
      label Step:
      var base := name(l, c);
      var n := g.Add(Node(Sum(Zip(ws[c], prev), bs[c]), Unbounded, None));
      if !last {
        g.SetName(n, Some(base + "_b"));
        var nr := g.Add(Node(ReLU(n, false), Unbounded, None));
        g.SetName(nr, Some(base + "_f"));
        var _ := g.UpdateLimit(nr, Some(0.0), None);
        assert g.nodes == old@Step(g.nodes) + [SumNode(name, l, c, ws[c], prev, bs[c], last), ReluNode(name, l, c, n)];
        L := L[l := L[l] + [[n, nr]]];
      } else {
        g.SetName(n, Some(base));
        assert g.nodes == old@Step(g.nodes) + [SumNode(name, l, c, ws[c], prev, bs[c], last)];
        L := L[l := L[l] + [[n]]];
      }
      c := c + 1;
    }
  }

  /** The layer loop: layer l reads the last node of every chain of layer l - 1. */
  method BuildLayers(g: Graph, layers: Layers, weights: seq<seq<seq<real>>>, biases: seq<seq<real>>, name: (nat, nat) -> string)
    returns (L: Layers)
    requires NonEmptyChains(layers)
    requires |weights| < |layers| || weights == []
    modifies g
    ensures (g.nodes, L) == BuildFrom(old(g.nodes), layers, weights, biases, name, 1)
  {
    L := layers;
    var l: nat := 1;
    while l <= |weights| && l <= |biases|
      invariant 1 <= l && |L| == |layers| && NonEmptyChains(L)
      invariant BuildFrom(g.nodes, L, weights, biases, name, l) == BuildFrom(old(g.nodes), layers, weights, biases, name, 1)
      decreases |weights| - l
    {
      var lastLayerOutputs := Outputs(L[l - 1]);
      var lastLayer := l == |L| - 1;
      L := BuildChains(g, L, l, weights[l - 1], biases[l - 1], lastLayerOutputs, lastLayer, name);
      l := l + 1;
    }
  }

  /**
    * `import_nnet`: reads the file, normalises the input bounds and builds the network in
    * the arena. On failure the nodes already created stay in the arena.
    */
  method ImportNnet(g: Graph, lines: seq<string>, counter: nat) returns (res: Result<Network, Fault>)
    modifies g
    ensures g.nodes == Import(old(g.nodes), lines, counter).0
    ensures res.Ok? <==> Import(old(g.nodes), lines, counter).1.Ok?
    ensures res.Ok? ==> fresh(res.value) && res.value.layers == Import(old(g.nodes), lines, counter).1.value
    ensures res.Fail? ==> res.error == Import(old(g.nodes), lines, counter).1.error
    ensures res.Ok? ==> res.value.Sane(g)
  {
    ghost var q := Import(g.nodes, lines, counter);
    var reader := new LineReader(lines);
    var file := ReadFile(reader, Python);
    if file.Fail? {
      assert q == (g.nodes, Fail(file.error));
      return Fail(file.error);
    }
    var f := file.value;
    ImportDecoded(g.nodes, lines, counter, f);
    var bounds := Normalise(f.mins, f.maxs, f.means, f.ranges, f.inputSize);
    if bounds.Fail? {
      assert q == (g.nodes, Fail(bounds.error));
      return Fail(bounds.error);
    }
    var (lo, hi) := bounds.value;
    ghost var A0 := g.nodes;
    var layers := BuildInputs(g, NoLayers(|f.layerSizes|), lo, hi, Naming(counter));
    BuildNormalised(A0, f, Naming(counter), lo, hi, g.nodes, layers);
    if layers.Fail? {
      return Fail(layers.error);
    }
    var L := BuildLayers(g, layers.value, f.weights, f.biases, Naming(counter));
    assert q == (g.nodes, Ok(L));
    ImportSane(old(g.nodes), lines, counter);
    var net := new Network(L);
    return Ok(net);
  }

  /** Once the file is decoded, the import is the build of what was decoded. */
  lemma ImportDecoded(A: seq<Node>, lines: seq<string>, counter: nat, f: NnetFile)
    requires Decode(Records(lines, Python), Python) == Ok(f)
    ensures |f.weights| < |f.layerSizes| || f.weights == []
    ensures Import(A, lines, counter) == Build(A, f, Naming(counter))
  {
    DecodeLayout(Records(lines, Python), Python, f);
  }

  /** Once the bounds are normalised, the build is the input loop followed by the layer loop. */
  lemma BuildNormalised(A: seq<Node>, f: NnetFile, name: (nat, nat) -> string, lo: seq<real>, hi: seq<real>,
                        A1: seq<Node>, r1: Result<Layers, Fault>)
    requires |f.weights| < |f.layerSizes| || f.weights == []
    requires NormaliseFrom(f.mins, f.maxs, f.means, f.ranges, f.inputSize, 0) == Ok((lo, hi))
    requires InputsFrom(A, NoLayers(|f.layerSizes|), lo, hi, name, 0) == (A1, r1)
    ensures r1.Fail? ==> Build(A, f, name) == (A1, Fail(r1.error))
    ensures r1.Ok? ==> && NonEmptyChains(r1.value) && (|f.weights| < |r1.value| || f.weights == [])
                       && Build(A, f, name) == (BuildFrom(A1, r1.value, f.weights, f.biases, name, 1).0,
                                                Ok(BuildFrom(A1, r1.value, f.weights, f.biases, name, 1).1))
  {
  }

  // ---------------------------------------------------------------------------
  // What the builder builds

  function Min(a: int, b: int): int
  {
    if a < b then a else b
  }

  /** The input loop only appends to the arena. */
  lemma {:induction false} InputsGrow(A: seq<Node>, L: Layers, mins: seq<real>, maxs: seq<real>, name: (nat, nat) -> string, i: nat)
    ensures var r := InputsFrom(A, L, mins, maxs, name, i); |A| <= |r.0| && r.0[..|A|] == A
    decreases |mins| - i
  {
    if i < |mins| && i < |maxs| && mins[i] <= maxs[i] && |L| > 0 {
      var A' := A + [InputNode(name, i, mins[i], maxs[i])];
      InputsGrow(A', L[0 := L[0] + [[|A|]]], mins, maxs, name, i + 1);
      var r := InputsFrom(A', L[0 := L[0] + [[|A|]]], mins, maxs, name, i + 1);
      assert r.0[..|A|] == r.0[..|A'|][..|A|];
    }
  }

  /**
    * The input loop runs to the end exactly when every pair of bounds it reaches is ordered
    * and, if it reaches any, there is a layer 0 to put them in; otherwise it stops with the
    * error of the first pass that fails.
    */
  lemma {:induction false} InputsOutcome(A: seq<Node>, L: Layers, mins: seq<real>, maxs: seq<real>, name: (nat, nat) -> string, i: nat)
    ensures var r := InputsFrom(A, L, mins, maxs, name, i).1; var m := Min(|mins|, |maxs|);
      && (r.Ok? <==> (forall j :: i <= j < m ==> mins[j] <= maxs[j]) && (i < m ==> |L| > 0))
      && (r.Fail? ==> (r.error == InvalidBounds && exists j :: i <= j < m && mins[j] > maxs[j])
                      || (r.error == IndexOutOfRange && |L| == 0))
    decreases |mins| - i
  {
    if i < Min(|mins|, |maxs|) && mins[i] <= maxs[i] && |L| > 0 {
      InputsOutcome(A + [InputNode(name, i, mins[i], maxs[i])], L[0 := L[0] + [[|A|]]], mins, maxs, name, i + 1);
    }
  }

  /**
    * When it runs to the end, input j is a plain node named for (0, j) with the interval
    * [mins[j], maxs[j]], and layer 0 gains it as the one-node chain [|A| + j - i].
    */
  lemma {:induction false} InputsLayout(A: seq<Node>, L: Layers, mins: seq<real>, maxs: seq<real>, name: (nat, nat) -> string, i: nat)
    requires i <= |mins| && i <= |maxs|
    requires InputsFrom(A, L, mins, maxs, name, i).1.Ok?
    ensures var r := InputsFrom(A, L, mins, maxs, name, i); var m := Min(|mins|, |maxs|);
      && |r.0| == |A| + (m - i)
      && (forall j :: i <= j < m ==> r.0[|A| + (j - i)] == InputNode(name, j, mins[j], maxs[j]))
      && (forall k :: 0 < k < |L| ==> r.1.value[k] == L[k])
      && (i < m ==> && |r.1.value[0]| == |L[0]| + (m - i) && r.1.value[0][..|L[0]|] == L[0]
                    && forall p :: |L[0]| <= p < |r.1.value[0]| ==> r.1.value[0][p] == [|A| + (p - |L[0]|)])
      && (m <= i ==> r.1.value == L)
    decreases |mins| - i
  {
    var m := Min(|mins|, |maxs|);
    if i < m {
      var A' := A + [InputNode(name, i, mins[i], maxs[i])];
      var L' := L[0 := L[0] + [[|A|]]];
      InputsLayout(A', L', mins, maxs, name, i + 1);
      InputsGrow(A', L', mins, maxs, name, i + 1);
      var r := InputsFrom(A', L', mins, maxs, name, i + 1);
      assert r.0[|A|] == A'[|A|];
      if i + 1 < m {
        assert r.1.value[0][..|L[0]|] == r.1.value[0][..|L'[0]|][..|L[0]|];
      }
    }
  }

  /** The input loop appends fresh, unconnected nodes to layer 0: the network stays feed-forward. */
  lemma {:induction false} InputsLayered(A: seq<Node>, L: Layers, mins: seq<real>, maxs: seq<real>, name: (nat, nat) -> string, i: nat)
    requires Layered(L, A) && Distinct(L)
    requires forall k :: 0 < k < |L| ==> L[k] == []
    ensures var r := InputsFrom(A, L, mins, maxs, name, i);
      r.1.Ok? ==> Layered(r.1.value, r.0) && Distinct(r.1.value) && forall k :: 0 < k < |L| ==> r.1.value[k] == []
    decreases |mins| - i
  {
    if i < |mins| && i < |maxs| && mins[i] <= maxs[i] && |L| > 0 {
      var A' := A + [InputNode(name, i, mins[i], maxs[i])];
      var ch := [|A|];
      AppendChainLayered(L, A, 0, ch, A');
      AppendChainDistinct(L, |A|, 0, ch);
      InputsLayered(A', L[0 := L[0] + [ch]], mins, maxs, name, i + 1);
    }
  }

  /** The handles of the q-th chain the neuron loop creates from an arena of size `base`. */
  function ChainAt(base: nat, q: nat, last: bool): (ch: Chain)
    ensures |ch| == if last then 1 else 2
  {
    if last then [base + q] else [base + 2 * q, base + 2 * q + 1]
  }

  /** The neuron loop only appends: to the arena, and to layer l, leaving every other layer alone. */
  lemma {:induction false} ChainsGrow(A: seq<Node>, L: Layers, l: nat, ws: seq<seq<real>>, bs: seq<real>, prev: seq<Handle>,
                                      last: bool, name: (nat, nat) -> string, c: nat)
    requires l < |L|
    ensures var r := ChainsFrom(A, L, l, ws, bs, prev, last, name, c);
      && |A| <= |r.0| && r.0[..|A|] == A
      && (forall j :: 0 <= j < |L| && j != l ==> r.1[j] == L[j])
      && |L[l]| <= |r.1[l]| && r.1[l][..|L[l]|] == L[l]
    decreases |ws| - c
  {
    if c < |ws| && c < |bs| {
      var sum := SumNode(name, l, c, ws[c], prev, bs[c], last);
      var A' := if last then A + [sum] else A + [sum, ReluNode(name, l, c, |A|)];
      var L' := L[l := L[l] + [ChainAt(|A|, 0, last)]];
      assert ChainsFrom(A, L, l, ws, bs, prev, last, name, c) == ChainsFrom(A', L', l, ws, bs, prev, last, name, c + 1);
      ChainsGrow(A', L', l, ws, bs, prev, last, name, c + 1);
      var r := ChainsFrom(A', L', l, ws, bs, prev, last, name, c + 1);
      assert r.0[..|A|] == r.0[..|A'|][..|A|];
      assert r.1[l][..|L[l]|] == r.1[l][..|L'[l]|][..|L[l]|];
    }
  }

  /**
    * The neuron loop from pass c on: chain q of those it appends to layer l is `ChainAt(|A|, q)`,
    * whose first node is the sum of neuron c + q and, unless l is the output layer, whose second
    * node is the ReLU reading that sum.
    */
  lemma {:induction false} ChainsLayout(A: seq<Node>, L: Layers, l: nat, ws: seq<seq<real>>, bs: seq<real>, prev: seq<Handle>,
                                        last: bool, name: (nat, nat) -> string, c: nat)
    requires l < |L| && c <= |ws| && c <= |bs|
    ensures var r := ChainsFrom(A, L, l, ws, bs, prev, last, name, c); var m := Min(|ws|, |bs|) - c;
      && |r.0| == |A| + (if last then m else 2 * m)
      && |r.1[l]| == |L[l]| + m
      && (forall p :: |L[l]| <= p < |r.1[l]| ==> r.1[l][p] == ChainAt(|A|, p - |L[l]|, last))
      && (forall q :: 0 <= q < m ==>
            var ch := ChainAt(|A|, q, last);
            && r.0[ch[0]] == SumNode(name, l, c + q, ws[c + q], prev, bs[c + q], last)
            && (!last ==> r.0[ch[1]] == ReluNode(name, l, c + q, ch[0])))
  {
    ChainsSizes(A, L, l, ws, bs, prev, last, name, c);
    ChainsHandles(A, L, l, ws, bs, prev, last, name, c);
    ChainsNodes(A, L, l, ws, bs, prev, last, name, c);
    var r := ChainsFrom(A, L, l, ws, bs, prev, last, name, c);
    forall q | 0 <= q < Min(|ws|, |bs|) - c
      ensures var ch := ChainAt(|A|, q, last);
        && r.0[ch[0]] == SumNode(name, l, c + q, ws[c + q], prev, bs[c + q], last)
        && (!last ==> r.0[ch[1]] == ReluNode(name, l, c + q, ch[0]))
    {
      assert NeuronAt(r.0, ChainAt(|A|, q, last), name, l, c + q, ws[c + q], prev, bs[c + q], last);
    }
  }

  /** The neuron loop from pass c on appends one chain per remaining neuron, of one or two nodes. */
  lemma {:induction false} ChainsSizes(A: seq<Node>, L: Layers, l: nat, ws: seq<seq<real>>, bs: seq<real>, prev: seq<Handle>,
                                       last: bool, name: (nat, nat) -> string, c: nat)
    requires l < |L| && c <= |ws| && c <= |bs|
    ensures var r := ChainsFrom(A, L, l, ws, bs, prev, last, name, c); var m := Min(|ws|, |bs|) - c;
      && |r.0| == |A| + (if last then m else 2 * m)
      && |r.1[l]| == |L[l]| + m
    decreases |ws| - c
  {
    if c < |ws| && c < |bs| {
      var sum := SumNode(name, l, c, ws[c], prev, bs[c], last);
      var A' := if last then A + [sum] else A + [sum, ReluNode(name, l, c, |A|)];
      var L' := L[l := L[l] + [ChainAt(|A|, 0, last)]];
      assert ChainsFrom(A, L, l, ws, bs, prev, last, name, c) == ChainsFrom(A', L', l, ws, bs, prev, last, name, c + 1);
      ChainsSizes(A', L', l, ws, bs, prev, last, name, c + 1);
    }
  }

  /** The chains the neuron loop appends to layer l are `ChainAt(|A|, 0)`, `ChainAt(|A|, 1)`, ... */
  lemma {:induction false} ChainsHandles(A: seq<Node>, L: Layers, l: nat, ws: seq<seq<real>>, bs: seq<real>, prev: seq<Handle>,
                                         last: bool, name: (nat, nat) -> string, c: nat)
    requires l < |L| && c <= |ws| && c <= |bs|
    ensures forall p :: |L[l]| <= p < |ChainsFrom(A, L, l, ws, bs, prev, last, name, c).1[l]| ==>
              ChainsFrom(A, L, l, ws, bs, prev, last, name, c).1[l][p] == ChainAt(|A|, p - |L[l]|, last)
    decreases |ws| - c
  {
    if c < |ws| && c < |bs| {
      var sum := SumNode(name, l, c, ws[c], prev, bs[c], last);
      var A', L';
      if last {
        A', L' := A + [sum], L[l := L[l] + [[|A|]]];
      } else {
        A', L' := A + [sum, ReluNode(name, l, c, |A|)], L[l := L[l] + [[|A|, |A| + 1]]];
      }
      assert ChainsFrom(A, L, l, ws, bs, prev, last, name, c) == ChainsFrom(A', L', l, ws, bs, prev, last, name, c + 1);
      assert L'[l] == L[l] + [ChainAt(|A|, 0, last)];
      ChainsHandles(A', L', l, ws, bs, prev, last, name, c + 1);
      ChainsGrow(A', L', l, ws, bs, prev, last, name, c + 1);
      var r := ChainsFrom(A', L', l, ws, bs, prev, last, name, c + 1);
      assert |A'| == |A| + (if last then 1 else 2);
      ChainsShift(r.1[l], L[l], |A|, last);
    }
  }

  /** One more chain in front: the chains after `Ll + [ChainAt(a, 0)]` continue from the next free handle. */
  lemma ChainsShift(row: seq<Chain>, Ll: seq<Chain>, a: nat, last: bool)
    requires |Ll| + 1 <= |row| && row[..|Ll| + 1] == Ll + [ChainAt(a, 0, last)]
    requires forall p :: |Ll| + 1 <= p < |row| ==> row[p] == ChainAt(a + (if last then 1 else 2), p - (|Ll| + 1), last)
    ensures forall p :: |Ll| <= p < |row| ==> row[p] == ChainAt(a, p - |Ll|, last)
  {
    forall p | |Ll| <= p < |row| ensures row[p] == ChainAt(a, p - |Ll|, last) {
      if p == |Ll| {
        assert row[p] == row[..|Ll| + 1][p];
      }
    }
  }

  /** Chain `ch` of arena `R` holds the sum of neuron n of layer l and, unless l is the last layer, its ReLU. */
  predicate NeuronAt(R: seq<Node>, ch: Chain, name: (nat, nat) -> string, l: nat, n: nat, w: seq<real>, prev: seq<Handle>,
                     b: real, last: bool)
  {
    && |ch| == (if last then 1 else 2) && ch[0] < |R|
    && R[ch[0]] == SumNode(name, l, n, w, prev, b, last)
    && (!last ==> ch[1] < |R| && R[ch[1]] == ReluNode(name, l, n, ch[0]))
  }

  /** Chain q of those appended to an arena of |A| nodes holds the sum of neuron c + q and its ReLU. */
  predicate NeuronsFrom(A: seq<Node>, B: seq<Node>, l: nat, ws: seq<seq<real>>, bs: seq<real>, prev: seq<Handle>,
                        last: bool, name: (nat, nat) -> string, c: nat)
  {
    forall q :: 0 <= q < Min(|ws|, |bs|) - c ==>
      NeuronAt(B, ChainAt(|A|, q, last), name, l, c + q, ws[c + q], prev, bs[c + q], last)
  }

  /** Chain q of those the neuron loop appends holds the sum of neuron c + q and its ReLU. */
  lemma {:induction false} ChainsNodes(A: seq<Node>, L: Layers, l: nat, ws: seq<seq<real>>, bs: seq<real>, prev: seq<Handle>,
                                       last: bool, name: (nat, nat) -> string, c: nat)
    requires l < |L| && c <= |ws| && c <= |bs|
    ensures NeuronsFrom(A, ChainsFrom(A, L, l, ws, bs, prev, last, name, c).0, l, ws, bs, prev, last, name, c)
    decreases |ws| - c
  {
    if c < |ws| && c < |bs| {
      var sum := SumNode(name, l, c, ws[c], prev, bs[c], last);
      var A' := if last then A + [sum] else A + [sum, ReluNode(name, l, c, |A|)];
      var L' := L[l := L[l] + [ChainAt(|A|, 0, last)]];
      assert ChainsFrom(A, L, l, ws, bs, prev, last, name, c) == ChainsFrom(A', L', l, ws, bs, prev, last, name, c + 1);
      ChainsNodes(A', L', l, ws, bs, prev, last, name, c + 1);
      ChainsGrow(A', L', l, ws, bs, prev, last, name, c + 1);
      NeuronsStep(A, A', ChainsFrom(A', L', l, ws, bs, prev, last, name, c + 1).0, l, ws, bs, prev, last, name, c);
    }
  }

  /** Neuron c appended to A as A', then the neurons after it: the neurons from c on. */
  lemma NeuronsStep(A: seq<Node>, A': seq<Node>, B: seq<Node>, l: nat, ws: seq<seq<real>>, bs: seq<real>,
                    prev: seq<Handle>, last: bool, name: (nat, nat) -> string, c: nat)
    requires c < |ws| && c < |bs|
    requires A' == if last then A + [SumNode(name, l, c, ws[c], prev, bs[c], last)]
                   else A + [SumNode(name, l, c, ws[c], prev, bs[c], last), ReluNode(name, l, c, |A|)]
    requires |A'| <= |B| && B[..|A'|] == A'
    requires NeuronsFrom(A', B, l, ws, bs, prev, last, name, c + 1)
    ensures NeuronsFrom(A, B, l, ws, bs, prev, last, name, c)
  {
    forall q | 0 <= q < Min(|ws|, |bs|) - c
      ensures NeuronAt(B, ChainAt(|A|, q, last), name, l, c + q, ws[c + q], prev, bs[c + q], last)
    {
      if q == 0 {
        assert B[|A|] == B[..|A'|][|A|];
        if !last {
          assert B[|A| + 1] == B[..|A'|][|A| + 1];
        }
      } else {
        assert ChainAt(|A'|, q - 1, last) == ChainAt(|A|, q, last);
        assert NeuronAt(B, ChainAt(|A'|, q - 1, last), name, l, (c + 1) + (q - 1), ws[c + q], prev, bs[c + q], last);
      }
    }
  }

  /** A sum over `list(zip(ws, prev))` reads only nodes of `prev`. */
  lemma SumReads(ws: seq<real>, prev: seq<Handle>, b: real, r: Handle)
    requires r in ConnectedTo(Sum(Zip(ws, prev), b))
    ensures r in prev
  {
    var ts := Zip(ws, prev);
    var i :| 0 <= i < |TermNodes(ts)| && TermNodes(ts)[i] == r;
    assert ts[i] == (ws[i], prev[i]);
  }

  /** One pass of the neuron loop keeps the network feed-forward and free of repeated nodes. */
  lemma ChainStepLayered(A: seq<Node>, L: Layers, l: nat, w: seq<real>, b: real, prev: seq<Handle>,
                         last: bool, name: (nat, nat) -> string, c: nat)
    requires 1 <= l < |L| && Layered(L, A) && Distinct(L)
    requires forall j :: l < j < |L| ==> L[j] == []
    requires forall h :: h in prev ==> h in Lasts(L[l - 1])
    ensures var sum := SumNode(name, l, c, w, prev, b, last);
      var A' := if last then A + [sum] else A + [sum, ReluNode(name, l, c, |A|)];
      var L' := L[l := L[l] + [ChainAt(|A|, 0, last)]];
      Layered(L', A') && Distinct(L')
  {
    var sum := SumNode(name, l, c, w, prev, b, last);
    var A' := if last then A + [sum] else A + [sum, ReluNode(name, l, c, |A|)];
    var ch := ChainAt(|A|, 0, last);
    var L' := L[l := L[l] + [ch]];
    assert L'[l - 1] == L[l - 1];
    forall k, r | 0 <= k < |ch| && r in ConnectedTo(A'[ch[k]].kind) ensures r in Allowed(L', l, |L[l]|, k) {
      if k == 0 {
        SumReads(w, prev, b, r);
      }
    }
    AppendChainLayered(L, A, l, ch, A');
    AppendChainDistinct(L, |A|, l, ch);
  }

  /**
    * The neuron loop of layer l keeps the network feed-forward and free of repeated nodes,
    * provided `prev` holds outputs of layer l - 1 and no later layer has been started.
    */
  lemma {:induction false} ChainsLayered(A: seq<Node>, L: Layers, l: nat, ws: seq<seq<real>>, bs: seq<real>, prev: seq<Handle>,
                                         last: bool, name: (nat, nat) -> string, c: nat)
    requires 1 <= l < |L| && Layered(L, A) && Distinct(L)
    requires forall j :: l < j < |L| ==> L[j] == []
    requires forall h :: h in prev ==> h in Lasts(L[l - 1])
    ensures var r := ChainsFrom(A, L, l, ws, bs, prev, last, name, c); Layered(r.1, r.0) && Distinct(r.1)
    decreases |ws| - c
  {
    if c < |ws| && c < |bs| {
      var sum := SumNode(name, l, c, ws[c], prev, bs[c], last);
      var A' := if last then A + [sum] else A + [sum, ReluNode(name, l, c, |A|)];
      var L' := L[l := L[l] + [ChainAt(|A|, 0, last)]];
      assert ChainsFrom(A, L, l, ws, bs, prev, last, name, c) == ChainsFrom(A', L', l, ws, bs, prev, last, name, c + 1);
      ChainStepLayered(A, L, l, ws[c], bs[c], prev, last, name, c);
      assert L'[l - 1] == L[l - 1];
      ChainsLayered(A', L', l, ws, bs, prev, last, name, c + 1);
    }
  }

  /** The layer loop only appends to the arena and touches only layers l .. min(|weights|, |biases|). */
  lemma {:induction false} BuildGrow(A: seq<Node>, L: Layers, weights: seq<seq<seq<real>>>, biases: seq<seq<real>>,
                                     name: (nat, nat) -> string, l: nat)
    requires 1 <= l && NonEmptyChains(L)
    requires |weights| < |L| || weights == []
    ensures var r := BuildFrom(A, L, weights, biases, name, l);
      && |A| <= |r.0| && r.0[..|A|] == A
      && forall j :: 0 <= j < |L| && (j < l || j > Min(|weights|, |biases|)) ==> r.1[j] == L[j]
    decreases |weights| - l
  {
    if l <= |weights| && l <= |biases| {
      var prev := Outputs(L[l - 1]);
      var (A', L') := ChainsFrom(A, L, l, weights[l - 1], biases[l - 1], prev, l == |L| - 1, name, 0);
      ChainsGrow(A, L, l, weights[l - 1], biases[l - 1], prev, l == |L| - 1, name, 0);
      BuildGrow(A', L', weights, biases, name, l + 1);
      var r := BuildFrom(A', L', weights, biases, name, l + 1);
      assert r.0[..|A|] == r.0[..|A'|][..|A|];
    }
  }

  /** The layer loop keeps the network feed-forward and free of repeated nodes. */
  lemma {:induction false} BuildLayered(A: seq<Node>, L: Layers, weights: seq<seq<seq<real>>>, biases: seq<seq<real>>,
                                        name: (nat, nat) -> string, l: nat)
    requires 1 <= l && NonEmptyChains(L)
    requires |weights| < |L| || weights == []
    requires Layered(L, A) && Distinct(L) && forall j :: l <= j < |L| ==> L[j] == []
    ensures var r := BuildFrom(A, L, weights, biases, name, l); Layered(r.1, r.0) && Distinct(r.1)
    decreases |weights| - l
  {
    if l <= |weights| && l <= |biases| {
      var prev := Outputs(L[l - 1]);
      var (A', L') := ChainsFrom(A, L, l, weights[l - 1], biases[l - 1], prev, l == |L| - 1, name, 0);
      ChainsGrow(A, L, l, weights[l - 1], biases[l - 1], prev, l == |L| - 1, name, 0);
      ChainsLayered(A, L, l, weights[l - 1], biases[l - 1], prev, l == |L| - 1, name, 0);
      BuildLayered(A', L', weights, biases, name, l + 1);
    }
  }

  /**
    * Neuron c of layer j as the source builds it: its first node is the sum of the outputs of
    * layer j - 1 weighted by `w`, plus `b`; in a hidden layer a ReLU reading the sum follows it.
    */
  predicate NeuronBuilt(A: seq<Node>, L: Layers, j: nat, c: nat, w: seq<real>, b: real, name: (nat, nat) -> string)
    requires 1 <= j < |L| && NonEmptyChains(L) && c < |L[j]|
  {
    var ch := L[j][c];
    var last := j == |L| - 1;
    && |ch| == (if last then 1 else 2)
    && ch[0] < |A| && A[ch[0]] == SumNode(name, j, c, w, Outputs(L[j - 1]), b, last)
    && (!last ==> ch[1] < |A| && A[ch[1]] == ReluNode(name, j, c, ch[0]))
  }

  /** Layer j holds one neuron per pair of a row of `weights[j-1]` and a bias of `biases[j-1]`, each built as above. */
  predicate LayerBuilt(A: seq<Node>, L: Layers, j: nat, weights: seq<seq<seq<real>>>, biases: seq<seq<real>>,
                       name: (nat, nat) -> string)
    requires 1 <= j < |L| && NonEmptyChains(L) && j <= |weights| && j <= |biases|
  {
    var ws, bs := weights[j - 1], biases[j - 1];
    && |L[j]| == Min(|ws|, |bs|)
    && forall c :: 0 <= c < |L[j]| ==> NeuronBuilt(A, L, j, c, ws[c], bs[c], name)
  }

  /** The neuron loop run on an empty layer l builds exactly that layer. */
  lemma ChainsBuilt(A: seq<Node>, L: Layers, l: nat, weights: seq<seq<seq<real>>>, biases: seq<seq<real>>,
                    name: (nat, nat) -> string)
    requires 1 <= l < |L| && NonEmptyChains(L) && L[l] == [] && l <= |weights| && l <= |biases|
    ensures LayerBuilt(ChainsFrom(A, L, l, weights[l - 1], biases[l - 1], Outputs(L[l - 1]), l == |L| - 1, name, 0).0,
                       ChainsFrom(A, L, l, weights[l - 1], biases[l - 1], Outputs(L[l - 1]), l == |L| - 1, name, 0).1,
                       l, weights, biases, name)
  {
    var ws, bs := weights[l - 1], biases[l - 1];
    var prev := Outputs(L[l - 1]);
    var last := l == |L| - 1;
    ChainsSizes(A, L, l, ws, bs, prev, last, name, 0);
    ChainsHandles(A, L, l, ws, bs, prev, last, name, 0);
    ChainsNodes(A, L, l, ws, bs, prev, last, name, 0);
    ChainsGrow(A, L, l, ws, bs, prev, last, name, 0);
    var r := ChainsFrom(A, L, l, ws, bs, prev, last, name, 0);
    BuiltOf(A, L, r.0, r.1, l, weights, biases, name);
  }

  /** The chains the neuron loop appends to an empty layer l, holding its neurons: layer l is built. */
  lemma BuiltOf(A: seq<Node>, L: Layers, B: seq<Node>, M: Layers, l: nat, weights: seq<seq<seq<real>>>,
                biases: seq<seq<real>>, name: (nat, nat) -> string)
    requires 1 <= l < |L| && NonEmptyChains(L) && L[l] == [] && l <= |weights| && l <= |biases|
    requires |M| == |L| && NonEmptyChains(M) && M[l - 1] == L[l - 1]
    requires |M[l]| == Min(|weights[l - 1]|, |biases[l - 1]|)
    requires forall p :: 0 <= p < |M[l]| ==> M[l][p] == ChainAt(|A|, p, l == |L| - 1)
    requires NeuronsFrom(A, B, l, weights[l - 1], biases[l - 1], Outputs(L[l - 1]), l == |L| - 1, name, 0)
    ensures LayerBuilt(B, M, l, weights, biases, name)
  {
    var ws, bs := weights[l - 1], biases[l - 1];
    forall c | 0 <= c < |M[l]| ensures NeuronBuilt(B, M, l, c, ws[c], bs[c], name) {
      assert M[l][c] == ChainAt(|A|, c, l == |L| - 1);
      assert NeuronAt(B, ChainAt(|A|, c, l == |L| - 1), name, l, c, ws[c], Outputs(L[l - 1]), bs[c], l == |L| - 1);
    }
  }

  /** A finished layer stays finished while the arena grows and later layers are built. */
  lemma LayerBuiltStable(A: seq<Node>, L: Layers, B: seq<Node>, M: Layers, j: nat, weights: seq<seq<seq<real>>>,
                         biases: seq<seq<real>>, name: (nat, nat) -> string)
    requires 1 <= j < |L| && NonEmptyChains(L) && j <= |weights| && j <= |biases|
    requires LayerBuilt(A, L, j, weights, biases, name)
    requires |A| <= |B| && B[..|A|] == A
    requires |M| == |L| && NonEmptyChains(M) && M[j] == L[j] && M[j - 1] == L[j - 1]
    ensures LayerBuilt(B, M, j, weights, biases, name)
  {
    var ws, bs := weights[j - 1], biases[j - 1];
    forall c | 0 <= c < |M[j]| ensures NeuronBuilt(B, M, j, c, ws[c], bs[c], name) {
      assert NeuronBuilt(A, L, j, c, ws[c], bs[c], name);
      var ch := L[j][c];
      assert B[ch[0]] == A[ch[0]];
      if j != |L| - 1 {
        assert B[ch[1]] == A[ch[1]];
      }
    }
  }

  /** Layers l up to the last one with weights and biases are built from them. */
  predicate LayersBuiltFrom(B: seq<Node>, M: Layers, l: nat, weights: seq<seq<seq<real>>>, biases: seq<seq<real>>,
                            name: (nat, nat) -> string)
  {
    && NonEmptyChains(M) && (|weights| < |M| || weights == [])
    && forall j :: 1 <= j && l <= j <= Min(|weights|, |biases|) ==> LayerBuilt(B, M, j, weights, biases, name)
  }

  /** Every layer the layer loop reaches is built from its weights and biases. */
  lemma {:induction false} BuildLayout(A: seq<Node>, L: Layers, weights: seq<seq<seq<real>>>, biases: seq<seq<real>>,
                                       name: (nat, nat) -> string, l: nat)
    requires 1 <= l && NonEmptyChains(L)
    requires |weights| < |L| || weights == []
    requires forall j :: l <= j < |L| ==> L[j] == []
    ensures LayersBuiltFrom(BuildFrom(A, L, weights, biases, name, l).0, BuildFrom(A, L, weights, biases, name, l).1,
                            l, weights, biases, name)
    decreases |weights| - l
  {
    if l <= |weights| && l <= |biases| {
      var prev := Outputs(L[l - 1]);
      var step := ChainsFrom(A, L, l, weights[l - 1], biases[l - 1], prev, l == |L| - 1, name, 0);
      var A', L' := step.0, step.1;
      ChainsGrow(A, L, l, weights[l - 1], biases[l - 1], prev, l == |L| - 1, name, 0);
      ChainsBuilt(A, L, l, weights, biases, name);
      BuildLayout(A', L', weights, biases, name, l + 1);
      BuildGrow(A', L', weights, biases, name, l + 1);
      var r := BuildFrom(A', L', weights, biases, name, l + 1);
      assert BuildFrom(A, L, weights, biases, name, l) == r;
      LayoutStep(A', L', r.0, r.1, l, weights, biases, name);
    } else {
      assert BuildFrom(A, L, weights, biases, name, l) == (A, L);
    }
  }

  /** Layer l built, and the layers after it built by the rest of the loop: layers l on are built. */
  lemma LayoutStep(A: seq<Node>, L: Layers, B: seq<Node>, M: Layers, l: nat, weights: seq<seq<seq<real>>>,
                   biases: seq<seq<real>>, name: (nat, nat) -> string)
    requires 1 <= l < |L| && NonEmptyChains(L) && l <= |weights| && l <= |biases|
    requires LayerBuilt(A, L, l, weights, biases, name)
    requires LayersBuiltFrom(B, M, l + 1, weights, biases, name)
    requires |A| <= |B| && B[..|A|] == A
    requires |M| == |L| && M[l] == L[l] && M[l - 1] == L[l - 1]
    ensures LayersBuiltFrom(B, M, l, weights, biases, name)
  {
    LayerBuiltStable(A, L, B, M, l, weights, biases, name);
    forall j | 1 <= j && l <= j <= Min(|weights|, |biases|) ensures LayerBuilt(B, M, j, weights, biases, name) {
      if j > l {
        assert 1 <= j && l + 1 <= j <= Min(|weights|, |biases|);
      }
    }
  }

  // ---------------------------------------------------------------------------
  // What an import produces

  /**
    * The decoded weights have the sizes the header announces: layer k + 1 has layerSizes[k + 1]
    * weight rows and biases, and every row has one weight per neuron of layer k.
    */
  lemma DecodedSizes(recs: seq<seq<string>>, lex: Lexicon, f: NnetFile)
    requires Decode(recs, lex) == Ok(f)
    ensures |f.weights| == |f.biases| && (|f.weights| < |f.layerSizes| || f.weights == [])
    ensures forall k :: 0 <= k < |f.weights| ==>
              && |f.weights[k]| == Count(f.layerSizes[k + 1]) && |f.biases[k]| == Count(f.layerSizes[k + 1])
              && forall i :: 0 <= i < |f.weights[k]| ==> |f.weights[k][i]| == Count(f.layerSizes[k])
  {
    DecodeLayout(recs, lex, f);
    var ls := f.layerSizes;
    forall k | 0 <= k < |f.weights|
      ensures && |f.weights[k]| == Count(ls[k + 1]) && |f.biases[k]| == Count(ls[k + 1])
              && forall i :: 0 <= i < |f.weights[k]| ==> |f.weights[k][i]| == Count(ls[k])
    {
      LayerSizes(recs, lex, 7 + Offset(ls, 0, k), Count(ls[k]), Count(ls[k + 1]), f.weights[k], f.biases[k]);
    }
  }

  /** A layer read from `current` rows of `previous` weights has those sizes. */
  lemma LayerSizes(recs: seq<seq<string>>, lex: Lexicon, pos: nat, previous: nat, current: nat, w: seq<seq<real>>, b: seq<real>)
    requires LayerAt(recs, lex, pos, previous, current) == Ok((w, b))
    ensures |w| == current && |b| == current && forall i :: 0 <= i < |w| ==> |w[i]| == previous
  {
    LayerAtMeaning(recs, lex, pos, previous, current);
    forall i | 0 <= i < |w| ensures |w[i]| == previous {
      RowAtMeaning(recs, lex, pos + i, previous);
    }
  }

  /** Layers with no chains at all form a (trivially) feed-forward network. */
  lemma NoLayersLayered(n: int, A: seq<Node>)
    ensures Layered(NoLayers(n), A) && Distinct(NoLayers(n)) && NonEmptyChains(NoLayers(n))
  {
    var L := NoLayers(n);
    assert NodeSet(L) == {};
  }

  /**
    * A successful import only adds nodes to the arena, and the network it returns is
    * feed-forward, holds no node twice and passes the sanity check of ViewNetwork.
    */
  lemma ImportSane(A: seq<Node>, lines: seq<string>, counter: nat)
    ensures var (B, r) := Import(A, lines, counter);
      r.Ok? ==> && |A| <= |B| && B[..|A|] == A
                && Layered(r.value, B) && Distinct(r.value) && NonEmptyChains(r.value) && SaneIn(r.value, B)
  {
    var recs := Records(lines, Python);
    match Decode(recs, Python)
    case Fail(_) =>
    case Ok(f) =>
      DecodeLayout(recs, Python, f);
      assert Import(A, lines, counter) == Build(A, f, Naming(counter));
      BuildSane(A, f, Naming(counter));
  }

  /** `ImportSane` once the file is decoded. */
  lemma BuildSane(A: seq<Node>, f: NnetFile, name: (nat, nat) -> string)
    requires |f.weights| < |f.layerSizes| || f.weights == []
    ensures var (B, r) := Build(A, f, name);
      r.Ok? ==> && |A| <= |B| && B[..|A|] == A
                && Layered(r.value, B) && Distinct(r.value) && NonEmptyChains(r.value) && SaneIn(r.value, B)
  {
    match NormaliseFrom(f.mins, f.maxs, f.means, f.ranges, f.inputSize, 0)
    case Fail(_) =>
    case Ok((lo, hi)) =>
      var L := NoLayers(|f.layerSizes|);
      NoLayersLayered(|f.layerSizes|, A);
      InputsLayered(A, L, lo, hi, name, 0);
      InputsGrow(A, L, lo, hi, name, 0);
      var (A1, r1) := InputsFrom(A, L, lo, hi, name, 0);
      if r1.Ok? {
        BuildLayered(A1, r1.value, f.weights, f.biases, name, 1);
        BuildGrow(A1, r1.value, f.weights, f.biases, name, 1);
        var (B, L') := BuildFrom(A1, r1.value, f.weights, f.biases, name, 1);
        assert B[..|A|] == B[..|A1|][..|A|];
        LayeredIsSane(L', B);
      }
  }

  /**
    * Once the file is decoded and its bounds normalised, the import fails exactly when a
    * normalised interval is empty, or when there are inputs but no layer to hold them.
    */
  lemma ImportOutcome(A: seq<Node>, lines: seq<string>, counter: nat, f: NnetFile, lo: seq<real>, hi: seq<real>)
    requires Decode(Records(lines, Python), Python) == Ok(f)
    requires NormaliseFrom(f.mins, f.maxs, f.means, f.ranges, f.inputSize, 0) == Ok((lo, hi))
    ensures var r := Import(A, lines, counter).1;
      && (r.Ok? <==> (forall i :: 0 <= i < Min(|lo|, |hi|) ==> lo[i] <= hi[i]) && (Min(|lo|, |hi|) > 0 ==> |f.layerSizes| > 0))
      && (r.Fail? ==> r.error == InvalidBounds || r.error == IndexOutOfRange)
  {
    DecodeLayout(Records(lines, Python), Python, f);
    InputsOutcome(A, NoLayers(|f.layerSizes|), lo, hi, Naming(counter), 0);
  }

  /** A failed read or normalisation leaves the arena as it was and reports its error. */
  lemma ImportEarlyFailure(A: seq<Node>, lines: seq<string>, counter: nat)
    ensures var d := Decode(Records(lines, Python), Python); var (B, r) := Import(A, lines, counter);
      && (d.Fail? ==> B == A && r == Fail(d.error))
      && (d.Ok? && NormaliseFrom(d.value.mins, d.value.maxs, d.value.means, d.value.ranges, d.value.inputSize, 0).Fail? ==>
            B == A && r.Fail? && (r.error == IndexOutOfRange || r.error == DegenerateEquation))
  {
    var d := Decode(Records(lines, Python), Python);
    if d.Ok? {
      var f := d.value;
      NormaliseMeaning(f.mins, f.maxs, f.means, f.ranges, f.inputSize, 0);
    }
  }

  /** Layer 0 of a built network holds input i as the one-node chain [|A| + i] with interval [lo[i], hi[i]]. */
  lemma BuiltInputs(A: seq<Node>, f: NnetFile, name: (nat, nat) -> string, lo: seq<real>, hi: seq<real>)
    requires |f.weights| < |f.layerSizes| || f.weights == []
    requires NormaliseFrom(f.mins, f.maxs, f.means, f.ranges, f.inputSize, 0) == Ok((lo, hi))
    ensures var x := Build(A, f, name);
      x.1.Ok? ==>
        && |x.1.value| == |f.layerSizes|
        && (|x.1.value| > 0 ==> && |x.1.value[0]| == Min(|lo|, |hi|) && |A| + |x.1.value[0]| <= |x.0|
                                && forall i :: 0 <= i < |x.1.value[0]| ==>
                                     x.1.value[0][i] == [|A| + i] && x.0[|A| + i] == InputNode(name, i, lo[i], hi[i]))
  {
    var L := NoLayers(|f.layerSizes|);
    var x1 := InputsFrom(A, L, lo, hi, name, 0);
    if x1.1.Ok? {
      InputsLayout(A, L, lo, hi, name, 0);
      var A1, L1 := x1.0, x1.1.value;
      assert |L1| > 0 ==> |L1[0]| == Min(|lo|, |hi|);
      var x2 := BuildFrom(A1, L1, f.weights, f.biases, name, 1);
      assert Build(A, f, name) == (x2.0, Ok(x2.1));
      BuildKeepsInputs(A, A1, L1, f.weights, f.biases, name, lo, hi);
    }
  }

  /** The layer loop keeps layer 0 and the input nodes the input loop made. */
  lemma BuildKeepsInputs(A: seq<Node>, A1: seq<Node>, L1: Layers, weights: seq<seq<seq<real>>>, biases: seq<seq<real>>,
                         name: (nat, nat) -> string, lo: seq<real>, hi: seq<real>)
    requires NonEmptyChains(L1) && (|weights| < |L1| || weights == [])
    requires |A1| == |A| + Min(|lo|, |hi|)
    requires forall j :: 0 <= j < Min(|lo|, |hi|) ==> A1[|A| + j] == InputNode(name, j, lo[j], hi[j])
    requires |L1| > 0 ==> |L1[0]| == Min(|lo|, |hi|) && forall p :: 0 <= p < |L1[0]| ==> L1[0][p] == [|A| + p]
    ensures var (B, L2) := BuildFrom(A1, L1, weights, biases, name, 1);
      && |L2| == |L1|
      && (|L2| > 0 ==> && |L2[0]| == Min(|lo|, |hi|) && |A| + |L2[0]| <= |B|
                       && forall i :: 0 <= i < |L2[0]| ==>
                            L2[0][i] == [|A| + i] && B[|A| + i] == InputNode(name, i, lo[i], hi[i]))
  {
    BuildGrow(A1, L1, weights, biases, name, 1);
    var (B, L2) := BuildFrom(A1, L1, weights, biases, name, 1);
    if |L2| > 0 {
      assert L2[0] == L1[0];
      forall i | 0 <= i < |L2[0]| ensures B[|A| + i] == InputNode(name, i, lo[i], hi[i]) {
        assert B[|A| + i] == B[..|A1|][|A| + i];
      }
    }
  }

  /** Every later layer j of a built network is built from `weights[j-1]` and `biases[j-1]`. */
  lemma BuiltLayers(A: seq<Node>, f: NnetFile, name: (nat, nat) -> string, lo: seq<real>, hi: seq<real>)
    requires |f.weights| == |f.biases| == Remaining(f.layerSizes, 0)
    requires NormaliseFrom(f.mins, f.maxs, f.means, f.ranges, f.inputSize, 0) == Ok((lo, hi))
    ensures var (B, r) := Build(A, f, name);
      r.Ok? ==>
        && |r.value| == |f.layerSizes| && NonEmptyChains(r.value)
        && forall j :: 1 <= j < |r.value| ==>
             j <= |f.weights| && j <= |f.biases| && LayerBuilt(B, r.value, j, f.weights, f.biases, name)
  {
    var L := NoLayers(|f.layerSizes|);
    var inputs := InputsFrom(A, L, lo, hi, name, 0);
    if inputs.1.Ok? {
      InputsLayout(A, L, lo, hi, name, 0);
      var A1, L1 := inputs.0, inputs.1.value;
      BuildLayout(A1, L1, f.weights, f.biases, name, 1);
      var r := BuildFrom(A1, L1, f.weights, f.biases, name, 1);
      assert LayersBuiltFrom(r.0, r.1, 1, f.weights, f.biases, name);
      assert Build(A, f, name) == (r.0, Ok(r.1));
      forall j | 1 <= j < |r.1| ensures j <= |f.weights| && j <= |f.biases| && LayerBuilt(r.0, r.1, j, f.weights, f.biases, name) {
        assert 1 <= j <= Min(|f.weights|, |f.biases|);
      }
    }
  }

  /** Once the file decodes, the import is the build from the decoded contents. */
  lemma ImportIsBuild(A: seq<Node>, lines: seq<string>, counter: nat, f: NnetFile)
    requires Decode(Records(lines, Python), Python) == Ok(f)
    ensures |f.weights| == |f.biases| == Remaining(f.layerSizes, 0)
    ensures Import(A, lines, counter) == Build(A, f, Naming(counter))
  {
    DecodeLayout(Records(lines, Python), Python, f);
  }

  /**
    * The input layer of the network a successful import returns: one layer per entry of
    * layerSizes, and layer 0 holds input i as the one-node chain [|A| + i], a new node
    * with the normalised interval [lo[i], hi[i]].
    */
  lemma ImportInputs(A: seq<Node>, lines: seq<string>, counter: nat, f: NnetFile, lo: seq<real>, hi: seq<real>)
    requires Decode(Records(lines, Python), Python) == Ok(f)
    requires NormaliseFrom(f.mins, f.maxs, f.means, f.ranges, f.inputSize, 0) == Ok((lo, hi))
    ensures var (B, r) := Import(A, lines, counter);
      r.Ok? ==>
        && |r.value| == |f.layerSizes|
        && (|r.value| > 0 ==> && |r.value[0]| == Min(|lo|, |hi|) && |A| + |r.value[0]| <= |B|
                              && forall i :: 0 <= i < |r.value[0]| ==>
                                   r.value[0][i] == [|A| + i] && B[|A| + i] == InputNode(Naming(counter), i, lo[i], hi[i]))
  {
    ImportIsBuild(A, lines, counter, f);
    BuiltInputs(A, f, Naming(counter), lo, hi);
  }

  /**
    * The other layers of the network a successful import returns: layer j holds
    * layerSizes[j] neurons built from `weights[j-1]` and `biases[j-1]`.
    */
  lemma ImportLayers(A: seq<Node>, lines: seq<string>, counter: nat, f: NnetFile, lo: seq<real>, hi: seq<real>)
    requires Decode(Records(lines, Python), Python) == Ok(f)
    requires NormaliseFrom(f.mins, f.maxs, f.means, f.ranges, f.inputSize, 0) == Ok((lo, hi))
    ensures var (B, r) := Import(A, lines, counter);
      r.Ok? ==>
        && |r.value| == |f.layerSizes| && NonEmptyChains(r.value)
        && forall j :: 1 <= j < |r.value| ==>
             && j <= |f.weights| && j <= |f.biases| && |r.value[j]| == Count(f.layerSizes[j])
             && LayerBuilt(B, r.value, j, f.weights, f.biases, Naming(counter))
  {
    ImportIsBuild(A, lines, counter, f);
    DecodedSizes(Records(lines, Python), Python, f);
    BuiltSizes(A, f, Naming(counter), lo, hi);
  }

  /** `BuiltLayers` for a file whose weights and biases have the sizes the layer sizes give. */
  lemma BuiltSizes(A: seq<Node>, f: NnetFile, name: (nat, nat) -> string, lo: seq<real>, hi: seq<real>)
    requires |f.weights| == |f.biases| == Remaining(f.layerSizes, 0)
    requires forall k :: 0 <= k < |f.weights| ==> |f.weights[k]| == Count(f.layerSizes[k + 1]) == |f.biases[k]|
    requires NormaliseFrom(f.mins, f.maxs, f.means, f.ranges, f.inputSize, 0) == Ok((lo, hi))
    ensures var (B, r) := Build(A, f, name);
      r.Ok? ==>
        && |r.value| == |f.layerSizes| && NonEmptyChains(r.value)
        && forall j :: 1 <= j < |r.value| ==>
             && j <= |f.weights| && j <= |f.biases| && |r.value[j]| == Count(f.layerSizes[j])
             && LayerBuilt(B, r.value, j, f.weights, f.biases, name)
  {
    BuiltLayers(A, f, name, lo, hi);
    var (B, r) := Build(A, f, name);
    if r.Ok? {
      forall j | 1 <= j < |r.value| ensures |r.value[j]| == Count(f.layerSizes[j]) {
        assert LayerBuilt(B, r.value, j, f.weights, f.biases, name);
        assert |f.weights[j - 1]| == Count(f.layerSizes[j]) == |f.biases[j - 1]|;
      }
    }
  }

  /** A zero-padded number reads back as that number. */
  lemma PaddedValue(n: nat)
    ensures Text.AllDigits(Text.Pad(Text.Digits(n), 2)) && Text.DigitsValue(Text.Pad(Text.Digits(n), 2)) == n
  {
    Text.PadValue(Text.Digits(n), 2);
    Text.DigitsRoundTrip(n);
  }

  /** Where the shorter of two prefixes ends, one string holds the separator and the other a character of the longer prefix. */
  lemma SeparatorAt(a: string, s: string, b: string, t: string)
    requires |a| < |b|
    ensures (a + "_" + s)[|a|] == '_' && (b + "_" + t)[|a|] == b[|a|]
  {
  }

  /** Two digit strings each followed by '_' begin the same string only if they are equal. */
  lemma DigitsBeforeSeparator(a: string, b: string, s: string, t: string)
    requires Text.AllDigits(a) && Text.AllDigits(b) && a + "_" + s == b + "_" + t
    ensures a == b && s == t
  {
    var x := a + "_" + s;
    if |a| < |b| {
      SeparatorAt(a, s, b, t);
      assert false;
    } else if |b| < |a| {
      SeparatorAt(b, t, a, s);
      assert false;
    }
    assert a == x[..|a|] == b;
    assert s == x[|a| + 1..] == t;
  }

  /** The two padded numbers of a name after a common prefix determine each other. */
  lemma SeparatedFields(prefix: string, a: string, b: string, a': string, b': string)
    requires Text.AllDigits(a) && Text.AllDigits(a')
    requires prefix + a + "_" + b == prefix + a' + "_" + b'
    ensures a == a' && b == b'
  {
    var x := prefix + a + "_" + b;
    assert x[|prefix|..] == a + "_" + b;
    assert (prefix + a' + "_" + b')[|prefix|..] == a' + "_" + b';
    DigitsBeforeSeparator(a, a', b, b');
  }

  /** Different (layer, neuron) positions never share a name within one import. */
  lemma NamesDistinct(prefix: string, l: nat, n: nat, l': nat, n': nat)
    requires NodeName(prefix, l, n) == NodeName(prefix, l', n')
    ensures l == l' && n == n'
  {
    PaddedValue(l);
    PaddedValue(n);
    PaddedValue(l');
    PaddedValue(n');
    SeparatedFields(prefix, Text.Pad(Text.Digits(l), 2), Text.Pad(Text.Digits(n), 2),
                    Text.Pad(Text.Digits(l'), 2), Text.Pad(Text.Digits(n'), 2));
  }
}
