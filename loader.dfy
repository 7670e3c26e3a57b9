/** The chunked CSV loader (schedule/loader.py, and gtfs_data/loader.py in the
    legacy tree): a GTFS text file is cut into header-prefixed chunks of at most
    N data lines, each chunk is decoded and filtered on its own, and the chunk
    results are concatenated in submission order. The worker pool is modelled
    by calling the chunk worker sequentially, in submission order. */
module Loader {
  import opened Wrappers

  type Line = string
  type Row = map<string, string>

  /** `keep`: column name to the values allowed in it; an empty map (Python's
      `None` or `{}`) keeps every row. */
  type Keep = map<string, set<string>>

  /** What `csv.DictReader` makes of one data line under a header line: a row,
      or nothing for a line it skips. */
  type Decoder = (Line, Line) -> Option<Row>

  /** The data directory: file name to the file's lines, each with its line
      terminator, as `for line in f` yields them (never an empty string). */
  type Files = map<string, seq<Line>>

  /** The byte-order mark some NTA files start with. */
  const BrokenCharacter: char := '﻿'

  /** The current loader's tunable chunk size (a module global set from the
      command line) has this default; the legacy loader fixes it. */
  const MaxRowsPerChunk: int := 100000
  const LegacyLinesPerChunk: int := 100000

  /** One unit of work: the header line followed by some data lines. */
  datatype Chunk = Chunk(header: Line, lines: seq<Line>)

  function Abs(n: int): nat { if n < 0 then -n else n }

  /** Every filtered column is present and holds an allowed value. */
  predicate Matches(row: Row, keep: Keep) {
    forall k :: k in keep ==> k in row && row[k] in keep[k]
  }

  /** The rows `csv.DictReader` yields for some data lines under a header. */
  function Decoded(header: Line, lines: seq<Line>, decode: Decoder): seq<Row> {
    if |lines| == 0 then []
    else
      Decoded(header, lines[..|lines| - 1], decode) +
      match decode(header, lines[|lines| - 1])
      case Some(row) => [row]
      case None => []
  }

  /** The rows that match `keep`, in their original order. */
  function Kept(rows: seq<Row>, keep: Keep): seq<Row> {
    if |rows| == 0 then []
    else Kept(rows[..|rows| - 1], keep) + if Matches(rows[|rows| - 1], keep) then [rows[|rows| - 1]] else []
  }

  /** A row survives filtering exactly when it matches. */
  lemma {:induction false} KeptExactly(rows: seq<Row>, keep: Keep)
    ensures forall row :: row in Kept(rows, keep) <==> row in rows && Matches(row, keep)
    ensures |Kept(rows, keep)| <= |rows|
  {
    if |rows| > 0 {
      var init := rows[..|rows| - 1];
      KeptExactly(init, keep);
      assert rows == init + [rows[|rows| - 1]];
    }
  }

  /** The data lines of a chunk sequence, in order. */
  function Flatten(chunks: seq<Chunk>): seq<Line> {
    if |chunks| == 0 then []
    else Flatten(chunks[..|chunks| - 1]) + chunks[|chunks| - 1].lines
  }

  /** The chunks partition `data` in order; each carries the header and 1 to
      |n| lines, and only the last may hold fewer than |n|. */
  ghost predicate Partition(chunks: seq<Chunk>, header: Line, data: seq<Line>, n: int) {
    && Flatten(chunks) == data
    && (forall i :: 0 <= i < |chunks| ==> chunks[i].header == header && 1 <= |chunks[i].lines| <= Abs(n))
    && (forall i :: 0 <= i < |chunks| - 1 ==> |chunks[i].lines| == Abs(n))
  }

  lemma {:induction false} DecodedAppend(header: Line, a: seq<Line>, b: seq<Line>, decode: Decoder)
    ensures Decoded(header, a + b, decode) == Decoded(header, a, decode) + Decoded(header, b, decode)
  {
    if |b| > 0 {
      var b' := b[..|b| - 1];
      DecodedAppend(header, a, b', decode);
      assert (a + b)[..|a + b| - 1] == a + b';
      assert (a + b)[|a + b| - 1] == b[|b| - 1];
    } else {
      assert a + b == a;
    }
  }

  lemma {:induction false} KeptAppend(a: seq<Row>, b: seq<Row>, keep: Keep)
    ensures Kept(a + b, keep) == Kept(a, keep) + Kept(b, keep)
  {
    if |b| > 0 {
      var b' := b[..|b| - 1];
      KeptAppend(a, b', keep);
      assert (a + b)[..|a + b| - 1] == a + b';
      assert (a + b)[|a + b| - 1] == b[|b| - 1];
    } else {
      assert a + b == a;
    }
  }

  /** With nothing to filter on, every decoded row is kept. */
  lemma {:induction false} KeptEverything(rows: seq<Row>)
    ensures Kept(rows, map[]) == rows
  {
    if |rows| > 0 {
      KeptEverything(rows[..|rows| - 1]);
      assert rows == rows[..|rows| - 1] + [rows[|rows| - 1]];
    }
  }

  /** `for k, acceptable_values in keep.items(): ... break`. */
  method RowMatches(row: Row, keep: Keep) returns (matched: bool)
    ensures matched == Matches(row, keep)
  {
    matched := true;
    var pending := keep.Keys;
    while pending != {}
      invariant pending <= keep.Keys
      invariant forall k :: k in keep && k !in pending ==> k in row && row[k] in keep[k]
      decreases pending
    {
      var k :| k in pending;
      if k !in row || row[k] !in keep[k] {
        matched := false;
        break;
      }
      pending := pending - {k};
    }
  }

  /** `load_chunk` (legacy `loadChunk`): the matching rows of one chunk, in
      order, and how many rows were discarded. */
  method LoadChunk(chunk: Chunk, keep: Keep, decode: Decoder) returns (rows: seq<Row>, discard: nat)
    ensures rows == Kept(Decoded(chunk.header, chunk.lines, decode), keep)
    ensures |rows| + discard == |Decoded(chunk.header, chunk.lines, decode)|
  {
    rows, discard := [], 0;
    ghost var read: seq<Row> := [];
    for i := 0 to |chunk.lines|
      invariant read == Decoded(chunk.header, chunk.lines[..i], decode)
      invariant rows == Kept(read, keep)
      invariant |rows| + discard == |read|
    {
      assert chunk.lines[..i + 1][..i] == chunk.lines[..i];
      var decoded := decode(chunk.header, chunk.lines[i]);
      if decoded.Some? {
        var row := decoded.value;
        assert (read + [row])[..|read|] == read;
        read := read + [row];
        var matched := RowMatches(row, keep);
        if matched {
          rows := rows + [row];
        } else {
          discard := discard + 1;
        }
      }
    }
    assert chunk.lines[..|chunk.lines|] == chunk.lines;
  }

  /** `f.read(1)` and a seek back unless it was the byte-order mark. */
  function StripBom(lines: seq<Line>): seq<Line> {
    if |lines| > 0 && |lines[0]| > 0 && lines[0][0] == BrokenCharacter then [lines[0][1..]] + lines[1..]
    else lines
  }

  /** The whole text of some lines. */
  function Text(lines: seq<Line>): string {
    if |lines| == 0 then "" else lines[0] + Text(lines[1..])
  }

  /** Exactly one leading byte-order mark is consumed, and nothing else. */
  lemma {:induction false} BomConsumed(lines: seq<Line>)
    requires |lines| > 0 ==> |lines[0]| > 0
    ensures var t := Text(lines);
            Text(StripBom(lines)) == if |t| > 0 && t[0] == BrokenCharacter then t[1..] else t
  {
    if |lines| > 0 {
      var t := Text(lines);
      assert t == lines[0] + Text(lines[1..]);
      if lines[0][0] == BrokenCharacter {
        var s := StripBom(lines);
        assert s[0] == lines[0][1..] && s[1..] == lines[1..];
        assert Text(s) == lines[0][1..] + Text(lines[1..]);
        assert t[1..] == lines[0][1..] + Text(lines[1..]);
      } else {
        assert t[0] == lines[0][0];
      }
    }
  }

  /** `header = f.readline()`: the first line, or "" for an empty file. */
  function Header(lines: seq<Line>): Line { if |lines| == 0 then "" else lines[0] }

  /** The lines `for line in f` yields after the header. */
  function DataLines(lines: seq<Line>): seq<Line> { if |lines| == 0 then [] else lines[1..] }

  /** Filtering the whole file in one pass: what loading must equal. */
  function OnePass(file: seq<Line>, keep: Keep, decode: Decoder): seq<Row> {
    var lines := StripBom(file);
    Kept(Decoded(Header(lines), DataLines(lines), decode), keep)
  }

  lemma ZeroRemainder(c: int, n: int)
    requires n != 0 && 0 <= c <= Abs(n) && c % n == 0
    ensures c == 0 || c == Abs(n)
  {
  }

  lemma FlattenPush(chunks: seq<Chunk>, c: Chunk)
    ensures Flatten(chunks + [c]) == Flatten(chunks) + c.lines
  {
    assert (chunks + [c])[..|chunks|] == chunks;
  }

  /** Chunks cut because the line counter wrapped: each holds exactly |n| lines. */
  ghost predicate FullChunks(chunks: seq<Chunk>, header: Line, n: int) {
    forall j :: 0 <= j < |chunks| ==> chunks[j].header == header && |chunks[j].lines| == Abs(n)
  }

  /** The state of the line loop after reading the lines `read`: the chunks
      submitted so far, and the buffer `accum` (its data lines) with the line
      counter `count` of the chunk being filled. */
  ghost predicate Splitting(chunks: seq<Chunk>, accum: seq<Line>, count: int, header: Line, read: seq<Line>, n: int) {
    && n != 0
    && Flatten(chunks) + accum == read
    && count == |accum| <= Abs(n)
    && (read != [] ==> accum != [])
    && FullChunks(chunks, header, n)
  }

  /** The counter wrapped: the buffer, if it holds data, is submitted, and a
      fresh buffer receives the line. */
  lemma WrapStep(chunks: seq<Chunk>, accum: seq<Line>, count: int, header: Line, read: seq<Line>, line: Line, n: int)
    requires Splitting(chunks, accum, count, header, read, n) && count % n == 0
    ensures |accum| > 0 ==> Splitting(chunks + [Chunk(header, accum)], [line], 1, header, read + [line], n)
    ensures |accum| == 0 ==> Splitting(chunks, [line], 1, header, read + [line], n)
  {
    ZeroRemainder(count, n);
    if |accum| > 0 {
      FlattenPush(chunks, Chunk(header, accum));
    } else {
      assert read == [] && chunks == [];
    }
  }

  /** The counter did not wrap: the line joins the buffer. */
  lemma FillStep(chunks: seq<Chunk>, accum: seq<Line>, count: int, header: Line, read: seq<Line>, line: Line, n: int)
    requires Splitting(chunks, accum, count, header, read, n) && count % n != 0
    ensures Splitting(chunks, accum + [line], count + 1, header, read + [line], n)
  {
    assert count != Abs(n);
  }

  /** At end of file the buffer, if it holds data, is the last chunk. */
  lemma FlushStep(chunks: seq<Chunk>, accum: seq<Line>, count: int, header: Line, data: seq<Line>, n: int)
    requires Splitting(chunks, accum, count, header, data, n)
    ensures |accum| > 0 ==> Partition(chunks + [Chunk(header, accum)], header, data, n)
    ensures |accum| == 0 ==> Partition(chunks, header, data, n)
  {
    if |accum| > 0 {
      FlattenPush(chunks, Chunk(header, accum));
    } else {
      assert chunks == [] && data == [];
    }
  }

  /** What loading a file yields once the chunk size is not zero. */
  function Loaded(files: Files, filename: string, keep: Keep, decode: Decoder): Result<seq<Row>, Error> {
    if filename in files then Success(OnePass(files[filename], keep, decode))
    else Failure(FileNotFoundError(filename))
  }

  /** The line loop of `Load`: a new chunk starts whenever `count % n == 0`,
      so a zero chunk size raises ZeroDivisionError at the first data line.
      `accum.tell() > 0` holds exactly when the buffer has received a data line
      (a line is written right after every reset), so it is `|accum| > 0`. */
  method SplitChunks(header: Line, data: seq<Line>, n: int) returns (r: Result<seq<Chunk>, Error>)
    ensures r.Failure? <==> n == 0 && |data| > 0
    ensures r.Failure? ==> r.error == ZeroDivisionError
    ensures r.Success? ==> Partition(r.value, header, data, n)
  {
    if n == 0 {
      return if |data| == 0 then Success([]) else Failure(ZeroDivisionError);
    }
    var chunks: seq<Chunk> := [];
    var count := 0;
    var accum: seq<Line> := [];
    for i := 0 to |data|
      invariant Splitting(chunks, accum, count, header, data[..i], n)
    {
      assert data[..i + 1] == data[..i] + [data[i]];
      if count % n == 0 {
        WrapStep(chunks, accum, count, header, data[..i], data[i], n);
        if |accum| > 0 {
          chunks := chunks + [Chunk(header, accum)];
        }
        accum := [];
        count := 0;
      } else {
        FillStep(chunks, accum, count, header, data[..i], data[i], n);
      }
      accum := accum + [data[i]];
      count := count + 1;
    }
    assert data[..|data|] == data;
    FlushStep(chunks, accum, count, header, data, n);
    if |accum| > 0 {
      chunks := chunks + [Chunk(header, accum)];
    }
    return Success(chunks);
  }

  /** `Load`: chunking does not change the result, whatever the chunk size; a
      missing file raises FileNotFoundError and a zero chunk size raises
      ZeroDivisionError at the first data line. */
  method Load(files: Files, filename: string, keep: Keep, n: int, decode: Decoder)
    returns (r: Result<seq<Row>, Error>)
    ensures filename !in files ==> r == Failure(FileNotFoundError(filename))
    ensures filename in files && n == 0 && |DataLines(StripBom(files[filename]))| > 0 ==>
              r == Failure(ZeroDivisionError)
    ensures filename in files && (n != 0 || |DataLines(StripBom(files[filename]))| == 0) ==>
              r == Success(OnePass(files[filename], keep, decode))
    ensures n != 0 ==> r == Loaded(files, filename, keep, decode)
  {
    if filename !in files {
      return Failure(FileNotFoundError(filename));
    }
    var lines := StripBom(files[filename]);
    var header := Header(lines);
    var chunks :- SplitChunks(header, DataLines(lines), n);
    var ret: seq<Row> := [];
    var discard := 0;
    for i := 0 to |chunks|
      invariant ret == Kept(Decoded(header, Flatten(chunks[..i]), decode), keep)
    {
      var result, discarded := LoadChunk(chunks[i], keep, decode);
      assert chunks[..i + 1][..i] == chunks[..i];
      DecodedAppend(header, Flatten(chunks[..i]), chunks[i].lines, decode);
      KeptAppend(Decoded(header, Flatten(chunks[..i]), decode), Decoded(header, chunks[i].lines, decode), keep);
      ret := ret + result;
      discard := discard + discarded;
    }
    assert chunks[..|chunks|] == chunks;
    return Success(ret);
  }

  /** Legacy `Load`: the same loop with a fixed chunk of 100000 lines, so only
      a missing file can make it fail. */
  method LegacyLoad(files: Files, filename: string, keep: Keep, decode: Decoder)
    returns (r: Result<seq<Row>, Error>)
    ensures r == Loaded(files, filename, keep, decode)
  {
    r := Load(files, filename, keep, LegacyLinesPerChunk, decode);
  }
}
