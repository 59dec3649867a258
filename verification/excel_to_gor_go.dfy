/** The Go spreadsheet converter: every data row whose request cell is present and not
    blank becomes one GOR record, its text trimmed of surrounding whitespace. Whether a
    separator follows a record depends on the record's position among ALL data rows, and
    one more separator always closes the output. */
module ExcelToGorGo {
  import opened Wrappers
  import opened Seqs
  import opened Text
  import opened Whitespace
  import opened RequestId
  import opened GorFormat

  /** Why no output is produced: a sheet without even a header row (where the converter
      would index past the end of the row list), or a header row without the column. */
  datatype Error = EmptySheet | ColumnNotFound

  /** The request text of a data row: absent when the row is too short to reach the
      column or its cell is blank, otherwise the trimmed cell. */
  function CellText(row: seq<string>, col: nat): (t: Option<string>)
    ensures t.Some? <==> col < |row| && !AllIn(Spaces(GoUnicode), row[col])
    ensures t.Some? ==> t.value == Trim(Spaces(GoUnicode), row[col])
  {
    if |row| <= col then None
    else
      var text := Trim(Spaces(GoUnicode), row[col]);
      if text == "" then None else Some(text)
  }

  /** `CellText` for the column at `col`, in the form the row loop takes. */
  function KeepAt(col: nat): seq<string> -> Option<string> {
    row => CellText(row, col)
  }

  /** The texts of the kept rows, in row order. */
  function Kept(data: seq<seq<string>>, col: nat): (texts: seq<string>)
    ensures |texts| <= |data|
  {
    Choose(data, KeepAt(col))
  }

  /** The records written for the kept texts: the `c`-th takes the `c`-th identifier and
      timestamp (they are drawn only for kept rows). */
  function GoRecords(texts: seq<string>, ids: nat -> Uuid, stamps: nat -> int): seq<Record> {
    Records(texts, (c: nat) => GoRequestId(ids(c)), stamps)
  }

  /** How the `c`-th kept text is written. */
  function GoRender(ids: nat -> Uuid, stamps: nat -> int): (nat, string) -> string {
    (c: nat, t: string) => Block(Record(GoRequestId(ids(c)), stamps(c), t))
  }

  /** The blocks written for `texts`, the `c`-th one by `render(c, texts[c])`. */
  function Rendered(texts: seq<string>, render: (nat, string) -> string): (bs: seq<string>)
    ensures |bs| == |texts|
  {
    seq(|texts|, c requires 0 <= c < |texts| => render(c, texts[c]))
  }

  /** The loop over the first `j` data rows, returning what it wrote and the count. A row
      the loop skips writes nothing; a kept row writes its block, then a separator unless
      the ROW is the last data row (the test compares the row's index among ALL data rows,
      kept or not, with the number of data rows less one). */
  function Emitted<R>(rows: seq<R>, pick: R -> Option<string>, render: (nat, string) -> string, j: nat)
    : (string, nat)
    requires j <= |rows|
    decreases j
  {
    if j == 0 then ("", 0)
    else
      var prev := Emitted(rows, pick, render, j - 1);
      match pick(rows[j - 1])
      case None => prev
      case Some(t) => (prev.0 + render(prev.1, t) + InnerSep(j - 1, |rows|), prev.1 + 1)
  }

  /** `extractRequestsFromExcel`: the text written to the output file and the number of
      records, or the error that stops it before the file is created. */
  function ExtractRequests(rows: seq<seq<string>>, column: string, ids: nat -> Uuid, stamps: nat -> int)
    : (r: Result<(string, nat), Error>)
    ensures r == Failure(EmptySheet) <==> rows == []
    ensures r == Failure(ColumnNotFound) <==> rows != [] && column !in rows[0]
  {
    if rows == [] then Failure(EmptySheet)
    else match FirstIndex(rows[0], column)
      case None => Failure(ColumnNotFound)
      case Some(col) =>
        var data := rows[1..];
        var (out, count) := Emitted(data, KeepAt(col), GoRender(ids, stamps), |data|);
        Success((out + SEP, count))
  }

  // ---------------------------------------------------------------- the loop

  lemma RenderedSnoc(texts: seq<string>, t: string, render: (nat, string) -> string)
    ensures Rendered(texts + [t], render) == Rendered(texts, render) + [render(|texts|, t)]
  {
  }

  /** The count is the number of kept rows so far. */
  lemma {:induction false} EmittedCount<R>(rows: seq<R>, pick: R -> Option<string>, render: (nat, string) -> string, j: nat)
    requires j <= |rows|
    ensures Emitted(rows, pick, render, j).1 == |Choose(rows[..j], pick)|
    decreases j
  {
    if j > 0 {
      EmittedCount(rows, pick, render, j - 1);
      ChooseSnoc(rows, pick, j);
    }
  }

  /** Before the last data row, every block written so far already has its separator. */
  lemma {:induction false} EmittedPrefix<R>(rows: seq<R>, pick: R -> Option<string>, render: (nat, string) -> string, j: nat)
    requires j < |rows|
    ensures Emitted(rows, pick, render, j).0 == Terminated(Rendered(Choose(rows[..j], pick), render))
    decreases j
  {
    if j > 0 {
      EmittedPrefix(rows, pick, render, j - 1);
      EmittedCount(rows, pick, render, j - 1);
      EmittedExtends(rows, pick, render, j);
    } else {
      assert rows[..j] == [];
    }
  }

  lemma EmittedExtends<R>(rows: seq<R>, pick: R -> Option<string>, render: (nat, string) -> string, j: nat)
    requires 0 < j < |rows|
    ensures var prev := Emitted(rows, pick, render, j - 1);
            var kept := Choose(rows[..j - 1], pick);
            prev.0 == Terminated(Rendered(kept, render)) && prev.1 == |kept| ==>
            Emitted(rows, pick, render, j).0 == Terminated(Rendered(Choose(rows[..j], pick), render))
  {
    var prev := Emitted(rows, pick, render, j - 1);
    var kept := Choose(rows[..j - 1], pick);
    ChooseSnoc(rows, pick, j);
    match pick(rows[j - 1])
    case None =>
      ConcatEmpty(kept);
    case Some(t) =>
      var b := render(prev.1, t);
      assert InnerSep(j - 1, |rows|) == SEP;
      ConcatAssoc(prev.0, b, SEP);
      RenderedSnoc(kept, t, render);
      TerminatedAppend(Rendered(kept, render), render(|kept|, t));
  }

  /** After the whole loop and the final write: every block has a separator, and one more
      separator follows unless the last data row was kept. */
  lemma EmittedStream<R>(rows: seq<R>, pick: R -> Option<string>, render: (nat, string) -> string)
    ensures var out := Emitted(rows, pick, render, |rows|);
            var blocks := Rendered(Choose(rows, pick), render);
            && out.1 == |Choose(rows, pick)|
            && out.0 + SEP == Terminated(blocks) + (if rows != [] && pick(rows[|rows| - 1]).Some? then "" else SEP)
  {
    EmittedCount(rows, pick, render, |rows|);
    assert rows[..|rows|] == rows;
    if rows != [] {
      var i := |rows| - 1;
      EmittedPrefix(rows, pick, render, i);
      EmittedCount(rows, pick, render, i);
      EmittedLast(rows, pick, render);
    }
  }

  lemma EmittedLast<R>(rows: seq<R>, pick: R -> Option<string>, render: (nat, string) -> string)
    requires rows != []
    ensures var i := |rows| - 1;
            var prev := Emitted(rows, pick, render, i);
            var kept := Choose(rows[..i], pick);
            prev.0 == Terminated(Rendered(kept, render)) && prev.1 == |kept| ==>
            Emitted(rows, pick, render, |rows|).0 + SEP ==
              Terminated(Rendered(Choose(rows, pick), render)) + (if pick(rows[i]).Some? then "" else SEP)
  {
    var n := |rows|;
    var i := n - 1;
    var prev := Emitted(rows, pick, render, i);
    var kept := Choose(rows[..i], pick);
    ChooseSnoc(rows, pick, n);
    assert rows[..n] == rows;
    match pick(rows[i])
    case None =>
      ConcatEmpty(kept);
    case Some(t) =>
      var b := render(prev.1, t);
      assert InnerSep(i, n) == "";
      ConcatEmpty(prev.0 + b);
      ConcatAssoc(prev.0, b, SEP);
      RenderedSnoc(kept, t, render);
      TerminatedAppend(Rendered(kept, render), render(|kept|, t));
      ConcatEmpty(Terminated(Rendered(kept + [t], render)));
  }

  // ---------------------------------------------------------------- the converter

  /** The blocks the loop renders are the blocks of the records drawn for the kept texts. */
  lemma RenderedBlocks(texts: seq<string>, ids: nat -> Uuid, stamps: nat -> int)
    ensures Rendered(texts, GoRender(ids, stamps)) == Blocks(GoRecords(texts, ids, stamps))
  {
    var rendered, recs := Rendered(texts, GoRender(ids, stamps)), GoRecords(texts, ids, stamps);
    forall c | 0 <= c < |texts|
      ensures rendered[c] == Blocks(recs)[c]
    {
      assert recs[c] == Record(GoRequestId(ids(c)), stamps(c), texts[c]);
    }
  }

  /** Whether the converter keeps the last data row of a sheet with a header row. */
  predicate LastRowKept(rows: seq<seq<string>>, col: nat)
    requires rows != []
  {
    |rows| > 1 && CellText(rows[|rows| - 1], col).Some?
  }

  /** The converter's output and count: one record per kept row, in row order, each
      followed by a separator, and ONE MORE separator unless the last data row was kept.
      The count is the number of records. */
  lemma ExtractedStream(rows: seq<seq<string>>, column: string, col: nat, ids: nat -> Uuid, stamps: nat -> int)
    requires rows != [] && col < |rows[0]| && rows[0][col] == column
    requires forall k :: 0 <= k < col ==> rows[0][k] != column
    ensures var recs := GoRecords(Kept(rows[1..], col), ids, stamps);
            ExtractRequests(rows, column, ids, stamps) ==
              Success((Terminated(Blocks(recs)) + (if LastRowKept(rows, col) then "" else SEP), |recs|))
  {
    var data := rows[1..];
    FirstIndexIsFirst(rows[0], column, col);
    EmittedStream(data, KeepAt(col), GoRender(ids, stamps));
    RenderedBlocks(Kept(data, col), ids, stamps);
    if data != [] {
      assert data[|data| - 1] == rows[|rows| - 1];
    }
  }

  /** A sheet with no kept row gives a lone separator and a count of zero. */
  lemma NothingKept(rows: seq<seq<string>>, column: string, col: nat, ids: nat -> Uuid, stamps: nat -> int)
    requires rows != [] && col < |rows[0]| && rows[0][col] == column
    requires forall k :: 0 <= k < col ==> rows[0][k] != column
    requires forall i :: 1 <= i < |rows| ==> CellText(rows[i], col).None?
    ensures ExtractRequests(rows, column, ids, stamps) == Success((SEP, 0))
  {
    var data := rows[1..];
    forall i | 0 <= i < |data|
      ensures KeepAt(col)(data[i]).None?
    {
      assert data[i] == rows[i + 1];
    }
    ChooseEmpty(data, KeepAt(col));
    assert Kept(data, col) == [];
    var recs := GoRecords(Kept(data, col), ids, stamps);
    assert Blocks(recs) == [];
    assert !LastRowKept(rows, col) by {
      if |rows| > 1 {
        assert rows[|rows| - 1] == data[|data| - 1];
      }
    }
    assert Terminated(Blocks(recs)) + SEP == SEP;
    ExtractedStream(rows, column, col, ids, stamps);
  }

  /** The rows kept are exactly the data rows long enough to hold the column whose cell
      is not blank, in row order, and each record's text is that cell trimmed. */
  lemma KeptRows(data: seq<seq<string>>, col: nat)
    ensures var kept := Kept(data, col);
            var at := Positions(data, KeepAt(col));
            && |kept| == |at|
            && (forall k :: 0 <= k < |kept| ==>
                  col < |data[at[k]]| && kept[k] == Trim(Spaces(GoUnicode), data[at[k]][col]) && kept[k] != "")
            && (forall i :: 0 <= i < |data| && col < |data[i]| && !AllIn(Spaces(GoUnicode), data[i][col]) ==> i in at)
  {
    ChooseAtPositions(data, KeepAt(col));
  }

  /** Every identifier is the first 24 characters of the dashed UUID form. */
  lemma GoIdentifiers(texts: seq<string>, ids: nat -> Uuid, stamps: nat -> int, k: nat)
    requires k < |texts|
    ensures var id := GoRecords(texts, ids, stamps)[k].id;
            |id| == 24 && id[8] == '-' && id[13] == '-' && id[18] == '-' && id[14] == '4'
  {
    assert GoRecords(texts, ids, stamps)[k].id == GoRequestId(ids(k));
  }

  // ---------------------------------------------------------------- the trailing separator

  /** As written, skipped rows at the end of the sheet leave the last record followed by
      TWO separators, so reading the output back yields an extra empty piece. */
  lemma SkippedLastRowDoublesSeparator(rows: seq<seq<string>>, column: string, col: nat, ids: nat -> Uuid, stamps: nat -> int)
    requires rows != [] && col < |rows[0]| && rows[0][col] == column
    requires forall k :: 0 <= k < col ==> rows[0][k] != column
    requires !LastRowKept(rows, col)
    requires var blocks := Blocks(GoRecords(Kept(rows[1..], col), ids, stamps));
             forall k :: 0 <= k < |blocks| ==> Splittable(blocks[k])
    ensures var blocks := Blocks(GoRecords(Kept(rows[1..], col), ids, stamps));
            && ExtractRequests(rows, column, ids, stamps).Success?
            && Split(ExtractRequests(rows, column, ids, stamps).value.0, SEP, -1) == blocks + ["", ""]
  {
    ExtractedStream(rows, column, col, ids, stamps);
    ConcatEmpty(Terminated(Blocks(GoRecords(Kept(rows[1..], col), ids, stamps))) + SEP);
    SplitStreamExtraSep(Blocks(GoRecords(Kept(rows[1..], col), ids, stamps)));
  }

  /** A concrete sheet showing it: one request, then a row whose cell is a single space. */
  lemma TrailingBlankRow(ids: nat -> Uuid, stamps: nat -> int)
    ensures var r := Record(GoRequestId(ids(0)), stamps(0), "GET");
            ExtractRequests([["http"], ["GET"], [" "]], "http", ids, stamps) == Success((Block(r) + SEP + SEP, 1))
  {
    RequestCell();
    BlankCell();
    KeptThenSkipped("http", ["GET"], [" "], "GET", ids, stamps);
  }

  /** A sheet with one column whose two data rows are kept and skipped, in that order. */
  lemma KeptThenSkipped(column: string, a: seq<string>, b: seq<string>, t: string, ids: nat -> Uuid, stamps: nat -> int)
    requires CellText(a, 0) == Some(t) && CellText(b, 0) == None
    ensures var r := Record(GoRequestId(ids(0)), stamps(0), t);
            ExtractRequests([[column], a, b], column, ids, stamps) == Success((Block(r) + SEP + SEP, 1))
  {
    var rows := [[column], a, b];
    var r := Record(GoRequestId(ids(0)), stamps(0), t);
    assert Terminated(Blocks(GoRecords(Kept(rows[1..], 0), ids, stamps))) == Block(r) + SEP by {
      assert rows[1..] == [a, b];
      KeptFirstOfTwo(a, b, 0, t);
      assert GoRecords([t], ids, stamps) == [r];
      SingleStream(r);
    }
    assert !LastRowKept(rows, 0);
    ExtractedStream(rows, column, 0, ids, stamps);
  }

  lemma RequestCell()
    ensures CellText(["GET"], 0) == Some("GET")
  {
    TrimPadded(Spaces(GoUnicode), "", "GET", "");
    assert "" + "GET" + "" == "GET";
  }

  lemma BlankCell()
    ensures CellText([" "], 0) == None
  {
    assert AllIn(Spaces(GoUnicode), " ");
  }

  /** Two data rows of which only the first is kept. */
  lemma KeptFirstOfTwo(a: seq<string>, b: seq<string>, col: nat, t: string)
    requires CellText(a, col) == Some(t) && CellText(b, col) == None
    ensures Kept([a, b], col) == [t]
  {
    var data := [a, b];
    ChooseSnoc(data, KeepAt(col), 2);
    ChooseSnoc(data, KeepAt(col), 1);
    assert data[..2] == data;
    assert data[..0] == [];
  }

  lemma SingleStream(r: Record)
    ensures Terminated(Blocks([r])) == Block(r) + SEP
  {
    assert Blocks([r]) == [Block(r)];
    assert Terminated([Block(r)]) == Block(r) + SEP + Terminated([]);
  }

  /** The evidently intended converter: a separator after every record but the last
      KEPT one, then the final separator, as the Python converter does. */
  function ExtractRequestsIntended(rows: seq<seq<string>>, column: string, ids: nat -> Uuid, stamps: nat -> int)
    : (r: Result<(string, nat), Error>)
    ensures r == Failure(EmptySheet) <==> rows == []
    ensures r == Failure(ColumnNotFound) <==> rows != [] && column !in rows[0]
  {
    if rows == [] then Failure(EmptySheet)
    else match FirstIndex(rows[0], column)
      case None => Failure(ColumnNotFound)
      case Some(col) =>
        var blocks := Blocks(GoRecords(Kept(rows[1..], col), ids, stamps));
        Success((Written(blocks, |blocks|) + SEP, |blocks|))
  }

  /** Corrected, every record is followed by exactly one separator whichever rows are
      skipped, the count is unchanged, and reading the output back gives the records and
      one empty trailing piece. */
  lemma IntendedStream(rows: seq<seq<string>>, column: string, col: nat, ids: nat -> Uuid, stamps: nat -> int)
    requires rows != [] && col < |rows[0]| && rows[0][col] == column
    requires forall k :: 0 <= k < col ==> rows[0][k] != column
    ensures var blocks := Blocks(GoRecords(Kept(rows[1..], col), ids, stamps));
            var r := ExtractRequestsIntended(rows, column, ids, stamps);
            && r == Success((if blocks == [] then SEP else Terminated(blocks), |blocks|))
            && r.value.1 == ExtractRequests(rows, column, ids, stamps).value.1
            && (blocks != [] && (forall k :: 0 <= k < |blocks| ==> Splittable(blocks[k])) ==>
                  Split(r.value.0, SEP, -1) == blocks + [""])
  {
    var blocks := Blocks(GoRecords(Kept(rows[1..], col), ids, stamps));
    FirstIndexIsFirst(rows[0], column, col);
    WrittenStream(blocks);
    ExtractedStream(rows, column, col, ids, stamps);
    if blocks != [] && (forall k :: 0 <= k < |blocks| ==> Splittable(blocks[k])) {
      SplitStream(blocks);
    }
  }
}
