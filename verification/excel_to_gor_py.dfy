/** The Python spreadsheet converter: every non-missing cell of the request column becomes
    one GOR record, its text stripped of surrounding whitespace, and every record is
    followed by exactly one separator. Identifiers and timestamps are drawn per record
    from the given streams. */
module ExcelToGorPy {
  import opened Wrappers
  import opened Seqs
  import opened Text
  import opened Whitespace
  import opened RequestId
  import opened GorFormat

  /** A spreadsheet as pandas reads it: the column names, and per data row its cells,
      `None` standing for a cell the reader returns as NaN (an empty cell, or a text such
      as `NA` or `null` that pandas reads as missing). A row shorter than the header reads
      as missing cells at its end. */
  datatype Sheet = Sheet(columns: seq<string>, rows: seq<seq<Option<string>>>)

  datatype Error = ColumnNotFound

  /** The cell of `row` in the column at `col`. */
  function CellAt(row: seq<Option<string>>, col: nat): Option<string> {
    if col < |row| then row[col] else None
  }

  /** The column with its missing cells dropped: the present cells, in row order. */
  function Present(rows: seq<seq<Option<string>>>, col: nat): (cells: seq<string>)
    ensures |cells| <= |rows|
  {
    Choose(rows, row => CellAt(row, col))
  }

  /** Every cell with the whitespace at both ends removed. */
  function Stripped(cells: seq<string>): (texts: seq<string>)
    ensures |texts| == |cells|
  {
    seq(|cells|, k requires 0 <= k < |cells| => Trim(Spaces(PyStr), cells[k]))
  }

  /** The records written for `cells`: the `k`-th takes the `k`-th identifier and timestamp. */
  function PyRecords(cells: seq<string>, ids: nat -> Uuid, stamps: nat -> int): seq<Record> {
    Records(Stripped(cells), (k: nat) => PyRequestId(ids(k)), stamps)
  }

  /** `extract_requests_from_excel`: the text written to the output file, or the error
      that stops it before the file is opened. */
  function ExtractRequests(sheet: Sheet, column: string, ids: nat -> Uuid, stamps: nat -> int)
    : (r: Result<string, Error>)
    ensures r.Failure? <==> column !in sheet.columns
  {
    match FirstIndex(sheet.columns, column)
    case None => Failure(ColumnNotFound)
    case Some(col) =>
      var blocks := Blocks(PyRecords(Present(sheet.rows, col), ids, stamps));
      Success(Written(blocks, |blocks|) + SEP)
  }

  /** The converter's output: one record per present cell, in row order, each followed
      by exactly one separator; a lone separator when the column has no present cell. */
  lemma ExtractedStream(sheet: Sheet, column: string, col: nat, ids: nat -> Uuid, stamps: nat -> int)
    requires col < |sheet.columns| && sheet.columns[col] == column
    requires forall k :: 0 <= k < col ==> sheet.columns[k] != column
    ensures var recs := PyRecords(Present(sheet.rows, col), ids, stamps);
            ExtractRequests(sheet, column, ids, stamps) ==
              Success(if recs == [] then SEP else Terminated(Blocks(recs)))
  {
    FirstIndexIsFirst(sheet.columns, column, col);
    WrittenStream(Blocks(PyRecords(Present(sheet.rows, col), ids, stamps)));
  }

  // ---------------------------------------------------------------- the records

  /** The records are exactly the present cells, in row order: the `k`-th record comes
      from the `k`-th present cell, stripped, and every present cell has one. */
  lemma RecordsOfPresentCells(rows: seq<seq<Option<string>>>, col: nat, ids: nat -> Uuid, stamps: nat -> int)
    ensures var recs := PyRecords(Present(rows, col), ids, stamps);
            var at := Positions(rows, row => CellAt(row, col));
            && |recs| == |at|
            && (forall k :: 0 <= k < |recs| ==>
                  CellAt(rows[at[k]], col).Some? &&
                  recs[k].text == Trim(Spaces(PyStr), CellAt(rows[at[k]], col).value))
            && (forall i :: 0 <= i < |rows| && CellAt(rows[i], col).Some? ==> i in at)
  {
    ChooseAtPositions(rows, row => CellAt(row, col));
  }

  /** A whitespace-only cell is not dropped: it gives a record with empty text. A record
      text is empty only for such a cell. */
  lemma BlankCellsKept(cells: seq<string>, ids: nat -> Uuid, stamps: nat -> int, k: nat)
    requires k < |cells|
    ensures var recs := PyRecords(cells, ids, stamps);
            k < |recs| && (recs[k].text == "" <==> AllIn(Spaces(PyStr), cells[k]))
  {
    var recs := PyRecords(cells, ids, stamps);
    assert |recs| == |cells|;
    assert recs[k].text == Stripped(cells)[k] == Trim(Spaces(PyStr), cells[k]);
  }

  /** Every identifier is 24 lower-case hex digits with the version digit `4` at index 12. */
  lemma PyIdentifiers(cells: seq<string>, ids: nat -> Uuid, stamps: nat -> int, k: nat)
    requires k < |cells|
    ensures var id := PyRecords(cells, ids, stamps)[k].id;
            |id| == 24 && AllHex(id) && id[12] == '4'
  {
    assert |PyRecords(cells, ids, stamps)| == |cells|;
    assert PyRecords(cells, ids, stamps)[k].id == PyRequestId(ids(k));
  }

  /** Reading the output back: when no block contains the separator, splitting on it gives
      one piece per record, in order, and one empty trailing piece. */
  lemma SplitOutput(recs: seq<Record>)
    requires recs != []
    requires forall k :: 0 <= k < |recs| ==> !Contains(Block(recs[k]), SEP)
    ensures var blocks := Blocks(recs);
            Split(Written(blocks, |blocks|) + SEP, SEP, -1) == blocks + [""]
  {
    var blocks := Blocks(recs);
    WrittenStream(blocks);
    SplitStream(blocks);
  }
}
