/**
 * The text side of `hwp_create_table.py`: the `--data` string becomes rows of cells, and
 * the table is filled cell by cell inside both the data and the `rows x cols` grid, in
 * row-major order. The host application's `cell.move`/`cell.text` calls are recorded as
 * a list of writes.
 */
module CreateTable {
  import opened Wrappers
  import opened Text

  // ---------------------------------------------------------------------------
  // parse_data_string
  // ---------------------------------------------------------------------------

  /** One row: `[cell.strip() for cell in row.split(',')]`. */
  function CellsOf(row: string): (cells: seq<string>)
    ensures |cells| == 1 + Count(row, ',')
    ensures forall j :: 0 <= j < |cells| ==> IsTrimmed(cells[j]) && ',' !in cells[j]
  {
    var pieces := Split(row, ',');
    var cells := StripEach(pieces);
    assert forall j :: 0 <= j < |cells| ==> ',' !in cells[j] by {
      forall j | 0 <= j < |cells| ensures ',' !in cells[j] {
        if ',' in cells[j] {
          StripKeeps(pieces[j], ',');
        }
      }
    }
    cells
  }

  /** The rows that `parse_data_string` builds from a non-empty string. */
  function ParsedRows(s: string): (rows: seq<seq<string>>)
  {
    var pieces := SplitEscapedNewline(Strip(s));
    seq(|pieces|, i requires 0 <= i < |pieces| => CellsOf(pieces[i]))
  }

  /**
   * `parse_data_string`: `None` for the empty string; otherwise the trimmed string cut at
   * every two-character backslash-`n`, and each piece cut at `,` into trimmed cells.
   */
  method ParseDataString(s: string) returns (r: Option<seq<seq<string>>>)
    ensures r == None <==> s == []
    ensures r.Some? ==> r.value == ParsedRows(s)
    ensures r.Some? ==> |r.value| == 1 + EscapedNewlineCount(Strip(s))
    ensures r.Some? ==> forall i :: 0 <= i < |r.value| ==>
      r.value[i] == CellsOf(SplitEscapedNewline(Strip(s))[i])
    ensures r.Some? ==> forall i, j :: 0 <= i < |r.value| && 0 <= j < |r.value[i]| ==>
      IsTrimmed(r.value[i][j]) && ',' !in r.value[i][j]
  {
    if s == [] {
      return None;
    }
    var pieces := SplitEscapedNewline(Strip(s));
    var rows: seq<seq<string>> := [];
    var i := 0;
    while i < |pieces|
      invariant 0 <= i <= |pieces|
      invariant |rows| == i
      invariant forall k :: 0 <= k < i ==> rows[k] == CellsOf(pieces[k])
    {
      rows := rows + [CellsOf(pieces[i])];
      i := i + 1;
    }
    return Some(rows);
  }

  /** Every parsed row has at least one cell. */
  lemma {:induction false} ParsedRowsNonEmpty(s: string, i: nat)
    requires i < |ParsedRows(s)|
    ensures |ParsedRows(s)[i]| >= 1
  {
  }

  /** A real newline does not start a new row: without a backslash-`n`, the whole trimmed
      string is one row. */
  lemma {:induction false} RealNewlineKeepsOneRow(s: string)
    requires NoEscapedNewline(Strip(s))
    ensures ParsedRows(s) == [CellsOf(Strip(s))]
  {
    SplitWithoutEscapes(Strip(s));
  }

  /** The rows of the string branch in `create_table`: cut the same way, cells not trimmed. */
  function RawRows(s: string): (rows: seq<seq<string>>)
    ensures |rows| == 1 + EscapedNewlineCount(Strip(s))
    ensures forall i :: 0 <= i < |rows| ==> |rows[i]| >= 1
  {
    var pieces := SplitEscapedNewline(Strip(s));
    seq(|pieces|, i requires 0 <= i < |pieces| => Split(pieces[i], ','))
  }

  /** The two ways of reading a string agree cell for cell up to trimming: parsing trims
      the very cells that the string branch leaves as they are. */
  lemma {:induction false} ParsedIsTrimmedRaw(s: string)
    ensures |ParsedRows(s)| == |RawRows(s)|
    ensures forall i :: 0 <= i < |RawRows(s)| ==> ParsedRows(s)[i] == StripEach(RawRows(s)[i])
  {
  }

  /** The string branch keeps the spaces around a cell: a raw cell equals the parsed cell
      in its place exactly when it has no leading or trailing whitespace. */
  lemma {:induction false} RawCellsKeepSpaces(s: string, i: nat, j: nat)
    requires i < |RawRows(s)| && j < |RawRows(s)[i]|
    ensures i < |ParsedRows(s)| && j < |ParsedRows(s)[i]|
    ensures ParsedRows(s)[i][j] == Strip(RawRows(s)[i][j])
    ensures ParsedRows(s)[i][j] == RawRows(s)[i][j] <==> IsTrimmed(RawRows(s)[i][j])
  {
    ParsedIsTrimmedRaw(s);
    var raw := RawRows(s)[i][j];
    if IsTrimmed(raw) {
      StripTrimmed(raw);
    }
  }

  // ---------------------------------------------------------------------------
  // create_table: the bounded fill
  // ---------------------------------------------------------------------------

  /** `len(range(min(n, limit)))` */
  function Bound(n: nat, limit: int): (b: nat)
    ensures b <= n && b as int <= (if limit < 0 then 0 else limit)
    ensures b == n || b == limit || (b == 0 && limit < 0)
  {
    if limit <= 0 then 0 else if n < limit then n else limit
  }

  /** `app.cell.move(row, col)` followed by `app.cell.text = text`. */
  datatype Write = Write(row: nat, col: nat, text: string)

  /** The writes for the first `m` cells of row `r`. */
  function RowWrites(data: seq<seq<string>>, r: nat, m: nat): (ws: seq<Write>)
    requires r < |data| && m <= |data[r]|
    ensures |ws| == m
    ensures forall j :: 0 <= j < m ==> ws[j] == Write(r, j, data[r][j])
  {
    seq(m, j requires 0 <= j < m => Write(r, j, data[r][j]))
  }

  /** The writes the fill loop makes for its first `n` rows. */
  function FillPlan(data: seq<seq<string>>, cols: int, n: nat): seq<Write>
    requires n <= |data|
  {
    if n == 0 then []
    else FillPlan(data, cols, n - 1) + RowWrites(data, n - 1, Bound(|data[n - 1]|, cols))
  }

  /** A write that lies before another in row-major order. */
  predicate Before(a: Write, b: Write) {
    a.row < b.row || (a.row == b.row && a.col < b.col)
  }

  /** The writes go in strictly increasing row-major order, so no cell is written twice,
      and every write lies in one of the first `n` rows. */
  lemma {:induction false} FillPlanRowMajor(data: seq<seq<string>>, cols: int, n: nat)
    requires n <= |data|
    ensures forall i :: 0 <= i < |FillPlan(data, cols, n)| ==> FillPlan(data, cols, n)[i].row < n
    ensures forall i, j :: 0 <= i < j < |FillPlan(data, cols, n)| ==>
      Before(FillPlan(data, cols, n)[i], FillPlan(data, cols, n)[j])
  {
    if n > 0 {
      FillPlanRowMajor(data, cols, n - 1);
      var before := FillPlan(data, cols, n - 1);
      var last := RowWrites(data, n - 1, Bound(|data[n - 1]|, cols));
      var all := FillPlan(data, cols, n);
      assert all == before + last;
      forall i | 0 <= i < |all| ensures all[i].row < n {
        if i >= |before| {
          assert all[i] == last[i - |before|];
        }
      }
      forall i, j | 0 <= i < j < |all| ensures Before(all[i], all[j]) {
        if j >= |before| {
          assert all[j] == last[j - |before|];
          if i >= |before| {
            assert all[i] == last[i - |before|];
          }
        }
      }
    }
  }

  /** Exactly the cells inside both the data and the first `n` rows, up to `cols` columns
      in each, are written, each with its own cell text. */
  lemma {:induction false} FillPlanWrites(data: seq<seq<string>>, cols: int, n: nat, w: Write)
    requires n <= |data|
    ensures w in FillPlan(data, cols, n) <==>
      w.row < n && w.col < Bound(|data[w.row]|, cols) && w.text == data[w.row][w.col]
  {
    if n > 0 {
      FillPlanWrites(data, cols, n - 1, w);
      var before := FillPlan(data, cols, n - 1);
      var last := RowWrites(data, n - 1, Bound(|data[n - 1]|, cols));
      assert FillPlan(data, cols, n) == before + last;
      if w in last {
        var j :| 0 <= j < |last| && last[j] == w;
      }
      if w.row == n - 1 && w.col < Bound(|data[w.row]|, cols) && w.text == data[w.row][w.col] {
        assert last[w.col] == w;
      }
    }
  }

  /**
   * The fill loop of `create_table`: for each row index below `min(len(data), rows)` and
   * each column index below `min(len(data[row]), cols)`, move to that cell and write its
   * text.
   */
  method FillCells(rows: int, cols: int, data: seq<seq<string>>) returns (writes: seq<Write>)
    ensures writes == FillPlan(data, cols, Bound(|data|, rows))
  {
    writes := [];
    var r := 0;
    while r < Bound(|data|, rows)
      invariant 0 <= r <= Bound(|data|, rows)
      invariant writes == FillPlan(data, cols, r)
    {
      ghost var done := writes;
      var c := 0;
      while c < Bound(|data[r]|, cols)
        invariant 0 <= c <= Bound(|data[r]|, cols)
        invariant writes == done + RowWrites(data, r, c)
      {
        writes := writes + [Write(r, c, data[r][c])];
        c := c + 1;
      }
      r := r + 1;
    }
  }

  /** What `create_table` was given as `data`. */
  datatype TableData = NoData | Grid(cells: seq<seq<string>>) | Csv(text: string)

  /** The rows the fill loop walks: nothing when `data` is falsy (`None`, `[]`, `""`). */
  function RowsData(data: TableData): seq<seq<string>>
  {
    match data
    case NoData => []
    case Grid(cells) => cells
    case Csv(text) => if text == [] then [] else RawRows(text)
  }

  /** `create_table` as far as the scripts decide it: the table is created with the given
      size, then filled when there is data. */
  method CreateTableCalls(rows: int, cols: int, data: TableData) returns (writes: seq<Write>)
    ensures writes == FillPlan(RowsData(data), cols, Bound(|RowsData(data)|, rows))
  {
    writes := [];
    var truthy := match data
      case NoData => false
      case Grid(cells) => cells != []
      case Csv(text) => text != [];
    if truthy {
      var rowsData: seq<seq<string>>;
      if data.Csv? {
        rowsData := RawRows(data.text);
      } else {
        rowsData := data.cells;
      }
      writes := FillCells(rows, cols, rowsData);
    }
  }

  /** How `main` ends: rejected dimensions, or a run that may have warned about extra rows. */
  datatype TableRun = Rejected | Ran(warned: bool, writes: seq<Write>)

  /**
   * `main`: non-positive dimensions are rejected with no cell written; a `--data`
   * string is parsed and a warning is given when it has more rows than the table; then
   * the table is created and filled.
   */
  method CreateTableMain(rows: int, cols: int, dataArg: string) returns (run: TableRun)
    ensures run == Rejected <==> rows <= 0 || cols <= 0
    ensures run.Ran? ==> (run.warned <==> dataArg != [] && |ParsedRows(dataArg)| > rows)
    ensures run.Ran? ==> dataArg == [] ==> run.writes == []
    ensures run.Ran? ==> dataArg != [] ==>
      var data := ParsedRows(dataArg);
      run.writes == FillPlan(data, cols, Bound(|data|, rows))
    ensures run.Ran? ==> forall i :: 0 <= i < |run.writes| ==>
      run.writes[i].row < rows && run.writes[i].col < cols
  {
    if rows <= 0 || cols <= 0 {
      return Rejected;
    }
    var data := NoData;
    var warned := false;
    if dataArg != [] {
      var parsed := ParseDataString(dataArg);
      data := Grid(parsed.value);
      warned := |parsed.value| > rows;
    }
    var writes := CreateTableCalls(rows, cols, data);
    ghost var rowsData := RowsData(data);
    forall i | 0 <= i < |writes| ensures writes[i].row < rows && writes[i].col < cols {
      FillPlanRowMajor(rowsData, cols, Bound(|rowsData|, rows));
      FillPlanWrites(rowsData, cols, Bound(|rowsData|, rows), writes[i]);
    }
    return Ran(warned, writes);
  }
}
