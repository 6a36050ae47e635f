/** `XlsxReader`: every sheet of a workbook becomes a rectangular grid of
    display strings, rendered once as an HTML table and once as TSV. */
module XlsxReader {
  import opened KotlinStd
  import opened HtmlEscape

  /** A spreadsheet row as the workbook library hands it over: `lastCellNum`
      is one past the index of the last cell (negative when the row has no
      cells), and `cells` maps each present cell index to the string the
      data formatter and formula evaluator produce for it. An index that is
      not a key stands for a cell the row does not have. */
  datatype PoiRow = PoiRow(lastCellNum: int, cells: map<int, string>)

  /** A sheet: its name, the first and last row numbers, and the present
      rows by row number. */
  datatype PoiSheet = PoiSheet(sheetName: string, firstRowNum: int, lastRowNum: int, rows: map<int, PoiRow>)

  /** One parsed sheet: the name, the wrapped HTML page and the TSV text. */
  datatype XlsxSheet = XlsxSheet(name: string, html: string, tsv: string)

  datatype XlsxContent = XlsxContent(sheets: seq<XlsxSheet>)

  const TablePrefix: string := "<div class=\"table-container\"><table><tbody>"
  const TableSuffix: string := "</tbody></table></div>"

  // ---------------------------------------------------------------- reading

  /** `max(lastCellNum, 0)`: how many cells `readRow` reads. */
  function CellCount(row: PoiRow): nat
  {
    if row.lastCellNum < 0 then 0 else row.lastCellNum
  }

  /** The display string of cell `i`, and `""` for a missing cell. */
  function CellValue(row: PoiRow, i: int): string
  {
    if i in row.cells then row.cells[i] else ""
  }

  /** The values of row number `i`, and no values for a row the sheet lacks. */
  function RowAt(sheet: PoiSheet, i: int): seq<string>
  {
    if i in sheet.rows then RowValues(sheet.rows[i]) else []
  }

  /** The values of a row: one per cell index below its cell count. */
  function RowValues(row: PoiRow): seq<string>
  {
    seq(CellCount(row), j => CellValue(row, j))
  }

  /** The rows before padding: one per row number from `firstRowNum` to
      `lastRowNum`, none when the range is empty. */
  function RawRows(sheet: PoiSheet): seq<seq<string>>
  {
    if sheet.lastRowNum >= sheet.firstRowNum then
      seq(sheet.lastRowNum - sheet.firstRowNum + 1, k => RowAt(sheet, sheet.firstRowNum + k))
    else []
  }

  /** The widest row's length, 0 for no rows. */
  function MaxWidth(rows: seq<seq<string>>): (m: nat)
    ensures forall k | 0 <= k < |rows| :: |rows[k]| <= m
    ensures rows == [] ==> m == 0
    ensures rows != [] ==> exists k | 0 <= k < |rows| :: |rows[k]| == m
  {
    if rows == [] then 0
    else
      var m := MaxWidth(rows[..|rows| - 1]);
      var w := |rows[|rows| - 1]|;
      if w > m then w else m
  }

  /** Adding a row raises the widest width to that row's width, if it is wider. */
  lemma MaxWidthSnoc(rows: seq<seq<string>>, row: seq<string>)
    ensures MaxWidth(rows + [row]) == if MaxWidth(rows) > |row| then MaxWidth(rows) else |row|
  {
    assert (rows + [row])[..|rows|] == rows;
  }

  /** `readRow`: the first `max(lastCellNum, 0)` cells, a missing cell read as `""`. */
  method ReadRow(row: PoiRow) returns (values: seq<string>)
    ensures |values| == CellCount(row)
    ensures forall i | 0 <= i < |values| :: values[i] == CellValue(row, i)
    ensures values == RowValues(row)
  {
    values := [];
    var lastCell := if row.lastCellNum < 0 then 0 else row.lastCellNum;
    for cellIndex := 0 to lastCell
      invariant |values| == cellIndex
      invariant forall i | 0 <= i < cellIndex :: values[i] == CellValue(row, i)
    {
      var cellValue := if cellIndex in row.cells then row.cells[cellIndex] else "";
      values := values + [cellValue];
    }
  }

  /** The row loop of `parse`: reads every row number in range, an absent row
      as no values, and keeps the running maximum width. */
  method ReadRows(sheet: PoiSheet) returns (rows: seq<seq<string>>, maxColumns: nat)
    ensures rows == RawRows(sheet)
    ensures maxColumns == MaxWidth(rows)
  {
    rows := [];
    maxColumns := 0;
    if sheet.lastRowNum >= sheet.firstRowNum {
      var rowIndex := sheet.firstRowNum;
      while rowIndex <= sheet.lastRowNum
        invariant sheet.firstRowNum <= rowIndex <= sheet.lastRowNum + 1
        invariant |rows| == rowIndex - sheet.firstRowNum
        invariant forall k | 0 <= k < |rows| :: rows[k] == RowAt(sheet, sheet.firstRowNum + k)
        invariant maxColumns == MaxWidth(rows)
      {
        var values: seq<string>;
        if rowIndex in sheet.rows {
          values := ReadRow(sheet.rows[rowIndex]);
        } else {
          values := [];
        }
        assert values == RowAt(sheet, rowIndex);
        maxColumns := if maxColumns > |values| then maxColumns else |values|;
        MaxWidthSnoc(rows, values);
        rows := rows + [values];
        rowIndex := rowIndex + 1;
      }
    }
  }

  // ------------------------------------------------------------ normalizing

  /** A row right-padded with `""` to `width` cells; a longer row is kept. */
  function PadRow(row: seq<string>, width: nat): (r: seq<string>)
    ensures |r| == if |row| < width then width else |row|
    ensures r[..|row|] == row
    ensures forall i | |row| <= i < |r| :: r[i] == ""
  {
    if |row| < width then row + seq(width - |row|, _ => "") else row
  }

  /** Every row padded to `width`. */
  function Normalize(rows: seq<seq<string>>, width: nat): (r: seq<seq<string>>)
    ensures |r| == |rows|
  {
    seq(|rows|, k requires 0 <= k < |rows| => PadRow(rows[k], width))
  }

  /** The grid of a sheet: its raw rows padded to the widest one. */
  function Grid(sheet: PoiSheet): seq<seq<string>>
  {
    var raw := RawRows(sheet);
    Normalize(raw, MaxWidth(raw))
  }

  /** Padding to the maximum width makes the rows rectangular, keeps every
      value where it was, fills only with `""`, and keeps the maximum width. */
  lemma NormalizeRectangular(rows: seq<seq<string>>)
    ensures forall k | 0 <= k < |rows| :: |Normalize(rows, MaxWidth(rows))[k]| == MaxWidth(rows)
    ensures forall k | 0 <= k < |rows| :: Normalize(rows, MaxWidth(rows))[k][..|rows[k]|] == rows[k]
    ensures MaxWidth(Normalize(rows, MaxWidth(rows))) == MaxWidth(rows)
  {
    var m := MaxWidth(rows);
    var g := Normalize(rows, m);
    if rows != [] {
      var k :| 0 <= k < |rows| && |rows[k]| == m;
      assert |g[k]| == m;
    }
  }

  /** Padding a grid that is already rectangular changes nothing. */
  lemma NormalizeIdempotent(rows: seq<seq<string>>, width: nat)
    ensures Normalize(Normalize(rows, width), width) == Normalize(rows, width)
  {
    var g := Normalize(rows, width);
    forall k | 0 <= k < |g| ensures PadRow(g[k], width) == g[k] {
      assert |g[k]| >= width;
    }
  }

  /** A sheet's grid has one row per row number in range, all as wide as the
      widest row read, each starting with the values read. */
  lemma GridShape(sheet: PoiSheet)
    ensures |Grid(sheet)| == if sheet.lastRowNum >= sheet.firstRowNum then sheet.lastRowNum - sheet.firstRowNum + 1 else 0
    ensures forall k | 0 <= k < |Grid(sheet)| :: |Grid(sheet)[k]| == MaxWidth(RawRows(sheet))
    ensures forall k | 0 <= k < |Grid(sheet)| :: Grid(sheet)[k][..|RawRows(sheet)[k]|] == RawRows(sheet)[k]
  {
    NormalizeRectangular(RawRows(sheet));
  }

  // ------------------------------------------------------------------- HTML

  function CellHtml(cell: string): string
  {
    "<td>" + EscapeHtml(cell) + "</td>"
  }

  function CellsHtml(cells: seq<string>): string
  {
    if cells == [] then [] else CellHtml(cells[0]) + CellsHtml(cells[1..])
  }

  function RowHtml(row: seq<string>): string
  {
    "<tr>" + CellsHtml(row) + "</tr>"
  }

  function RowsHtml(rows: seq<seq<string>>): string
  {
    if rows == [] then [] else RowHtml(rows[0]) + RowsHtml(rows[1..])
  }

  /** The table `buildHtmlTable` produces: a container, one `<tr>` per row
      and one `<td>` per cell holding the escaped value. */
  function HtmlTable(rows: seq<seq<string>>): string
  {
    TablePrefix + RowsHtml(rows) + TableSuffix
  }

  lemma {:induction false} CellsHtmlAppend(a: seq<string>, b: seq<string>)
    ensures CellsHtml(a + b) == CellsHtml(a) + CellsHtml(b)
  {
    if a == [] {
      assert a + b == b;
    } else {
      assert (a + b)[0] == a[0] && (a + b)[1..] == a[1..] + b;
      CellsHtmlAppend(a[1..], b);
    }
  }

  lemma {:induction false} RowsHtmlAppend(a: seq<seq<string>>, b: seq<seq<string>>)
    ensures RowsHtml(a + b) == RowsHtml(a) + RowsHtml(b)
  {
    if a == [] {
      assert a + b == b;
    } else {
      assert (a + b)[0] == a[0] && (a + b)[1..] == a[1..] + b;
      RowsHtmlAppend(a[1..], b);
    }
  }

  lemma CellsHtmlSnoc(cells: seq<string>, j: nat)
    requires j < |cells|
    ensures CellsHtml(cells[..j + 1]) == CellsHtml(cells[..j]) + CellHtml(cells[j])
  {
    assert cells[..j + 1] == cells[..j] + [cells[j]];
    CellsHtmlAppend(cells[..j], [cells[j]]);
    assert [cells[j]][1..] == [];
  }

  lemma RowsHtmlSnoc(rows: seq<seq<string>>, i: nat)
    requires i < |rows|
    ensures RowsHtml(rows[..i + 1]) == RowsHtml(rows[..i]) + RowHtml(rows[i])
  {
    assert rows[..i + 1] == rows[..i] + [rows[i]];
    RowsHtmlAppend(rows[..i], [rows[i]]);
    assert [rows[i]][1..] == [];
  }

  /** `buildHtmlTable`'s cell loop: a `<td>` per cell holding the escaped value. */
  method AppendCells(builder: StringBuilder, row: seq<string>)
    modifies builder
    ensures builder.contents == old(builder.contents) + CellsHtml(row)
  {
    ghost var start := builder.contents;
    for j := 0 to |row|
      invariant builder.contents == start + CellsHtml(row[..j])
    {
      ghost var done := builder.contents;
      var open, close := "<td>", "</td>";
      builder.Append(open);
      builder.Append(EscapeHtml(row[j]));
      builder.Append(close);
      assert builder.contents == done + CellHtml(row[j]);
      CellsHtmlSnoc(row, j);
      assert builder.contents == start + (CellsHtml(row[..j]) + CellHtml(row[j]));
    }
    assert row[..|row|] == row;
  }

  /** One pass of `buildHtmlTable`'s row loop: `<tr>`, the cells, `</tr>`. */
  method AppendRow(builder: StringBuilder, row: seq<string>)
    modifies builder
    ensures builder.contents == old(builder.contents) + RowHtml(row)
  {
    var open, close := "<tr>", "</tr>";
    builder.Append(open);
    AppendCells(builder, row);
    builder.Append(close);
  }

  /** `buildHtmlTable`: a `StringBuilder` filled row by row and cell by cell. */
  method BuildHtmlTable(rows: seq<seq<string>>) returns (html: string)
    ensures html == HtmlTable(rows)
  {
    var builder := new StringBuilder();
    builder.Append(TablePrefix);
    for i := 0 to |rows|
      invariant builder.contents == TablePrefix + RowsHtml(rows[..i])
    {
      AppendRow(builder, rows[i]);
      RowsHtmlSnoc(rows, i);
    }
    builder.Append(TableSuffix);
    assert rows[..|rows|] == rows;
    html := builder.contents;
  }

  // ------------------------------------------------------- decoding the HTML

  /** Length of the text before the first `<`. */
  function TextLength(s: string): (n: nat)
    ensures n <= |s|
    ensures forall i | 0 <= i < n :: s[i] != '<'
    ensures n == |s| || s[n] == '<'
  {
    if s == [] || s[0] == '<' then 0 else 1 + TextLength(s[1..])
  }

  /** Reads `<td>…</td>` cells up to the closing `</tr>`, unescaping each
      cell's text; gives the cells and what follows the `</tr>`. */
  function DecodeCells(s: string): (r: Option<(seq<string>, string)>)
    ensures r.Some? ==> |r.value.1| < |s|
    decreases |s|
  {
    if |s| >= 5 && s[..5] == "</tr>" then Some(([], s[5..]))
    else if |s| >= 4 && s[..4] == "<td>" then
      var n := TextLength(s[4..]);
      var after := s[4 + n..];
      if |after| >= 5 && after[..5] == "</td>" then
        match DecodeCells(after[5..])
        case None => None
        case Some(tail) => Some(([Unescape(s[4..4 + n])] + tail.0, tail.1))
      else None
    else None
  }

  /** Reads a sequence of `<tr>…</tr>` rows that makes up the whole input. */
  function DecodeRows(s: string): Option<seq<seq<string>>>
    decreases |s|
  {
    if s == [] then Some([])
    else if |s| >= 4 && s[..4] == "<tr>" then
      match DecodeCells(s[4..])
      case None => None
      case Some(row) =>
        match DecodeRows(row.1)
        case None => None
        case Some(rows) => Some([row.0] + rows)
    else None
  }

  /** Recovers the grid from a table, or `None` when the input is not one. */
  function DecodeHtmlTable(html: string): Option<seq<seq<string>>>
  {
    var p := TablePrefix;
    var q := TableSuffix;
    if |html| >= |p| + |q| && html[..|p|] == p && html[|html| - |q|..] == q then
      DecodeRows(html[|p|..|html| - |q|])
    else None
  }

  lemma TextLengthOf(t: string, rest: string)
    requires forall i | 0 <= i < |t| :: t[i] != '<'
    requires rest != [] && rest[0] == '<'
    ensures TextLength(t + rest) == |t|
  {
    var s := t + rest;
    assert s[|t|] == '<';
  }

  lemma DecodeCellsClose(e: string, rest: string)
    requires e == "</tr>"
    ensures DecodeCells(e + rest) == Some(([], rest))
  {
    var s := e + rest;
    assert s[..5] == e && s[5..] == rest;
  }

  /** One `<td>…</td>` cell whose text has no `<` is read as the unescaped text. */
  lemma DecodeCellsCell(s: string, o: string, t: string, c: string, rest: string)
    requires o == "<td>" && c == "</td>"
    requires s == o + t + c + rest
    requires forall i | 0 <= i < |t| :: t[i] != '<'
    requires rest != [] && rest[0] == '<'
    ensures DecodeCells(s) ==
      match DecodeCells(rest)
      case None => None
      case Some(tail) => Some(([Unescape(t)] + tail.0, tail.1))
  {
    assert s[1] == o[1];
    assert s[..4] == o;
    assert s[4..] == t + (c + rest);
    TextLengthOf(t, c + rest);
    var after := s[4 + |t|..];
    assert after == c + rest;
    assert after[..5] == c && after[5..] == rest;
    assert s[4..4 + |t|] == t;
  }

  lemma DecodeCellsStep(cell: string, rest: string)
    requires rest != [] && rest[0] == '<'
    ensures DecodeCells(CellHtml(cell) + rest) ==
      match DecodeCells(rest)
      case None => None
      case Some(tail) => Some(([cell] + tail.0, tail.1))
  {
    var t := EscapeHtml(cell);
    EscapeHtmlNoMarkup(cell);
    UnescapeEscapeHtml(cell);
    DecodeCellsCell(CellHtml(cell) + rest, "<td>", t, "</td>", rest);
  }

  lemma CellsHtmlStart(cells: seq<string>, tail: string)
    requires tail != [] && tail[0] == '<'
    ensures (CellsHtml(cells) + tail)[0] == '<'
  {
    if cells != [] {
      var x := CellHtml(cells[0]);
      var y := CellsHtml(cells);
      assert x[0] == '<';
      assert y == x + CellsHtml(cells[1..]);
      assert y[0] == x[0];
      assert (y + tail)[0] == y[0];
    }
  }

  /** The first cell's markup, then the markup of the others and what follows. */
  lemma CellsHtmlCons(cells: seq<string>, e: string, rest: string)
    requires cells != [] && e != [] && e[0] == '<'
    ensures CellsHtml(cells) + e + rest == CellHtml(cells[0]) + (CellsHtml(cells[1..]) + e + rest)
    ensures (CellsHtml(cells[1..]) + e + rest)[0] == '<'
  {
    CellsHtmlStart(cells[1..], e + rest);
    assert CellsHtml(cells[1..]) + e + rest == CellsHtml(cells[1..]) + (e + rest);
  }

  lemma {:induction false} DecodeCellsOf(cells: seq<string>, e: string, rest: string)
    requires e == "</tr>"
    ensures DecodeCells(CellsHtml(cells) + e + rest) == Some((cells, rest))
  {
    var s := CellsHtml(cells) + e + rest;
    if cells == [] {
      assert DecodeCells(s) == Some((cells, rest)) by {
        assert s == e + rest;
        DecodeCellsClose(e, rest);
      }
    } else {
      assert DecodeCells(s) == Some((cells, rest)) by {
        var tail := CellsHtml(cells[1..]) + e + rest;
        CellsHtmlCons(cells, e, rest);
        DecodeCellsOf(cells[1..], e, rest);
        DecodeCellsPrepend(cells[0], cells[1..], tail, rest);
        assert [cells[0]] + cells[1..] == cells;
      }
    }
  }

  /** A cell in front of cells that decode gives one more cell. */
  lemma DecodeCellsPrepend(cell: string, more: seq<string>, tail: string, rest: string)
    requires tail != [] && tail[0] == '<'
    requires DecodeCells(tail) == Some((more, rest))
    ensures DecodeCells(CellHtml(cell) + tail) == Some(([cell] + more, rest))
  {
    DecodeCellsStep(cell, tail);
  }

  lemma DecodeRowsStep(row: seq<string>, rest: string)
    ensures DecodeRows(RowHtml(row) + rest) ==
      match DecodeRows(rest)
      case None => None
      case Some(rows) => Some([row] + rows)
  {
    var o := "<tr>";
    var c := "</tr>";
    var s := RowHtml(row) + rest;
    assert s == o + (CellsHtml(row) + c + rest);
    assert s[..4] == o && s[4..] == CellsHtml(row) + c + rest;
    DecodeCellsOf(row, c, rest);
  }

  lemma {:induction false} DecodeRowsOf(rows: seq<seq<string>>)
    ensures DecodeRows(RowsHtml(rows)) == Some(rows)
  {
    if rows != [] {
      DecodeRowsOf(rows[1..]);
      DecodeRowsStep(rows[0], RowsHtml(rows[1..]));
      assert [rows[0]] + rows[1..] == rows;
    }
  }

  /** Round trip: the grid can be read back from the table, so no value is
      lost, merged with its neighbour or turned into markup. */
  lemma DecodeHtmlTableOf(rows: seq<seq<string>>)
    ensures DecodeHtmlTable(HtmlTable(rows)) == Some(rows)
  {
    var p := TablePrefix;
    var q := TableSuffix;
    var body := RowsHtml(rows);
    var html := HtmlTable(rows);
    assert html == p + body + q;
    assert html[..|p|] == p;
    assert html[|html| - |q|..] == q;
    assert html[|p|..|html| - |q|] == body;
    DecodeRowsOf(rows);
  }

  /** Different grids never render to the same table. */
  lemma HtmlTableInjective(a: seq<seq<string>>, b: seq<seq<string>>)
    requires HtmlTable(a) == HtmlTable(b)
    ensures a == b
  {
    DecodeHtmlTableOf(a);
    DecodeHtmlTableOf(b);
  }

  // -------------------------------------------------------------------- TSV

  /** A cell as it goes into the TSV: every tab replaced by a space. */
  function SanitizeCell(cell: string): (r: string)
    ensures '\t' !in r
  {
    ReplaceCharRemoves(cell, '\t', " ");
    ReplaceChar(cell, '\t', " ")
  }

  function SanitizedCells(row: seq<string>): seq<string>
  {
    seq(|row|, j requires 0 <= j < |row| => SanitizeCell(row[j]))
  }

  /** One TSV line: the sanitized cells joined by tabs. */
  function TsvLine(row: seq<string>): string
  {
    JoinToString(SanitizedCells(row), "\t")
  }

  function TsvLines(rows: seq<seq<string>>): seq<string>
  {
    seq(|rows|, k requires 0 <= k < |rows| => TsvLine(rows[k]))
  }

  /** `buildTsv`: the lines joined by newlines. */
  function BuildTsv(rows: seq<seq<string>>): string
  {
    JoinToString(TsvLines(rows), "\n")
  }

  /** A cell without tabs goes into the TSV unchanged. */
  lemma SanitizeCellIdentity(cell: string)
    requires '\t' !in cell
    ensures SanitizeCell(cell) == cell
  {
    ReplaceCharAbsent(cell, '\t', " ");
  }

  /** Tab safety: splitting a line at its tabs gives back exactly one field
      per cell, each the sanitized cell, whatever tabs the cells contained. */
  lemma TsvLineSplits(row: seq<string>)
    requires row != []
    ensures SplitOn(TsvLine(row), '\t') == SanitizedCells(row)
    ensures CountChar('\t', TsvLine(row)) == |row| - 1
  {
    var cells := SanitizedCells(row);
    assert "\t" == ['\t'];
    SplitJoin(cells, '\t');
    JoinCount(cells, '\t');
  }

  lemma TsvLineExcludes(row: seq<string>, c: char)
    requires c != '\t' && c != ' '
    requires forall j | 0 <= j < |row| :: c !in row[j]
    ensures c !in TsvLine(row)
  {
    var cells := SanitizedCells(row);
    forall j | 0 <= j < |cells| ensures c !in cells[j] {
      ReplaceCharExcludes(row[j], '\t', " ", c);
    }
    JoinExcludes(cells, "\t", c);
  }

  /** When no cell holds a newline, splitting the TSV at newlines gives back
      one line per row. */
  lemma BuildTsvSplits(rows: seq<seq<string>>)
    requires rows != []
    requires forall k, j | 0 <= k < |rows| && 0 <= j < |rows[k]| :: '\n' !in rows[k][j]
    ensures SplitOn(BuildTsv(rows), '\n') == TsvLines(rows)
  {
    var lines := TsvLines(rows);
    forall k | 0 <= k < |lines| ensures '\n' !in lines[k] {
      TsvLineExcludes(rows[k], '\n');
    }
    assert "\n" == ['\n'];
    SplitJoin(lines, '\n');
  }

  lemma TsvTabCount(rows: seq<seq<string>>, width: nat)
    requires width >= 1
    requires forall k | 0 <= k < |rows| :: |rows[k]| == width
    ensures CountChar('\t', BuildTsv(rows)) == |rows| * (width - 1)
  {
    var lines := TsvLines(rows);
    forall k | 0 <= k < |lines| ensures CountChar('\t', lines[k]) == width - 1 {
      TsvLineSplits(rows[k]);
    }
    JoinCountUniform(lines, "\n", '\t', width - 1);
  }

  /** A rectangular grid gives `width - 1` tabs on every line, so every line
      of the TSV has the same number of columns. */
  lemma GridTabCount(sheet: PoiSheet)
    requires MaxWidth(RawRows(sheet)) >= 1
    ensures CountChar('\t', BuildTsv(Grid(sheet))) == |Grid(sheet)| * (MaxWidth(RawRows(sheet)) - 1)
  {
    GridShape(sheet);
    TsvTabCount(Grid(sheet), MaxWidth(RawRows(sheet)));
  }

  lemma SanitizeCellBlank(cell: string)
    ensures IsBlank(SanitizeCell(cell)) <==> IsBlank(cell)
  {
    assert IsWs('\t') && IsWs(' ');
    ReplaceCharBlank(cell, '\t', " ");
  }

  /** The trimmed TSV is empty exactly when every cell of the grid is blank. */
  lemma TsvEmptyIffBlank(rows: seq<seq<string>>)
    ensures Trim(BuildTsv(rows)) == [] <==>
      forall k, j | 0 <= k < |rows| && 0 <= j < |rows[k]| :: IsBlank(rows[k][j])
  {
    var lines := TsvLines(rows);
    assert IsWs('\t') && IsWs('\n');
    TrimSpec(BuildTsv(rows));
    JoinBlank(lines, "\n");
    forall k | 0 <= k < |rows|
      ensures IsBlank(lines[k]) <==> forall j | 0 <= j < |rows[k]| :: IsBlank(rows[k][j])
    {
      var cells := SanitizedCells(rows[k]);
      JoinBlank(cells, "\t");
      forall j | 0 <= j < |rows[k]| ensures IsBlank(cells[j]) <==> IsBlank(rows[k][j]) {
        SanitizeCellBlank(rows[k][j]);
      }
    }
  }

  /** A sheet with a row of three cells above a row of one: the short row is
      padded with two empty cells. */
  lemma RaggedSheetGrid(sheet: PoiSheet, a: string, b: string, c: string, v: string)
    requires sheet.firstRowNum == 0 && sheet.lastRowNum == 1
    requires sheet.rows == map[0 := PoiRow(3, map[0 := a, 1 := b, 2 := c]), 1 := PoiRow(1, map[0 := v])]
    ensures Grid(sheet) == [[a, b, c], [v, "", ""]]
  {
    var raw := RawRows(sheet);
    var r0, r1 := sheet.rows[0], sheet.rows[1];
    assert CellValue(r0, 0) == a && CellValue(r0, 1) == b && CellValue(r0, 2) == c;
    assert CellValue(r1, 0) == v;
    assert raw[0] == RowAt(sheet, 0) == [a, b, c];
    assert raw[1] == RowAt(sheet, 1) == [v];
    assert MaxWidth(raw) == 3 by {
      assert raw[..1] == [raw[0]];
      assert raw[..1][..0] == [];
    }
    assert PadRow(raw[0], 3) == [a, b, c];
    assert PadRow(raw[1], 3) == [v, "", ""];
    var g := Grid(sheet);
    assert |g| == 2 && g[0] == [a, b, c] && g[1] == [v, "", ""];
  }

  /** The padded row's empty cells end `buildTsv`'s result in two tabs. */
  lemma RaggedRowsTsv(a: string, b: string, c: string, v: string)
    requires '\t' !in a && '\t' !in b && '\t' !in c && '\t' !in v
    ensures BuildTsv([[a, b, c], [v, "", ""]]) == a + "\t" + b + "\t" + c + "\n" + v + "\t\t"
  {
    var rows := [[a, b, c], [v, "", ""]];
    SanitizeCellIdentity(a);
    SanitizeCellIdentity(b);
    SanitizeCellIdentity(c);
    SanitizeCellIdentity(v);
    SanitizeCellIdentity("");
    assert SanitizedCells(rows[0]) == [a, b, c];
    assert SanitizedCells(rows[1]) == [v, "", ""];
    JoinThree(a, b, c, "\t");
    JoinThree(v, "", "", "\t");
    var lines := TsvLines(rows);
    assert lines == [TsvLine(rows[0]), TsvLine(rows[1])];
    JoinTwo(lines[0], lines[1], "\n");
  }

  // ------------------------------------------------------------------ parse

  /** What `parse` makes of one sheet. */
  function SheetOf(sheet: PoiSheet, wrap: string -> string): XlsxSheet
  {
    var grid := Grid(sheet);
    XlsxSheet(sheet.sheetName, wrap(HtmlTable(grid)), Trim(BuildTsv(grid)))
  }

  /** The body of `parse`'s sheet loop. */
  method ReadSheet(sheet: PoiSheet, wrap: string -> string) returns (result: XlsxSheet)
    ensures result == SheetOf(sheet, wrap)
  {
    var rows, maxColumns := ReadRows(sheet);
    var normalizedRows := Normalize(rows, maxColumns);
    var htmlBody := BuildHtmlTable(normalizedRows);
    var tsv := BuildTsv(normalizedRows);
    result := XlsxSheet(sheet.sheetName, wrap(htmlBody), Trim(tsv));
  }

  /** One parsed sheet per sheet, in workbook order. */
  function ParsedSheets(book: seq<PoiSheet>, wrap: string -> string): (r: seq<XlsxSheet>)
    ensures |r| == |book|
  {
    if book == [] then []
    else ParsedSheets(book[..|book| - 1], wrap) + [SheetOf(book[|book| - 1], wrap)]
  }

  /** Sheet `i` of the result is what `parse` makes of sheet `i` of the workbook. */
  lemma {:induction false} ParsedSheetAt(book: seq<PoiSheet>, wrap: string -> string, i: nat)
    requires i < |book|
    ensures ParsedSheets(book, wrap)[i] == SheetOf(book[i], wrap)
  {
    var init := book[..|book| - 1];
    if i < |book| - 1 {
      ParsedSheetAt(init, wrap, i);
      assert init[i] == book[i];
    }
  }

  lemma ParsedSheetsSnoc(book: seq<PoiSheet>, wrap: string -> string, i: nat)
    requires i < |book|
    ensures ParsedSheets(book[..i + 1], wrap) == ParsedSheets(book[..i], wrap) + [SheetOf(book[i], wrap)]
  {
    assert book[..i + 1][..i] == book[..i];
  }

  /** `parse`'s sheet loop. */
  method ReadSheets(book: seq<PoiSheet>, wrap: string -> string) returns (sheets: seq<XlsxSheet>)
    ensures sheets == ParsedSheets(book, wrap)
  {
    sheets := [];
    for i := 0 to |book|
      invariant sheets == ParsedSheets(book[..i], wrap)
    {
      var sheet := ReadSheet(book[i], wrap);
      ParsedSheetsSnoc(book, wrap, i);
      sheets := sheets + [sheet];
    }
    assert book[..|book|] == book;
  }

  /** `parse`: a workbook the library cannot open throws; otherwise one
      parsed sheet per sheet, in workbook order. */
  method Parse(workbook: Outcome<seq<PoiSheet>>, wrap: string -> string) returns (result: Outcome<XlsxContent>)
    ensures workbook.Thrown? ==> result.Thrown?
    ensures workbook.Ok? ==> result == Ok(XlsxContent(ParsedSheets(workbook.value, wrap)))
  {
    if workbook.Thrown? {
      return Thrown;
    }
    var sheets := ReadSheets(workbook.value, wrap);
    result := Ok(XlsxContent(sheets));
  }

  /** Every parsed sheet's HTML is the wrapped table of a rectangular grid
      from which the grid can be read back. */
  lemma SheetHtmlFaithful(sheet: PoiSheet, wrap: string -> string)
    ensures SheetOf(sheet, wrap).html == wrap(HtmlTable(Grid(sheet)))
    ensures DecodeHtmlTable(HtmlTable(Grid(sheet))) == Some(Grid(sheet))
  {
    DecodeHtmlTableOf(Grid(sheet));
  }

  /** The TSV a sheet stores is `buildTsv`'s result with whitespace cut at
      both ends; when that result starts and ends with a non-whitespace
      character nothing is cut, and every line keeps `width - 1` tabs. */
  lemma StoredTsvTabCount(sheet: PoiSheet, wrap: string -> string)
    requires MaxWidth(RawRows(sheet)) >= 1
    requires var t := BuildTsv(Grid(sheet)); t == [] || (!IsWs(t[0]) && !IsWs(t[|t| - 1]))
    ensures SheetOf(sheet, wrap).tsv == BuildTsv(Grid(sheet))
    ensures CountChar('\t', SheetOf(sheet, wrap).tsv) == |Grid(sheet)| * (MaxWidth(RawRows(sheet)) - 1)
  {
    var t := BuildTsv(Grid(sheet));
    assert [] + t + [] == t;
    TrimBlankEnds([], t, []);
    GridTabCount(sheet);
  }

  /** A one-row sheet whose first cell is absent: `buildTsv` starts the line
      with a tab for the empty column, and `trim()` then removes it, so the
      stored TSV has lost that column. */
  lemma LeadingBlankCellLost(sheet: PoiSheet, wrap: string -> string, x: string)
    requires sheet.firstRowNum == 0 && sheet.lastRowNum == 0
    requires sheet.rows == map[0 := PoiRow(2, map[1 := x])]
    requires '\t' !in x && x != [] && !IsWs(x[0]) && !IsWs(x[|x| - 1])
    ensures Grid(sheet) == [["", x]]
    ensures BuildTsv(Grid(sheet)) == "\t" + x
    ensures SheetOf(sheet, wrap).tsv == x
    ensures CountChar('\t', BuildTsv(Grid(sheet))) == 1 && CountChar('\t', SheetOf(sheet, wrap).tsv) == 0
  {
    var raw := RawRows(sheet);
    var r0 := sheet.rows[0];
    assert CellValue(r0, 0) == "" && CellValue(r0, 1) == x;
    assert raw[0] == RowAt(sheet, 0) == ["", x];
    assert MaxWidth(raw) == 2 by {
      assert raw[..0] == [];
    }
    assert PadRow(raw[0], 2) == ["", x];
    var g := Grid(sheet);
    assert g == [["", x]];
    var e: string := [];
    SanitizeCellIdentity(e);
    SanitizeCellIdentity(x);
    var cells := [e, x];
    assert SanitizedCells(g[0]) == cells;
    assert cells[1..] == [x];
    assert JoinToString(cells, "\t") == e + "\t" + x;
    var lines := TsvLines(g);
    assert lines == [e + "\t" + x];
    assert BuildTsv(g) == "\t" + x;
    assert IsBlank("\t") by { assert IsWs('\t'); }
    assert "\t" + x + [] == "\t" + x;
    TrimBlankEnds("\t", x, []);
    CountCharAppend('\t', "\t", x);
  }

  /** A sheet with a row of three cells above a row of one: the padded row's
      two empty cells end `buildTsv`'s result in two tabs, and the stored,
      trimmed TSV has lost them. */
  lemma RaggedSheetTsv(sheet: PoiSheet, wrap: string -> string, a: string, b: string, c: string, v: string)
    requires sheet.firstRowNum == 0 && sheet.lastRowNum == 1
    requires sheet.rows == map[0 := PoiRow(3, map[0 := a, 1 := b, 2 := c]), 1 := PoiRow(1, map[0 := v])]
    requires '\t' !in a && '\t' !in b && '\t' !in c && '\t' !in v
    requires a != [] && !IsWs(a[0])
    requires v != [] && !IsWs(v[|v| - 1])
    ensures BuildTsv(Grid(sheet)) == a + "\t" + b + "\t" + c + "\n" + v + "\t\t"
    ensures SheetOf(sheet, wrap).tsv == a + "\t" + b + "\t" + c + "\n" + v
  {
    RaggedSheetGrid(sheet, a, b, c, v);
    RaggedRowsTsv(a, b, c, v);
    var x := a + "\t" + b + "\t" + c + "\n" + v;
    assert x[0] == a[0] && x[|x| - 1] == v[|v| - 1];
    assert IsBlank("\t\t") by { assert IsWs('\t'); }
    assert [] + x + "\t\t" == x + "\t\t";
    TrimBlankEnds([], x, "\t\t");
  }
}
