/** `src/reader/excel_reader.rs`: one worksheet of an Excel or OpenDocument
    workbook becomes a table. Row 0 names the columns; rows 1 and below hold
    the values, each cell turned into optional text. The workbook is given as
    its sheet-name list and one cell grid per readable sheet. */
module ExcelReader {
  import opened Fallible
  import opened Strings
  import opened Faults
  import opened Frames

  /** calamine's `CellErrorType`. */
  datatype CellError = Div0 | NA | Name | Null | Num | Ref | Value | GettingData

  /** calamine's `Data`. `Float` and `DateTime` carry the bits of the `f64`
      the library stores; `Int` is an `i64`. */
  datatype Cell =
    | Empty
    | String(text: string)
    | Float(bits: bv64)
    | Int(number: int)
    | Bool(truth: bool)
    | DateTime(serial: bv64)
    | DateTimeIso(iso: string)
    | DurationIso(iso: string)
    | Error(error: CellError)

  /** calamine's `Range<Data>`: a `height` by `width` grid, addressed relative
      to its top-left cell. A position missing from `cells` has no cell. */
  datatype Range = Range(height: nat, width: nat, cells: map<(nat, nat), Cell>)

  /** An opened workbook: its sheet names in workbook order, and the grid of
      every sheet that can be read. A sheet that is listed but cannot be
      decoded is absent from `sheets`. */
  datatype Workbook = Workbook(sheetNames: seq<string>, sheets: map<string, Range>)

  /** The library's text renderings that are left opaque: `f64` and
      `ExcelDateTime` display, and `CellErrorType`'s `Display` (the `#DIV/0!`
      spelling). */
  datatype CellFormats = CellFormats(
    float: bv64 -> string,
    dateTime: bv64 -> string,
    errorText: CellError -> string)

  /** `Range::get`: the cell at a relative position, `None` outside the grid. */
  function Get(range: Range, row: nat, col: nat): (r: Option<Cell>)
    ensures r.Some? <==> row < range.height && col < range.width && (row, col) in range.cells
    ensures r.Some? ==> r.value == range.cells[(row, col)]
  {
    if row < range.height && col < range.width && (row, col) in range.cells
    then Some(range.cells[(row, col)]) else None
  }

  /** The derived `Debug` name of a cell error. */
  function DebugName(e: CellError): string {
    match e
    case Div0 => "Div0"
    case NA => "NA"
    case Name => "Name"
    case Null => "Null"
    case Num => "Num"
    case Ref => "Ref"
    case Value => "Value"
    case GettingData => "GettingData"
  }

  function BoolText(b: bool): string {
    if b then "true" else "false"
  }

  /** `Data`'s `Display`, which `extract_headers` uses through `to_string`. */
  function Display(fmt: CellFormats, cell: Cell): string {
    match cell
    case Empty => ""
    case String(s) => s
    case Float(f) => fmt.float(f)
    case Int(i) => IntText(i)
    case Bool(b) => BoolText(b)
    case DateTime(d) => fmt.dateTime(d)
    case DateTimeIso(s) => s
    case DurationIso(s) => s
    case Error(e) => fmt.errorText(e)
  }

  /** `cell_to_string`: the total coercion of a data cell to optional text. */
  function CellText(fmt: CellFormats, cell: Option<Cell>): (r: Option<string>)
    ensures r.None? <==> cell.None? || cell.value.Empty?
    ensures cell.Some? && (cell.value.String? || cell.value.DateTimeIso? || cell.value.DurationIso?) ==>
      r == Some(if cell.value.String? then cell.value.text else cell.value.iso)
    ensures cell.Some? && cell.value.Bool? ==> r == Some(if cell.value.truth then "true" else "false")
    ensures cell.Some? && cell.value.Int? ==> r == Some(IntText(cell.value.number))
    ensures cell.Some? && cell.value.Float? ==> r == Some(fmt.float(cell.value.bits))
    ensures cell.Some? && cell.value.DateTime? ==> r == Some(fmt.dateTime(cell.value.serial))
    ensures cell.Some? && cell.value.Error? ==> r == Some("ERROR: " + DebugName(cell.value.error))
  {
    match cell
    case None => None
    case Some(c) =>
      match c
      case Empty => None
      case String(s) => Some(s)
      case Float(f) => Some(fmt.float(f))
      case Int(i) => Some(IntText(i))
      case Bool(b) => Some(BoolText(b))
      case DateTime(d) => Some(fmt.dateTime(d))
      case DateTimeIso(s) => Some(s)
      case DurationIso(s) => Some(s)
      case Error(e) => Some("ERROR: " + DebugName(e))
  }

  /** An integer cell is written in decimal, with a leading `-` when
      negative, and its digits read back to the integer's magnitude. */
  lemma IntCellReadsBack(fmt: CellFormats, i: int)
    ensures var t := CellText(fmt, Some(Int(i))).value;
      && (i >= 0 ==> (forall j :: 0 <= j < |t| ==> IsDigit(t[j])) && ParseNat(t) == i)
      && (i < 0 ==> |t| > 1 && t[0] == '-' && (forall j :: 1 <= j < |t| ==> IsDigit(t[j]))
                    && ParseNat(t[1..]) == -i)
  {
    if i >= 0 {
      ParseNatText(i);
    } else {
      var t := CellText(fmt, Some(Int(i))).value;
      assert t[1..] == NatText(-i);
      ParseNatText(-i);
    }
  }

  /** Distinct error kinds are told apart in the data: their texts differ. */
  lemma ErrorCellsDistinct(fmt: CellFormats, a: CellError, b: CellError)
    requires a != b
    ensures CellText(fmt, Some(Error(a))) != CellText(fmt, Some(Error(b)))
  {
    var ta := "ERROR: " + DebugName(a);
    var tb := "ERROR: " + DebugName(b);
    assert ta[7..] == DebugName(a) && tb[7..] == DebugName(b);
  }

  /** A header cell and a data cell holding the same value render alike,
      except that `Empty` is a header `""` but no data value, and an error is
      rendered by its `Display` in a header and as `ERROR: <Debug>` in data. */
  lemma HeaderAndDataAgree(fmt: CellFormats, cell: Cell)
    ensures !cell.Empty? && !cell.Error? ==> CellText(fmt, Some(cell)) == Some(Display(fmt, cell))
    ensures cell.Empty? ==> Display(fmt, cell) == "" && CellText(fmt, Some(cell)) == None
    ensures cell.Error? ==> CellText(fmt, Some(cell)) == Some("ERROR: " + DebugName(cell.error))
  {
  }

  /** `get_sheet_name`: an explicit name is taken verbatim, otherwise the
      workbook's first sheet. */
  function SheetName(wb: Workbook, requested: Option<string>): (r: Result<string, Fault>)
    ensures requested.Some? ==> r == Ok(requested.value)
    ensures requested.None? && |wb.sheetNames| > 0 ==> r == Ok(wb.sheetNames[0])
    ensures r.Err? <==> requested.None? && |wb.sheetNames| == 0
    ensures r.Err? ==> r.error == NoSheets
  {
    match requested
    case Some(n) => Ok(n)
    case None => if |wb.sheetNames| > 0 then Ok(wb.sheetNames[0]) else Err(NoSheets)
  }

  /** `worksheet_range` with its context message. */
  function SheetRange(wb: Workbook, name: string): (r: Result<Range, Fault>)
    ensures r.Ok? <==> name in wb.sheets
    ensures r.Ok? ==> r.value == wb.sheets[name]
    ensures r.Err? ==> r.error == SheetNotFound(name)
  {
    if name in wb.sheets then Ok(wb.sheets[name]) else Err(SheetNotFound(name))
  }

  /** The synthetic name of a column whose header cell is absent. */
  function SyntheticHeader(c: nat): string {
    "col_" + NatText(c)
  }

  function HeaderFor(range: Range, fmt: CellFormats, c: nat): string {
    match Get(range, 0, c)
    case None => SyntheticHeader(c)
    case Some(cell) => Display(fmt, cell)
  }

  /** `extract_headers`: one header per column, from row 0. */
  function ExtractHeaders(range: Range, fmt: CellFormats): (r: seq<string>)
    ensures |r| == range.width
    ensures forall c :: 0 <= c < range.width && Get(range, 0, c).None? ==> r[c] == "col_" + NatText(c)
    ensures forall c :: 0 <= c < range.width && Get(range, 0, c).Some? ==> r[c] == Display(fmt, Get(range, 0, c).value)
  {
    seq(range.width, c requires 0 <= c => HeaderFor(range, fmt, c))
  }

  /** The number of data rows: every row but the header row. */
  function DataRows(range: Range): nat {
    if range.height > 0 then range.height - 1 else 0
  }

  function ColumnValues(range: Range, fmt: CellFormats, c: nat): seq<Option<string>> {
    seq(DataRows(range), i requires 0 <= i => CellText(fmt, Get(range, i + 1, c)))
  }

  /** `build_columns`: column `c` is named by header `c` and holds the
      coerced cells of rows 1 and below. */
  function BuildColumns(range: Range, headers: seq<string>, fmt: CellFormats): (r: seq<Column>)
    requires |headers| == range.width
    ensures |r| == range.width
    ensures forall c :: 0 <= c < |r| ==> r[c].name == headers[c]
    ensures forall c :: 0 <= c < |r| ==> |r[c].values| == DataRows(range)
    ensures forall c, i :: 0 <= c < |r| && 0 <= i < |r[c].values| ==>
      r[c].values[i] == CellText(fmt, Get(range, i + 1, c))
  {
    seq(range.width, c requires 0 <= c < range.width => Column(headers[c], ColumnValues(range, fmt, c)))
  }

  /** The columns `read` builds from a grid. */
  function SheetColumns(range: Range, fmt: CellFormats): seq<Column> {
    BuildColumns(range, ExtractHeaders(range, fmt), fmt)
  }

  /** `excel_reader::read`; `None` is a workbook that could not be opened. */
  function Read(wb: Option<Workbook>, sheet: Option<string>, fmt: CellFormats): (r: Result<DataFrame, Fault>)
    ensures wb.None? ==> r == Err(WorkbookOpenFailed)
    ensures wb.Some? && SheetName(wb.value, sheet).Err? ==> r == Err(NoSheets)
    ensures wb.Some? && SheetName(wb.value, sheet).Ok? && SheetName(wb.value, sheet).value !in wb.value.sheets ==>
      r == Err(SheetNotFound(SheetName(wb.value, sheet).value))
    ensures r.Ok? ==> wb.Some? && SheetName(wb.value, sheet).Ok? && SheetName(wb.value, sheet).value in wb.value.sheets
    ensures r.Ok? ==> var range := wb.value.sheets[SheetName(wb.value, sheet).value];
      && range.height > 0 && range.width > 0
      && Width(r.value) == range.width
      && Height(r.value) == range.height - 1
  {
    match wb
    case None => Err(WorkbookOpenFailed)
    case Some(w) =>
      var name :- SheetName(w, sheet);
      var range :- SheetRange(w, name);
      if range.height == 0 || range.width == 0 then Err(EmptySheet)
      else NewFrame(SheetColumns(range, fmt), FromExcel)
  }

  /** The sheet `read` opens, when the workbook has one to offer. */
  function ChosenRange(wb: Workbook, sheet: Option<string>): Option<Range> {
    var name := SheetName(wb, sheet);
    if name.Ok? && name.value in wb.sheets then Some(wb.sheets[name.value]) else None
  }

  /** Every outcome of `read` on an opened workbook whose sheet was found:
      an empty grid fails with "Empty sheet"; otherwise the table is the
      built columns, and it is refused exactly when two headers coincide. */
  lemma ReadFoundSheet(wb: Workbook, sheet: Option<string>, fmt: CellFormats)
    requires ChosenRange(wb, sheet).Some?
    ensures var range := ChosenRange(wb, sheet).value;
      var r := Read(Some(wb), sheet, fmt);
      && (range.height == 0 || range.width == 0 ==> r == Err(EmptySheet))
      && (range.height > 0 && range.width > 0 ==>
            (r.Ok? <==> DistinctNames(SheetColumns(range, fmt)))
            && (r.Ok? ==> r.value.columns == SheetColumns(range, fmt))
            && (r.Err? ==> r.error == FrameRejected(FromExcel)))
  {
    var range := ChosenRange(wb, sheet).value;
    var cols := SheetColumns(range, fmt);
    assert UniformHeight(cols);
  }

  /** Value `i` of column `c` in the table `read` returns is the coerced grid
      cell `(i + 1, c)`, and column `c` is named by header `c`. */
  lemma ReadCells(wb: Workbook, sheet: Option<string>, fmt: CellFormats)
    requires Read(Some(wb), sheet, fmt).Ok?
    ensures var df := Read(Some(wb), sheet, fmt).value;
      var range := ChosenRange(wb, sheet).value;
      && |df.columns| == range.width
      && (forall c :: 0 <= c < |df.columns| ==> df.columns[c].name == HeaderFor(range, fmt, c))
      && (forall c, i :: 0 <= c < |df.columns| && 0 <= i < |df.columns[c].values| ==>
            df.columns[c].values[i] == CellText(fmt, Get(range, i + 1, c)))
  {
  }

  /** The header row never reaches the data: two grids of the same size that
      agree below row 0 give the same column values. */
  lemma {:induction false} DataIgnoresHeaderRow(a: Range, b: Range, fmt: CellFormats, ha: seq<string>, hb: seq<string>)
    requires a.height == b.height && a.width == b.width
    requires |ha| == a.width && |hb| == b.width
    requires forall p :: p in a.cells && p.0 >= 1 ==> p in b.cells && b.cells[p] == a.cells[p]
    requires forall p :: p in b.cells && p.0 >= 1 ==> p in a.cells
    ensures var ca := BuildColumns(a, ha, fmt);
      var cb := BuildColumns(b, hb, fmt);
      forall c :: 0 <= c < a.width ==> ca[c].values == cb[c].values
  {
    var ca := BuildColumns(a, ha, fmt);
    var cb := BuildColumns(b, hb, fmt);
    forall c | 0 <= c < a.width
      ensures ca[c].values == cb[c].values
    {
      forall i | 0 <= i < DataRows(a)
        ensures ca[c].values[i] == cb[c].values[i]
      {
        assert Get(a, i + 1, c) == Get(b, i + 1, c);
      }
    }
  }

  /** A sheet with no header cells at all gets the names `col_0`, `col_1`, …,
      which never collide, so its table is always accepted. */
  lemma {:induction false} SyntheticHeadersAccepted(wb: Workbook, sheet: Option<string>, fmt: CellFormats)
    requires ChosenRange(wb, sheet).Some?
    requires var range := ChosenRange(wb, sheet).value;
      range.height > 0 && range.width > 0 && forall c: nat :: (0, c) !in range.cells
    ensures Read(Some(wb), sheet, fmt).Ok?
  {
    var range := ChosenRange(wb, sheet).value;
    var cols := SheetColumns(range, fmt);
    forall i, j | 0 <= i < j < |cols|
      ensures cols[i].name != cols[j].name
    {
      assert cols[i].name == "col_" + NatText(i);
      assert cols[j].name == "col_" + NatText(j);
      if cols[i].name == cols[j].name {
        assert NatText(i) == cols[i].name[4..];
        assert NatText(j) == cols[j].name[4..];
        NatTextInjective(i, j);
      }
    }
    ReadFoundSheet(wb, sheet, fmt);
  }

  /** Two header cells of the same text make the table unacceptable: a sheet
      whose first two header cells are equal strings always fails. */
  lemma DuplicateHeadersRejected(wb: Workbook, sheet: Option<string>, fmt: CellFormats, name: string)
    requires ChosenRange(wb, sheet).Some?
    requires var range := ChosenRange(wb, sheet).value;
      range.height > 0 && range.width >= 2
      && (0, 0) in range.cells && (0, 1) in range.cells
      && range.cells[(0, 0)] == String(name) && range.cells[(0, 1)] == String(name)
    ensures Read(Some(wb), sheet, fmt) == Err(FrameRejected(FromExcel))
  {
    var range := ChosenRange(wb, sheet).value;
    var cols := SheetColumns(range, fmt);
    assert cols[0].name == cols[1].name;
    ReadFoundSheet(wb, sheet, fmt);
  }
}
