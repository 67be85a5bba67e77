# parse_any_to_parquet, modelled in Dafny

`parse_any_to_parquet` converts CSV, JSON, XML and spreadsheet files
(xls, xlsx, ods) into Parquet files. It works in one of two ways:

- as a batch over an input directory;
- as a watcher that converts each supported file when it is created or
  modified.

This project models the core of that program as pure functions over
immutable data:

- **Format detection** (`Formats`): the path's extension, compared case-insensitively.
- **Paths** (`Paths`): the parts of Rust's `std::path` the program uses.
  - A path is a sequence of components.
  - `extension` / `file_stem` split the file name at its last dot.
  - `strip_prefix` matches whole components.
  - `join` lets an absolute operand replace the base.
  - `set_extension` replaces or appends the extension.
- **The XML reader** (`XmlReader`):
  - A depth-counting state machine runs over the parser's events.
  - The record element is the first element at depth 2.
  - Fields are the elements at depth 3.
  - The union of the records' keys becomes the column set.
  - Each record is projected onto that column set.
- **A tree reading of XML documents** (`XmlTree`): a reference definition
  of the records a well-nested document flattens to. The state machine is
  proved to compute exactly these.
- **The spreadsheet reader** (`ExcelReader`):
  - The sheet is chosen by name or is the first one.
  - Headers come from row 0, with `col_<c>` for an absent header cell.
  - Cells are coerced to optional text.
  - The table is refused when two headers coincide.
- **Dispatch** (`Reader`): one reader is chosen per format.
- **Conversion** (`Converter`):
  - The steps are detect, read, then write.
  - The trace of effects records the order of the checks.
- **Configuration** (`Configuration`): the defaults, and the merge of
  command-line overrides.
- **The batch processor** (`Processor`):
  - The walker's depth limit.
  - The output path that mirrors the input tree.
  - Per-file processing with optional removal of the source.
  - The batch loop with its counts.
- **The watcher** (`Watcher`):
  - The initial batch runs first.
  - Then a loop over the notification channel's messages converts every
    supported file an event names.
  - The loop ends when the channel closes.

Everything the program takes from its environment is a parameter:

- the file system's answers;
- the CSV/JSON readers and the Parquet writer;
- the parser's event stream;
- the decoded workbook;
- the notification messages.

`DataFrame::new` from polars is modelled (module `Frames`) only by its
acceptance rule: the names must be distinct and the columns must all have
the same length.

### Where the code and its description differ (the model follows the code)

- **Column order within one XML record** follows `HashMap` iteration order.
  - It is not document order.
  - The model takes that order as an input (`XmlFile.keyOrders`).
  - It proves only what holds for every order: a key first seen in an
    earlier record comes before a key first seen in a later one.
- **Text nested below a field** is filed under the field's name, since
  text events have no depth check of their own.
  - For `<rec><a><x>deep</x></a></rec>` the record is `a = "deep"`.
  - Deeper elements do not become their own columns.
- **An `Empty` header cell** gives the header `""`; the `col_<c>` fallback
  applies only when the cell is absent.
  - In the spreadsheet library, cells inside the range are always present,
    so the fallback is unreachable there.
  - The model keeps absent cells so the fallback stays visible.
- **Duplicate headers** (two equal header texts, or two empty header cells)
  make `DataFrame::new` fail.
  - The read then fails with "Failed to create DataFrame from Excel".
- **A missing sheet** fails with the message `Sheet '<name>' not found`.
  - A sheet that exists but cannot be decoded gives the same message, so
    it is modelled as absent.
- **`process_batch` always returns `Ok`.** The error branch after the
  watcher's initial batch is therefore unreachable, but it is modelled.
- **An absolute input path outside the input directory** is written beside
  its source, because `join` with an absolute path replaces the base.

## Model

| member | source | states |
|---|---|---|
| Strings.ParseNatText | src/reader/excel_reader.rs:43 | the decimal text used in `col_<c>` headers reads back to the number, so distinct columns get distinct synthetic names |
| Formats.FromExtension | src/format.rs:15-25 | an extension is accepted exactly when its lower-cased text is one of the listed supported extensions, and the format chosen is the one whose tag that text is |
| Formats.FromPath | src/format.rs:14-26 | a path without an extension has no format, and a detected format's tag is the lower-cased UTF-8 extension of the path |
| Formats.FromExtensionSpec | src/format.rs:15-25 | an extension selects format f exactly when it spells f's tag in any mix of ASCII cases, and selects nothing when it spells no tag |
| Formats.FromPathSpec | src/format.rs:14-26 | a path has a format exactly when its extension exists, is UTF-8, and spells a tag ignoring case; a missing or non-UTF-8 extension gives none |
| Formats.IsSupported | src/format.rs:28-34 | a path is supported exactly when its lower-cased UTF-8 extension is one of the listed supported extensions |
| Formats.SupportedExtensionsAreTags | src/format.rs:17-30 | the six listed extensions are exactly the format tags; each listed one is accepted and every accepted lower-case extension is listed |
| Formats.FromDottedName | src/format.rs:14-26 | a file name `stem.ext` with non-empty stem and ext spelling a tag in any case is detected as that format |
| Paths.ExtensionOfName | src/format.rs:15 | the extension of a well-formed file name is the text after its last dot, and there is none when the name has no dot or its only dot leads it |
| Paths.NoExtensionWithoutInnerDot | src/format.rs:15 | a name with no dot after its first character, such as `.csv` or `data`, has no extension and is its own stem, so it names no format |
| Paths.SetExtensionSpec | src/processor.rs:63 | after set_extension on a path with a file name, the extension is the new one, the stem and every earlier component are unchanged |
| Paths.SetExtensionWithoutFileName | src/processor.rs:63 | set_extension leaves a path without a file name unchanged |
| Paths.JoinKeepsFileName | src/processor.rs:62 | joining a path under a directory keeps the path's file name, whether it is relative, starts with `.`, or is absolute |
| Paths.JoinStripPrefix | src/processor.rs:61-62 | joining the base with what strip_prefix left gives the original path back |
| Paths.StripPrefixJoin | src/processor.rs:61-62 | stripping the base from a relative path joined under it gives the relative path back |
| Frames.NewFrame | src/reader/xml_reader.rs:106 | the table is built exactly when column names are distinct and all columns have the same length, holding the columns given; otherwise it fails with the reader's context |
| XmlReader.Step | src/reader/xml_reader.rs:36-74 | one event never drops or alters an emitted record, appends at most one, and never changes a record tag once latched |
| XmlReader.Run | src/reader/xml_reader.rs:34-88 | the loop returns every record it had already emitted, and it can fail only with a syntax error |
| XmlReader.RunFault | src/reader/xml_reader.rs:76-82 | a failed loop carries the position and text of a parse error that occurs among its events |
| XmlReader.ParseXml | src/reader/xml_reader.rs:23-89 | the parse fails only with a syntax error taken from one of the events, and an event stream without parse errors always parses |
| XmlReader.TraceInvariant | src/reader/xml_reader.rs:23-89 | after any event stream the loop's depth is opened minus closed elements, the record tag is the first depth-2 name, a field is open exactly at depth 3 or more, emitted records are non-empty, and buffered values are texts seen since the last record started |
| XmlReader.RecordTagStable | src/reader/xml_reader.rs:41-47 | once the record tag is latched, no later event changes it |
| XmlReader.EmittedRecordsNonEmpty | src/reader/xml_reader.rs:61-70 | the parse never emits an empty record |
| XmlReader.EmitsOnlyAtRecordEnd | src/reader/xml_reader.rs:61-74 | an event appends a record exactly when it ends a record-tag element at depth 2 with a non-empty buffer, and the record appended is that buffer; every other event leaves the records alone |
| XmlReader.TextStoredUnderOpenField | src/reader/xml_reader.rs:53-59 | non-empty text is stored under the open depth-3 element's name whenever depth is 3 or more, overwriting an earlier value, and dropped otherwise |
| XmlReader.FieldClosedAtDepth3End | src/reader/xml_reader.rs:61-74 | the open field is cleared exactly by an element ending at depth 3 |
| XmlReader.ParseOutcome | src/reader/xml_reader.rs:75-82 | a parse error before the first end of file aborts with that error and position; otherwise the result is the records emitted before end of file |
| XmlReader.CollectColumns | src/reader/xml_reader.rs:109-121 | the collected columns have no duplicates and are exactly the union of all records' keys |
| XmlReader.ColumnsInFirstSeenOrder | src/reader/xml_reader.rs:109-121 | a key occurring among the first m records comes before every key none of them has |
| XmlReader.Project | src/reader/xml_reader.rs:94-104 | one column per name, in order, each with one entry per record: the record's value for that name or a gap |
| XmlReader.RowOfProject | src/reader/xml_reader.rs:94-104 | row i of the projection read back is record i restricted to the projected names |
| XmlReader.RowIsRecord | src/reader/xml_reader.rs:94-121 | over the collected columns, row i of the projection read back is record i itself: no key lost, none added |
| XmlReader.RecordsToFrame | src/reader/xml_reader.rs:91-107 | an accepted table has one column per collected name, in that order, each holding one value per record; a refusal carries the XML reader's context |
| XmlReader.RecordsToFrameSpec | src/reader/xml_reader.rs:91-107 | for at least one record the table is always accepted, has one column per distinct key and one row per record, and each row read back is the whole record |
| XmlReader.Read | src/reader/xml_reader.rs:10-21 | an unopenable file, a syntax error and a parse with no records each fail with their own fault; success implies at least one record |
| XmlReader.ReadKeepsRecords | src/reader/xml_reader.rs:10-21 | a file parsing to at least one record always yields the projected table, whose rows read back are the records |
| XmlTree.ParseFlattens | src/reader/xml_reader.rs:23-89 | on any well-nested document the state machine returns exactly the records the tree reading defines |
| XmlTree.TwoRecords | src/reader/xml_reader.rs:23-89 | `<root><rec><a>1</a><b>2</b></rec><rec><a>3</a></rec></root>` parses to the two records {a:1,b:2} and {a:3} |
| XmlTree.DeepTextFiledUnderField | src/reader/xml_reader.rs:53-59 | text nested below a field element is recorded under the field's name |
| XmlTree.SelfClosedRecordIgnored | src/reader/xml_reader.rs:16-18 | a document whose only record element is self-closing parses to no records, and reading it fails with "No records found" |
| ExcelReader.CellText | src/reader/excel_reader.rs:65-77 | a data cell gives no value exactly when absent or empty; text, ISO dates and durations, and booleans keep their text; an integer is written in decimal; floats and datetimes take the library's rendering; an error becomes `ERROR: ` followed by its debug name |
| ExcelReader.IntCellReadsBack | src/reader/excel_reader.rs:70 | an integer cell is written in decimal with a leading `-` when negative, and its digits read back to the integer's magnitude |
| ExcelReader.ErrorCellsDistinct | src/reader/excel_reader.rs:75 | two different error kinds give different data texts |
| ExcelReader.HeaderAndDataAgree | src/reader/excel_reader.rs:37-77 | a header and a data cell of the same value render alike, except that an empty cell is header "" but no value, and an error renders differently |
| ExcelReader.SheetName | src/reader/excel_reader.rs:26-35 | a requested sheet is used verbatim, otherwise the first sheet; it fails with "No sheets found" exactly when none is requested and there are none |
| ExcelReader.SheetRange | src/reader/excel_reader.rs:10-13 | the range is found exactly when the sheet exists, else the read fails naming the sheet |
| ExcelReader.ExtractHeaders | src/reader/excel_reader.rs:37-46 | one header per column: the displayed row-0 cell, or `col_<c>` where that cell is absent |
| ExcelReader.BuildColumns | src/reader/excel_reader.rs:48-63 | column c is named by header c and holds the coerced cells of rows 1 and below, one per data row |
| ExcelReader.Read | src/reader/excel_reader.rs:7-24 | an unopenable workbook, a missing sheet list and a missing sheet each fail with their fault; a table comes only from a non-empty grid and has its width and height minus the header row |
| ExcelReader.ReadFoundSheet | src/reader/excel_reader.rs:15-23 | for a found sheet, an empty grid fails with "Empty sheet"; otherwise the table is the built columns and it is refused exactly when two headers coincide |
| ExcelReader.ReadCells | src/reader/excel_reader.rs:7-63 | value i of column c in the table read is the coerced grid cell (i+1, c), and column c is named by header c |
| ExcelReader.DataIgnoresHeaderRow | src/reader/excel_reader.rs:48-63 | two grids that agree below row 0 give the same column values |
| ExcelReader.SyntheticHeadersAccepted | src/reader/excel_reader.rs:37-46 | a non-empty sheet with no header cells gets names `col_0`, `col_1`, … that never collide, so it is always read |
| ExcelReader.DuplicateHeadersRejected | src/reader/excel_reader.rs:23 | a sheet whose first two header cells are the same text always fails to become a table |
| Reader.ReaderFor | src/reader.rs:16-21 | CSV, JSON and XML each go to their own reader and exactly the three spreadsheet formats go to the spreadsheet reader |
| Reader.ReadFile | src/reader.rs:12-22 | an undetected format fails naming the extension; otherwise the reader of the detected format decides |
| Reader.SheetIgnoredOutsideSpreadsheets | src/reader.rs:16-19 | for CSV, JSON and XML the outcome does not depend on the requested sheet |
| Reader.SpreadsheetsGetTheSheet | src/reader.rs:20 | xls, xlsx and ods reach the spreadsheet reader with the sheet passed unchanged |
| Converter.Convert | src/converter.rs:14-29 | an unsupported input touches nothing; otherwise the input is read first, output is written only after a successful read, and the result is Ok exactly when the write succeeded; a read error is returned unchanged |
| Converter.ConvertSuccess | src/converter.rs:20-28 | a successful conversion reports the detected format and the read table's rows and columns, and wrote that table to the output |
| Converter.WriteFaultPropagates | src/converter.rs:26 | a table that was read but not written fails with the writer's fault |
| Converter.ResultIndependentOfOutput | src/converter.rs:14-29 | two successful conversions of the same input to different outputs report the same result |
| Configuration.DefaultConfig | src/config.rs:10-17 | the derived default takes each section's default: `./input`, `./output`, non-recursive, keep sources, no default sheet, poll every 2 seconds, debounce 500 ms |
| Configuration.DefaultGeneral | src/config.rs:62-72 | the defaults are `./input`, `./output`, non-recursive, keep sources, no default sheet |
| Configuration.DefaultWatch | src/config.rs:74-81 | the default poll interval is 2 seconds and the debounce 500 ms |
| Configuration.ApplyOverrides | src/config.rs:84-103 | a given directory replaces the configured one, a flag is on if it was on or is given, and the default sheet is untouched |
| Configuration.OverridesCompose | src/config.rs:84-103 | applying two override sets in turn equals applying their merge: the later directory wins, flags are or-ed |
| Configuration.OverridesIdempotent | src/config.rs:84-103 | applying the same overrides twice changes nothing more |
| Configuration.FlagsOnlySwitchOn | src/config.rs:97-102 | a flag argument can switch a setting on but never off |
| Processor.ProcessFile | src/processor.rs:42-58 | the outcome is the conversion's outcome; the source removal is attempted exactly after a successful conversion with deletion on, and its failure does not change the outcome |
| Processor.RemovalAfterSuccessOnly | src/processor.rs:53-57 | no removal after a failed conversion, and the outcome does not depend on whether removal succeeds |
| Processor.OutputPath | src/processor.rs:60-65 | for an input with a well-formed file name that is not the input directory itself, the output has extension `parquet` and the input's stem |
| Processor.OutputPathMirrorsTree | src/processor.rs:60-65 | a file below the input directory (a relative remainder not starting with `/` or `.`) maps below the output directory with the same relative components, the same stem, and extension `parquet` |
| Processor.OutputPathOfForeignRelative | src/processor.rs:60-65 | a relative input outside the input directory is joined whole under the output directory (its leading `.` dropped), so the output lies below the output directory at the input's relative path, with extension `parquet` |
| Processor.OutputPathOfForeignAbsolute | src/processor.rs:60-65 | an absolute input outside the input directory keeps its place, only its extension becomes `parquet` |
| Processor.OutputPathExample | src/processor.rs:60-65 | `/in/sub/a.csv` with input `/in` and output `/out` becomes `/out/sub/a.parquet` |
| Processor.MaxDepth | src/processor.rs:74-81 | the walk is unlimited exactly when recursive, else limited to depth 1 |
| Processor.Walk | src/processor.rs:74-81 | a recursive walk yields every entry; otherwise only entries of depth at most 1 |
| Processor.WalkNonRecursive | src/processor.rs:74-81 | a non-recursive walk yields exactly the entries of depth at most 1, in walk order |
| Processor.Batch | src/processor.rs:20-34 | the loop converts each supported file entry in walk order, to its mirrored output path, and counts successes and failures, which add up to the files tried |
| Processor.RunsForAppend | src/processor.rs:20-34 | converting two lists of files one after the other gives the conversions of each list, concatenated: each file is converted independently |
| Processor.RunsForInputs | src/processor.rs:20-34 | the i-th conversion of a list of files is the conversion of the i-th file |
| Processor.ProcessBatch | src/processor.rs:15-40 | the batch always returns Ok, and the counts add up to the supported files the walk yields |
| Processor.BatchAppend | src/processor.rs:20-34 | a batch over two runs of entries is the two batches side by side with counts added: a failure never affects later files |
| Watcher.ModeFor | src/watcher.rs:38-42 | the watch is recursive exactly when the configuration says so |
| Watcher.Listen | src/watcher.rs:48-72 | the loop ends exactly when a channel closure arrives, and converts, in order, every supported file named by an event received before it |
| Watcher.Watch | src/watcher.rs:10-75 | the initial batch runs first, and a batch error is returned with no conversions; a failure to create or start the watcher is returned with no conversions; otherwise the loop's conversions follow and watch returns Ok exactly when the channel closed |
| Watcher.AfterCloseIrrelevant | src/watcher.rs:67-70 | messages after the channel closed are never looked at |
| Watcher.NotifyErrorSkipped | src/watcher.rs:64-66 | a notification error is skipped: the loop continues as if the message had not arrived |
| Watcher.JobsIgnoreOutcomes | src/watcher.rs:56-60 | which files the loop converts depends only on the messages, never on how earlier conversions went |

## Left out

- Parsing of XML text (quick-xml tokenising, unescaping, trimming): the reader takes the parser's event stream as input.
- Opening workbooks and decoding xls/xlsx/ods containers: the reader takes the decoded sheet names and grids as input.
- The `Display` of floating-point and date-time cells, and of cell errors in headers: these are library renderings, taken as opaque functions (`CellFormats`).
- The CSV and JSON readers (`src/reader/csv_reader.rs`, `src/reader/json_reader.rs`) and the Parquet writer (`src/writer.rs`): thin library wrappers, taken as outcome functions of the path.
- The order of `WalkDir` entries and the file system's answers (`is_file`, `remove_file`): these are inputs. They are assumed not to change during a run.
- The `notify` watcher, its channel, the debounce sleep and the poll interval: the channel is a finite list of messages, and the sleeps only affect timing.
- Loading, saving and generating the TOML configuration, the command line (`src/cli.rs`) and `src/main.rs`: these are I/O around the core.
- Log lines printed with `println!`/`eprintln!`: they are output only.
- Integer widths (`usize` counts, `i64` cells, `u64` settings): all are unbounded naturals or integers; nothing in the core comes near their limits.
- Non-ASCII case folding in `to_lowercase` (e.g. the Kelvin sign lower-casing to `k`): only ASCII letters are lowered.
- Windows path prefixes and separators: paths are Unix component sequences.
- XmlReader.ColumnsInFirstSeenOrder: keys first seen in the same record come in `HashMap` order, which is an input and about which nothing is claimed.
- ExcelReader.Read: the table's contents are stated in ExcelReader.ReadFoundSheet and ExcelReader.ReadCells, not in `read`'s own contract.
- Watcher.Watch: a run whose channel never closes is cut at the last message received, with `returned` = `None`, meaning still waiting.
