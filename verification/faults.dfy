/** The errors the converter raises. Each constructor stands for one
    `anyhow` error the source builds; its doc comment gives the message. */
module Faults {
  import opened Fallible
  import opened Paths

  /** Which reader built the rejected table. */
  datatype FrameOrigin = FromXml | FromExcel

  /** The step of `write_parquet` that failed. */
  datatype WriteStage = CreateDirectory | CreateFile | EncodeParquet

  datatype Fault =
    /** "Unsupported format: {:?}" with the path's extension. */
    | UnsupportedFormat(extension: Option<OsStr>)
    /** "Failed to open XML file". */
    | XmlOpenFailed
    /** "Failed to read XML at position {}: {:?}"; `detail` is the parser's
        debug text. */
    | XmlSyntax(position: nat, detail: string)
    /** "No records found in XML". */
    | NoRecords
    /** "Failed to create DataFrame from XML" / "... from Excel". */
    | FrameRejected(origin: FrameOrigin)
    /** "Failed to open Excel/ODS file". */
    | WorkbookOpenFailed
    /** "No sheets found". */
    | NoSheets
    /** "Sheet '{}' not found". */
    | SheetNotFound(sheet: string)
    /** "Empty sheet". */
    | EmptySheet
    /** A fault of the CSV or JSON table reader; its text is the library's. */
    | ReaderFailed(detail: string)
    /** "Failed to create output directory" / "Failed to create Parquet file"
        / "Failed to write Parquet file". */
    | WriteFailed(stage: WriteStage)
    /** "Failed to create watcher". */
    | WatcherCreateFailed
    /** "Failed to start watching". */
    | WatchStartFailed
}
