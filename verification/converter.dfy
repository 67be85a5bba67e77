/** `src/converter.rs`: one file is detected, read and written as Parquet.
    The Parquet writer (`src/writer.rs`) is an outcome oracle: it either
    succeeds or names the stage that failed. A conversion also records the
    reads and writes it attempted, so that the ordering of its error checks
    can be stated. */
module Converter {
  import opened Fallible
  import opened Paths
  import opened Faults
  import opened Formats
  import opened Frames
  import Reader

  /** `ConversionResult`. */
  datatype ConversionResult = ConversionResult(rows: nat, columns: nat, format: FileFormat)

  /** An input or output the conversion touched. */
  datatype Effect = ReadInput(input: Path) | WriteOutput(output: Path, frame: DataFrame)

  /** The table readers and the Parquet writer: `write(df, out)` is `None`
      when the file was written. */
  datatype Backend = Backend(sources: Reader.Sources, write: (DataFrame, Path) -> Option<Fault>)

  datatype Conversion = Conversion(result: Result<ConversionResult, Fault>, effects: seq<Effect>)

  /** `convert`. */
  function Convert(b: Backend, input: Path, output: Path, sheet: Option<string>): (c: Conversion)
    requires Reader.Coherent(b.sources)
    ensures FromPath(input).None? <==> c.effects == []
    ensures FromPath(input).None? ==> c.result == Err(UnsupportedFormat(Extension(input)))
    ensures |c.effects| >= 1 ==> c.effects[0] == ReadInput(input)
    ensures |c.effects| <= 2
    ensures |c.effects| == 1 ==>
      (c.result.Err? && Reader.ReadFile(b.sources, input, sheet).Err?
       && c.result.error == Reader.ReadFile(b.sources, input, sheet).error)
    ensures |c.effects| == 2 <==> FromPath(input).Some? && Reader.ReadFile(b.sources, input, sheet).Ok?
    ensures |c.effects| == 2 ==> c.effects[1].WriteOutput? && c.effects[1].output == output
    ensures c.result.Ok? <==> |c.effects| == 2 && b.write(c.effects[1].frame, output).None?
  {
    match FromPath(input)
    case None => Conversion(Err(UnsupportedFormat(Extension(input))), [])
    case Some(format) =>
      match Reader.ReadFile(b.sources, input, sheet)
      case Err(e) => Conversion(Err(e), [ReadInput(input)])
      case Ok(df) =>
        var result := ConversionResult(Height(df), Width(df), format);
        var effects := [ReadInput(input), WriteOutput(output, df)];
        match b.write(df, output)
        case Some(e) => Conversion(Err(e), effects)
        case None => Conversion(Ok(result), effects)
  }

  /** A successful conversion reports the detected format and the size of
      the table it read, and wrote exactly that table to `output`. */
  lemma ConvertSuccess(b: Backend, input: Path, output: Path, sheet: Option<string>)
    requires Reader.Coherent(b.sources)
    requires Convert(b, input, output, sheet).result.Ok?
    ensures var c := Convert(b, input, output, sheet);
      var df := Reader.ReadFile(b.sources, input, sheet);
      && FromPath(input).Some? && df.Ok?
      && c.result.value == ConversionResult(Height(df.value), Width(df.value), FromPath(input).value)
      && c.effects == [ReadInput(input), WriteOutput(output, df.value)]
  {
  }

  /** A table that was read but could not be written fails with the writer's
      fault, and no result is returned. */
  lemma WriteFaultPropagates(b: Backend, input: Path, output: Path, sheet: Option<string>)
    requires Reader.Coherent(b.sources)
    requires FromPath(input).Some? && Reader.ReadFile(b.sources, input, sheet).Ok?
    requires b.write(Reader.ReadFile(b.sources, input, sheet).value, output).Some?
    ensures Convert(b, input, output, sheet).result
      == Err(b.write(Reader.ReadFile(b.sources, input, sheet).value, output).value)
  {
  }

  /** The output path matters only to the writer: two conversions of the
      same input to different outputs read the same table and, when both
      writes succeed, report the same result. */
  lemma ResultIndependentOfOutput(b: Backend, input: Path, o1: Path, o2: Path, sheet: Option<string>)
    requires Reader.Coherent(b.sources)
    requires Convert(b, input, o1, sheet).result.Ok? && Convert(b, input, o2, sheet).result.Ok?
    ensures Convert(b, input, o1, sheet).result == Convert(b, input, o2, sheet).result
  {
  }
}
