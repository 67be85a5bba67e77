/** The in-memory table handed to the Parquet writer (a polars `DataFrame`
    of nullable text columns). Only `DataFrame::new`'s acceptance rule is
    modelled: column names must be distinct and all columns equally long. */
module Frames {
  import opened Fallible
  import opened Faults

  datatype Column = Column(name: string, values: seq<Option<string>>)

  datatype DataFrame = DataFrame(columns: seq<Column>)

  /** `DataFrame::height`: the common column length, 0 with no columns. */
  function Height(df: DataFrame): nat {
    if |df.columns| == 0 then 0 else |df.columns[0].values|
  }

  /** `DataFrame::width`. */
  function Width(df: DataFrame): nat {
    |df.columns|
  }

  predicate DistinctNames(cols: seq<Column>) {
    forall i, j :: 0 <= i < j < |cols| ==> cols[i].name != cols[j].name
  }

  predicate UniformHeight(cols: seq<Column>) {
    forall i :: 0 <= i < |cols| ==> |cols[i].values| == |cols[0].values|
  }

  /** `DataFrame::new(columns).context(...)`: the columns become a table, or
      the call fails with the reader's context message. */
  function NewFrame(cols: seq<Column>, origin: FrameOrigin): (r: Result<DataFrame, Fault>)
    ensures r.Ok? <==> DistinctNames(cols) && UniformHeight(cols)
    ensures r.Ok? ==> r.value.columns == cols
    ensures r.Err? ==> r.error == FrameRejected(origin)
  {
    if DistinctNames(cols) && UniformHeight(cols) then Ok(DataFrame(cols))
    else Err(FrameRejected(origin))
  }
}
