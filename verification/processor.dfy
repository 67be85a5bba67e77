/** `src/processor.rs`: batch conversion of a directory. The walk is given
    as the list of entries `WalkDir` would visit without a depth limit (in
    its order); the file system answers whether a path is a file and
    whether removing it succeeds. */
module Processor {
  import opened Fallible
  import opened Paths
  import opened Faults
  import opened Formats
  import opened Converter
  import opened Configuration
  import Reader
  import opened Seqs

  /** The world a batch runs in: the conversion backend, and whether
      `remove_file` succeeds on a path. */
  datatype FileSystem = FileSystem(backend: Backend, remove: Path -> bool)

  ghost predicate Coherent(fs: FileSystem) {
    Reader.Coherent(fs.backend.sources)
  }

  /** One conversion attempt of `process_file`: the conversion, whether the
      source removal was attempted and succeeded, and the returned outcome. */
  datatype FileRun = FileRun(
    input: Path,
    output: Path,
    conversion: Conversion,
    removal: Option<bool>,
    outcome: Result<(), Fault>)

  /** `process_file`. */
  function ProcessFile(fs: FileSystem, input: Path, output: Path, config: Config): (r: FileRun)
    requires Coherent(fs)
    ensures r.input == input && r.output == output
    ensures r.outcome.Ok? <==> r.conversion.result.Ok?
    ensures r.outcome.Err? ==> r.outcome.error == r.conversion.result.error
    ensures r.removal.Some? <==> r.conversion.result.Ok? && config.general.deleteSource
    ensures r.removal.Some? ==> r.removal.value == fs.remove(input)
  {
    var c := Convert(fs.backend, input, output, config.general.defaultSheet);
    match c.result
    case Err(e) => FileRun(input, output, c, None, Err(e))
    case Ok(_) =>
      var removal := if config.general.deleteSource then Some(fs.remove(input)) else None;
      FileRun(input, output, c, removal, Ok(()))
  }

  /** The source is never removed when its conversion failed, and a failed
      removal does not change what `process_file` returns. */
  lemma RemovalAfterSuccessOnly(fs: FileSystem, other: Path -> bool, input: Path, output: Path, config: Config)
    requires Coherent(fs)
    ensures var r := ProcessFile(fs, input, output, config);
      && (r.conversion.result.Err? ==> r.removal.None?)
      && ProcessFile(fs.(remove := other), input, output, config).outcome == r.outcome
  {
  }

  /** `get_output_path`. */
  function OutputPath(input: Path, inputDir: Path, outputDir: Path): (r: Path)
    ensures FileName(input).Some? && ValidName(FileName(input).value) && StripPrefix(input, inputDir) != Some([]) ==>
      Extension(r) == Some(OsFrom("parquet")) && FileStem(r) == FileStem(input)
  {
    var relative := match StripPrefix(input, inputDir) case Some(rel) => rel case None => input;
    ParquetNamed(outputDir, relative);
    SetExtension(Join(outputDir, relative), OsFrom("parquet"))
  }

  /** Joining a path with a well-formed file name under a directory and
      setting its extension to `parquet` keeps its stem. */
  lemma ParquetNamed(dir: Path, rel: Path)
    ensures FileName(rel).Some? && ValidName(FileName(rel).value) ==>
      var out := SetExtension(Join(dir, rel), OsFrom("parquet"));
      Extension(out) == Some(OsFrom("parquet")) && FileStem(out) == FileStem(rel)
  {
    if FileName(rel).Some? && ValidName(FileName(rel).value) {
      JoinKeepsFileName(dir, rel);
      ParquetHasNoDot();
      SetExtensionSpec(Join(dir, rel), OsFrom("parquet"));
    }
  }

  lemma ParquetHasNoDot()
    ensures |OsFrom("parquet")| == 7
    ensures forall j :: 0 <= j < |OsFrom("parquet")| ==> OsFrom("parquet")[j] != Ch('.')
  {
  }

  /** A file below the input directory is mirrored below the output
      directory: the same components, with the last one's extension replaced
      by (or extended with) `parquet` and its stem kept. */
  lemma OutputPathMirrorsTree(inputDir: Path, outputDir: Path, rel: Path)
    requires |outputDir| > 0 && ValidPath(rel) && |rel| > 0 && rel[0] != RootDir && rel[0] != CurDir
    requires rel[|rel| - 1].Normal?
    ensures var out := OutputPath(inputDir + rel, inputDir, outputDir);
      && StripPrefix(out, outputDir).Some?
      && |StripPrefix(out, outputDir).value| == |rel|
      && StripPrefix(out, outputDir).value[..|rel| - 1] == rel[..|rel| - 1]
      && Extension(out) == Some(OsFrom("parquet"))
      && FileStem(out) == FileStem(inputDir + rel)
  {
    var input := inputDir + rel;
    assert input[..|inputDir|] == inputDir && input[|inputDir|..] == rel;
    assert StripPrefix(input, inputDir) == Some(rel);
    var joined := outputDir + rel;
    assert Join(outputDir, rel) == joined;
    assert FileName(joined) == Some(rel[|rel| - 1].name);
    assert FileName(input) == FileName(joined);
    assert ValidName(rel[|rel| - 1].name);
    ParquetHasNoDot();
    SetExtensionSpec(joined, OsFrom("parquet"));
    var out := SetExtension(joined, OsFrom("parquet"));
    LastChangedOnly(outputDir, rel, out);
  }

  /** A path that agrees with `dir + rel` on all but its last component still
      lies under `dir`, with the same components up to the file name. */
  lemma LastChangedOnly(dir: Path, rel: Path, out: Path)
    requires |rel| > 0 && |out| == |dir + rel|
    requires out[..|dir + rel| - 1] == (dir + rel)[..|dir + rel| - 1]
    ensures StripPrefix(out, dir) == Some(out[|dir|..])
    ensures out[|dir|..][..|rel| - 1] == rel[..|rel| - 1]
  {
    var joined := dir + rel;
    assert out[..|dir|] == dir by {
      assert out[..|dir|] == out[..|joined| - 1][..|dir|];
      assert joined[..|dir|] == joined[..|joined| - 1][..|dir|];
    }
    var back := out[|dir|..];
    forall j | 0 <= j < |rel| - 1
      ensures back[j] == rel[j]
    {
      assert back[j] == out[..|joined| - 1][|dir| + j];
      assert joined[|dir| + j] == rel[j];
    }
  }

  /** A relative input outside the input directory is placed under the
      output directory whole: `join` appends all of its components (its
      leading `.` dropped), so the Parquet file lies below the output
      directory at the input's own relative path. */
  lemma OutputPathOfForeignRelative(input: Path, inputDir: Path, outputDir: Path)
    requires StripPrefix(input, inputDir).None? && !IsAbsolute(input) && |outputDir| > 0
    ensures var rel := if |input| > 0 && input[0] == CurDir then input[1..] else input;
      OutputPath(input, inputDir, outputDir) == SetExtension(outputDir + rel, OsFrom("parquet"))
    ensures |input| > 0 && input[|input| - 1].Normal? && ValidName(input[|input| - 1].name) ==>
      var rel := if input[0] == CurDir then input[1..] else input;
      var out := OutputPath(input, inputDir, outputDir);
      && StripPrefix(out, outputDir).Some?
      && StripPrefix(out, outputDir).value[..|rel| - 1] == rel[..|rel| - 1]
      && Extension(out) == Some(OsFrom("parquet"))
  {
    if |input| > 0 && input[|input| - 1].Normal? && ValidName(input[|input| - 1].name) {
      var rel := if input[0] == CurDir then input[1..] else input;
      assert |rel| > 0;
      var joined := outputDir + rel;
      assert FileName(joined) == FileName(input);
      ParquetHasNoDot();
      SetExtensionSpec(joined, OsFrom("parquet"));
      LastChangedOnly(outputDir, rel, SetExtension(joined, OsFrom("parquet")));
    }
  }

  /** An absolute input outside the input directory is not moved: `join`
      keeps the absolute path, so the Parquet file lands beside the source. */
  lemma OutputPathOfForeignAbsolute(input: Path, inputDir: Path, outputDir: Path)
    requires StripPrefix(input, inputDir).None? && IsAbsolute(input)
    ensures OutputPath(input, inputDir, outputDir) == SetExtension(input, OsFrom("parquet"))
  {
  }

  /** `/in/sub/a.csv` with input directory `/in` and output directory `/out`
      becomes `/out/sub/a.parquet`. */
  lemma OutputPathExample()
    ensures OutputPath(
        [RootDir, Normal(OsFrom("in")), Normal(OsFrom("sub")), Normal(OsFrom("a.csv"))],
        [RootDir, Normal(OsFrom("in"))],
        [RootDir, Normal(OsFrom("out"))])
      == [RootDir, Normal(OsFrom("out")), Normal(OsFrom("sub")), Normal(OsFrom("a.parquet"))]
  {
    var inputDir := [RootDir, Normal(OsFrom("in"))];
    var outputDir := [RootDir, Normal(OsFrom("out"))];
    var input := [RootDir, Normal(OsFrom("in")), Normal(OsFrom("sub")), Normal(OsFrom("a.csv"))];
    var joined := [RootDir, Normal(OsFrom("out")), Normal(OsFrom("sub")), Normal(OsFrom("a.csv"))];
    ExampleJoined();
    ExampleStem();
    assert OutputPath(input, inputDir, outputDir) == SetExtension(joined, OsFrom("parquet"));
    assert OsFrom("a.parquet") == OsFrom("a") + ([Ch('.')] + OsFrom("parquet"));
  }

  /** The example input, stripped of `/in` and joined under `/out`. */
  lemma ExampleJoined()
    ensures var input := [RootDir, Normal(OsFrom("in")), Normal(OsFrom("sub")), Normal(OsFrom("a.csv"))];
      var rel := [Normal(OsFrom("sub")), Normal(OsFrom("a.csv"))];
      && StripPrefix(input, [RootDir, Normal(OsFrom("in"))]) == Some(rel)
      && Join([RootDir, Normal(OsFrom("out"))], rel)
         == [RootDir, Normal(OsFrom("out")), Normal(OsFrom("sub")), Normal(OsFrom("a.csv"))]
  {
    var inputDir := [RootDir, Normal(OsFrom("in"))];
    var rel := [Normal(OsFrom("sub")), Normal(OsFrom("a.csv"))];
    var input := inputDir + rel;
    assert input[..2] == inputDir && input[2..] == rel;
  }

  /** The stem of the joined example path is `a`. */
  lemma ExampleStem()
    ensures FileStem([RootDir, Normal(OsFrom("out")), Normal(OsFrom("sub")), Normal(OsFrom("a.csv"))])
      == Some(OsFrom("a"))
  {
    var joined := [RootDir, Normal(OsFrom("out")), Normal(OsFrom("sub")), Normal(OsFrom("a.csv"))];
    assert OsFrom("a.csv") == OsFrom("a") + [Ch('.')] + OsFrom("csv");
    assert joined == joined[..3] + [Normal(OsFrom("a") + [Ch('.')] + OsFrom("csv"))];
    ExtensionOfDottedName(joined[..3], OsFrom("a"), OsFrom("csv"));
  }

  /** An entry `WalkDir` yields: a path at a depth below the root (the root
      itself is depth 0), or an error. */
  datatype WalkEntry = Entry(path: Path, depth: nat, isFile: bool) | WalkError(errorDepth: nat)

  /** `create_walker`: unlimited when recursive, else `max_depth(1)`. */
  function MaxDepth(config: Config): (d: Option<nat>)
    ensures d.None? <==> config.general.recursive
    ensures d.Some? ==> d.value == 1
  {
    if config.general.recursive then None else Some(1)
  }

  function DepthOf(e: WalkEntry): nat {
    match e
    case Entry(_, d, _) => d
    case WalkError(d) => d
  }

  /** The entries the configured walker yields out of the full walk. */
  function Walk(tree: seq<WalkEntry>, config: Config): (r: seq<WalkEntry>)
    ensures config.general.recursive ==> r == tree
    ensures !config.general.recursive ==> forall i :: 0 <= i < |r| ==> DepthOf(r[i]) <= 1
    ensures |r| <= |tree|
    decreases |tree|
  {
    if |tree| == 0 then []
    else
      var rest := Walk(tree[..|tree| - 1], config);
      var e := tree[|tree| - 1];
      if MaxDepth(config).None? || DepthOf(e) <= MaxDepth(config).value then rest + [e] else rest
  }

  /** Reference filter: the entries of depth at most 1, in walk order. */
  function Shallow(tree: seq<WalkEntry>): seq<WalkEntry>
    decreases |tree|
  {
    if |tree| == 0 then []
    else Shallow(tree[..|tree| - 1]) + (if DepthOf(tree[|tree| - 1]) <= 1 then [tree[|tree| - 1]] else [])
  }

  /** Without recursion the walk yields exactly the root and its immediate
      children, in walk order: nothing shallow is dropped. */
  lemma {:induction false} WalkNonRecursive(tree: seq<WalkEntry>, config: Config)
    requires !config.general.recursive
    ensures Walk(tree, config) == Shallow(tree)
    decreases |tree|
  {
    if |tree| > 0 {
      WalkNonRecursive(tree[..|tree| - 1], config);
    }
  }

  /** The entries `process_batch` converts: files with a supported format. */
  predicate IsCandidate(e: WalkEntry) {
    e.Entry? && e.isFile && IsSupported(e.path)
  }

  function Candidates(entries: seq<WalkEntry>): (r: seq<Path>)
    decreases |entries|
  {
    if |entries| == 0 then []
    else
      var e := entries[|entries| - 1];
      Candidates(entries[..|entries| - 1]) + (if IsCandidate(e) then [e.path] else [])
  }

  /** `ProcessStats`. */
  datatype Stats = Stats(processed: nat, errors: nat)

  datatype BatchRun = BatchRun(stats: Stats, runs: seq<FileRun>)

  function CountOk(runs: seq<FileRun>): (n: nat)
    ensures n <= |runs|
    decreases |runs|
  {
    if |runs| == 0 then 0
    else CountOk(runs[..|runs| - 1]) + (if runs[|runs| - 1].outcome.Ok? then 1 else 0)
  }

  /** What the batch does with one candidate file. */
  function RunFor(fs: FileSystem, config: Config, input: Path): FileRun
    requires Coherent(fs)
  {
    ProcessFile(fs, input, OutputPath(input, config.general.inputDir, config.general.outputDir), config)
  }

  /** Reference: one independent conversion per path, in order. */
  function RunsFor(fs: FileSystem, config: Config, ps: seq<Path>): (r: seq<FileRun>)
    requires Coherent(fs)
    ensures |r| == |ps|
    decreases |ps|
  {
    if |ps| == 0 then [] else [RunFor(fs, config, ps[0])] + RunsFor(fs, config, ps[1..])
  }

  /** The loop of `process_batch` over the walker's entries. */
  function Batch(fs: FileSystem, config: Config, entries: seq<WalkEntry>): (r: BatchRun)
    requires Coherent(fs)
    ensures r.runs == RunsFor(fs, config, Candidates(entries))
    ensures r.stats.processed == CountOk(r.runs)
    ensures r.stats.processed + r.stats.errors == |r.runs|
    decreases |entries|
  {
    if |entries| == 0 then BatchRun(Stats(0, 0), [])
    else
      var before := Batch(fs, config, entries[..|entries| - 1]);
      var e := entries[|entries| - 1];
      var pre := Candidates(entries[..|entries| - 1]);
      if IsCandidate(e) then
        assert Candidates(entries) == pre + [e.path];
        RunsForSnoc(fs, config, pre, e.path);
        Tally(before, RunFor(fs, config, e.path))
      else
        assert pre + [] == pre;
        assert Candidates(entries) == pre;
        before
  }

  /** One more conversion counted: a success is processed, a failure an
      error. */
  function Tally(before: BatchRun, run: FileRun): (r: BatchRun)
    requires before.stats.processed == CountOk(before.runs)
    requires before.stats.processed + before.stats.errors == |before.runs|
    ensures r.runs == before.runs + [run]
    ensures r.stats.processed == CountOk(r.runs)
    ensures r.stats.processed + r.stats.errors == |r.runs|
  {
    CountOkSnoc(before.runs, run);
    var stats := if run.outcome.Ok? then before.stats.(processed := before.stats.processed + 1)
                 else before.stats.(errors := before.stats.errors + 1);
    BatchRun(stats, before.runs + [run])
  }

  lemma CountOkSnoc(runs: seq<FileRun>, run: FileRun)
    ensures CountOk(runs + [run]) == CountOk(runs) + (if run.outcome.Ok? then 1 else 0)
  {
    assert (runs + [run])[..|runs|] == runs;
  }

  /** `process_batch`: it always returns `Ok`. */
  function ProcessBatch(fs: FileSystem, config: Config, tree: seq<WalkEntry>): (r: Result<BatchRun, Fault>)
    requires Coherent(fs)
    ensures r.Ok?
    ensures r.value.runs == RunsFor(fs, config, Candidates(Walk(tree, config)))
    ensures r.value.stats.processed + r.value.stats.errors == |Candidates(Walk(tree, config))|
  {
    Ok(Batch(fs, config, Walk(tree, config)))
  }

  /** Conversions of two lists of paths are the conversions of each, side by side. */
  lemma {:induction false} RunsForAppend(fs: FileSystem, config: Config, a: seq<Path>, b: seq<Path>)
    requires Coherent(fs)
    ensures RunsFor(fs, config, a + b) == RunsFor(fs, config, a) + RunsFor(fs, config, b)
    decreases |a|
  {
    if |a| == 0 {
      assert a + b == b;
    } else {
      assert (a + b)[1..] == a[1..] + b;
      RunsForAppend(fs, config, a[1..], b);
      Associative([RunFor(fs, config, a[0])], RunsFor(fs, config, a[1..]), RunsFor(fs, config, b));
    }
  }

  /** Each conversion is of its own path. */
  lemma {:induction false} RunsForInputs(fs: FileSystem, config: Config, ps: seq<Path>)
    requires Coherent(fs)
    ensures forall i :: 0 <= i < |ps| ==> RunsFor(fs, config, ps)[i].input == ps[i]
    decreases |ps|
  {
    if |ps| > 0 {
      RunsForInputs(fs, config, ps[1..]);
      var head := RunFor(fs, config, ps[0]);
      assert RunsFor(fs, config, ps) == [head] + RunsFor(fs, config, ps[1..]);
      InputsCons(head, RunsFor(fs, config, ps[1..]), ps);
    }
  }

  lemma InputsCons(head: FileRun, tail: seq<FileRun>, ps: seq<Path>)
    requires |ps| > 0 && |tail| == |ps| - 1 && head.input == ps[0]
    requires forall i :: 0 <= i < |ps| - 1 ==> tail[i].input == ps[1..][i]
    ensures forall i :: 0 <= i < |ps| ==> ([head] + tail)[i].input == ps[i]
  {
    forall i | 1 <= i < |ps|
      ensures ([head] + tail)[i].input == ps[i]
    {
      assert ([head] + tail)[i] == tail[i - 1] && ps[i] == ps[1..][i - 1];
    }
  }

  lemma RunsForSnoc(fs: FileSystem, config: Config, ps: seq<Path>, p: Path)
    requires Coherent(fs)
    ensures RunsFor(fs, config, ps + [p]) == RunsFor(fs, config, ps) + [RunFor(fs, config, p)]
  {
    RunsForAppend(fs, config, ps, [p]);
    assert [p][1..] == [];
  }

  lemma {:induction false} CandidatesAppend(a: seq<WalkEntry>, b: seq<WalkEntry>)
    ensures Candidates(a + b) == Candidates(a) + Candidates(b)
    decreases |b|
  {
    if |b| == 0 {
      assert a + b == a;
    } else {
      assert (a + b)[..|a + b| - 1] == a + b[..|b| - 1];
      CandidatesAppend(a, b[..|b| - 1]);
      var e := b[|b| - 1];
      Associative(Candidates(a), Candidates(b[..|b| - 1]), if IsCandidate(e) then [e.path] else []);
    }
  }

  lemma {:induction false} CountOkAppend(a: seq<FileRun>, b: seq<FileRun>)
    ensures CountOk(a + b) == CountOk(a) + CountOk(b)
    decreases |b|
  {
    if |b| == 0 {
      assert a + b == a;
    } else {
      assert (a + b)[..|a + b| - 1] == a + b[..|b| - 1];
      CountOkAppend(a, b[..|b| - 1]);
    }
  }

  /** Per-file fault isolation: a batch over two runs of entries is the two
      batches side by side, so a failure among the first entries changes
      nothing about the later ones, and the counts add up. */
  lemma BatchAppend(fs: FileSystem, config: Config, a: seq<WalkEntry>, b: seq<WalkEntry>)
    requires Coherent(fs)
    ensures Batch(fs, config, a + b).runs == Batch(fs, config, a).runs + Batch(fs, config, b).runs
    ensures Batch(fs, config, a + b).stats.processed
      == Batch(fs, config, a).stats.processed + Batch(fs, config, b).stats.processed
    ensures Batch(fs, config, a + b).stats.errors
      == Batch(fs, config, a).stats.errors + Batch(fs, config, b).stats.errors
  {
    CandidatesAppend(a, b);
    RunsForAppend(fs, config, Candidates(a), Candidates(b));
    CountOkAppend(Batch(fs, config, a).runs, Batch(fs, config, b).runs);
  }
}
