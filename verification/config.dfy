/** `src/config.rs`: the settings of batch and watch runs, their defaults,
    and the merge of command-line overrides. Loading and saving TOML is not
    modelled. */
module Configuration {
  import opened Fallible
  import opened Paths

  const DefaultPollIntervalSecs: nat := 2
  const DefaultDebounceMs: nat := 500

  /** `GeneralConfig`. */
  datatype GeneralConfig = GeneralConfig(
    inputDir: Path,
    outputDir: Path,
    recursive: bool,
    deleteSource: bool,
    defaultSheet: Option<string>)

  /** `WatchConfig`; both fields are `u64` in the source. */
  datatype WatchConfig = WatchConfig(pollIntervalSecs: nat, debounceMs: nat)

  /** `Config`. */
  datatype Config = Config(general: GeneralConfig, watch: WatchConfig)

  /** `PathBuf::from("./<name>")` as components. */
  function RelativeDir(name: string): (p: Path)
    requires ValidName(OsFrom(name))
    ensures ValidPath(p) && !IsAbsolute(p)
    ensures FileName(p) == Some(OsFrom(name))
  {
    [CurDir, Normal(OsFrom(name))]
  }

  /** `GeneralConfig::default`. */
  function DefaultGeneral(): (g: GeneralConfig)
    ensures g.inputDir == [CurDir, Normal(OsFrom("input"))]
    ensures g.outputDir == [CurDir, Normal(OsFrom("output"))]
    ensures !g.recursive && !g.deleteSource && g.defaultSheet.None?
  {
    GeneralConfig(RelativeDir("input"), RelativeDir("output"), false, false, None)
  }

  /** `WatchConfig::default`. */
  function DefaultWatch(): (w: WatchConfig)
    ensures w.pollIntervalSecs == 2 && w.debounceMs == 500
  {
    WatchConfig(DefaultPollIntervalSecs, DefaultDebounceMs)
  }

  /** `Config::default`, derived field by field. */
  function DefaultConfig(): (c: Config)
    ensures c.general.inputDir == [CurDir, Normal(OsFrom("input"))]
    ensures c.general.outputDir == [CurDir, Normal(OsFrom("output"))]
    ensures !c.general.recursive && !c.general.deleteSource && c.general.defaultSheet.None?
    ensures c.watch.pollIntervalSecs == 2 && c.watch.debounceMs == 500
  {
    Config(DefaultGeneral(), DefaultWatch())
  }

  /** The command-line arguments `apply_overrides` merges. */
  datatype Overrides = Overrides(
    inputDir: Option<Path>,
    outputDir: Option<Path>,
    deleteSource: bool,
    recursive: bool)

  /** No override at all. */
  const NoOverrides := Overrides(None, None, false, false)

  /** `GeneralConfig::apply_overrides`. */
  function ApplyOverrides(g: GeneralConfig, o: Overrides): (r: GeneralConfig)
    ensures r.inputDir == (if o.inputDir.Some? then o.inputDir.value else g.inputDir)
    ensures r.outputDir == (if o.outputDir.Some? then o.outputDir.value else g.outputDir)
    ensures r.deleteSource <==> g.deleteSource || o.deleteSource
    ensures r.recursive <==> g.recursive || o.recursive
    ensures r.defaultSheet == g.defaultSheet
  {
    var g1 := if o.inputDir.Some? then g.(inputDir := o.inputDir.value) else g;
    var g2 := if o.outputDir.Some? then g1.(outputDir := o.outputDir.value) else g1;
    var g3 := if o.deleteSource then g2.(deleteSource := true) else g2;
    if o.recursive then g3.(recursive := true) else g3
  }

  /** Two override sets applied one after the other act as one: the later
      directory wins, and a flag is on if either set switched it on. */
  function Merge(first: Overrides, second: Overrides): Overrides {
    Overrides(
      if second.inputDir.Some? then second.inputDir else first.inputDir,
      if second.outputDir.Some? then second.outputDir else first.outputDir,
      first.deleteSource || second.deleteSource,
      first.recursive || second.recursive)
  }

  lemma OverridesCompose(g: GeneralConfig, a: Overrides, b: Overrides)
    ensures ApplyOverrides(ApplyOverrides(g, a), b) == ApplyOverrides(g, Merge(a, b))
  {
  }

  /** Applying the same overrides twice changes nothing more. */
  lemma OverridesIdempotent(g: GeneralConfig, o: Overrides)
    ensures ApplyOverrides(ApplyOverrides(g, o), o) == ApplyOverrides(g, o)
  {
    OverridesCompose(g, o, o);
    assert Merge(o, o) == o;
  }

  /** Without arguments the configuration is left as it was. */
  lemma NoOverridesIsIdentity(g: GeneralConfig)
    ensures ApplyOverrides(g, NoOverrides) == g
  {
  }

  /** A flag argument of `false` can never switch a setting off. */
  lemma FlagsOnlySwitchOn(g: GeneralConfig, o: Overrides)
    ensures g.deleteSource ==> ApplyOverrides(g, o).deleteSource
    ensures g.recursive ==> ApplyOverrides(g, o).recursive
    ensures !o.deleteSource ==> ApplyOverrides(g, o).deleteSource == g.deleteSource
    ensures !o.recursive ==> ApplyOverrides(g, o).recursive == g.recursive
  {
  }
}
