/** `src/watcher.rs`: a batch pass over the existing files, then a loop
    over file-system notifications until the channel fails. The channel is
    a finite sequence of messages; each notified path carries the answer
    `is_file` gave for it when the event was handled. */
module Watcher {
  import opened Fallible
  import opened Paths
  import opened Faults
  import opened Formats
  import opened Configuration
  import opened Processor
  import opened Seqs

  /** A path of a notification event, with whether it was a file then. */
  datatype Observed = Observed(path: Path, isFile: bool)

  /** What `rx.recv()` returns: an event (`Ok(Ok(event))`), a notification
      error (`Ok(Err(e))`), or a receive error once the channel is closed. */
  datatype Message = Notified(paths: seq<Observed>) | NotifyFailed(detail: string) | ChannelClosed

  /** Whether `RecommendedWatcher::new` and `watcher.watch` succeeded. */
  datatype Subscription = Subscription(created: bool, started: bool)

  /** notify's `RecursiveMode`. */
  datatype RecursiveMode = Recursive | NonRecursive

  function ModeFor(config: Config): (m: RecursiveMode)
    ensures m == Recursive <==> config.general.recursive
  {
    if config.general.recursive then Recursive else NonRecursive
  }

  /** The paths of one event that trigger a conversion, in event order. */
  function Triggered(ps: seq<Observed>): (r: seq<Path>)
    ensures |r| <= |ps|
    ensures forall i :: 0 <= i < |r| ==> IsSupported(r[i])
    decreases |ps|
  {
    if |ps| == 0 then []
    else
      Triggered(ps[..|ps| - 1])
      + (if ps[|ps| - 1].isFile && IsSupported(ps[|ps| - 1].path) then [ps[|ps| - 1].path] else [])
  }

  /** Index of the first `ChannelClosed`, or the length when there is none. */
  function FirstClose(ms: seq<Message>): (k: nat)
    ensures k <= |ms|
    ensures forall i :: 0 <= i < k ==> !ms[i].ChannelClosed?
    ensures k < |ms| ==> ms[k].ChannelClosed?
    decreases |ms|
  {
    if |ms| == 0 || ms[0].ChannelClosed? then 0 else 1 + FirstClose(ms[1..])
  }

  /** Reference: the triggered paths of all events in a message list, in
      order; errors and closures contribute nothing. */
  function NotifiedPaths(ms: seq<Message>): seq<Path>
    decreases |ms|
  {
    if |ms| == 0 then []
    else
      NotifiedPaths(ms[..|ms| - 1])
      + (if ms[|ms| - 1].Notified? then Triggered(ms[|ms| - 1].paths) else [])
  }

  /** The conversion jobs the loop issues: the triggered paths of every
      event received before the channel closed. */
  function Jobs(ms: seq<Message>): seq<Path> {
    NotifiedPaths(ms[..FirstClose(ms)])
  }

  /** The loop's conversions so far and whether it has ended. */
  datatype Listening = Listening(runs: seq<FileRun>, closed: bool)

  /** The handling of one event: each triggered path is converted like a
      batch file. */
  function Handle(fs: FileSystem, config: Config, ps: seq<Observed>): (r: seq<FileRun>)
    requires Coherent(fs)
    ensures r == RunsFor(fs, config, Triggered(ps))
    decreases |ps|
  {
    if |ps| == 0 then []
    else
      var last := ps[|ps| - 1];
      var pre := Triggered(ps[..|ps| - 1]);
      if last.isFile && IsSupported(last.path) then
        RunsForSnoc(fs, config, pre, last.path);
        Handle(fs, config, ps[..|ps| - 1]) + [RunFor(fs, config, last.path)]
      else
        assert pre + [] == pre;
        Handle(fs, config, ps[..|ps| - 1])
  }

  /** The `loop` of `watch`, one message at a time. */
  function Listen(fs: FileSystem, config: Config, ms: seq<Message>): (r: Listening)
    requires Coherent(fs)
    ensures r.closed <==> exists i :: 0 <= i < |ms| && ms[i].ChannelClosed?
    ensures r.runs == RunsFor(fs, config, Jobs(ms))
    decreases |ms|
  {
    if |ms| == 0 then Listening([], false)
    else match ms[0]
      case ChannelClosed => Listening([], true)
      case NotifyFailed(_) =>
        var rest := Listen(fs, config, ms[1..]);
        JobsAfterError(ms);
        assert forall i :: 1 <= i < |ms| ==> ms[1..][i - 1] == ms[i];
        rest
      case Notified(ps) =>
        var rest := Listen(fs, config, ms[1..]);
        JobsAfterEvent(ms);
        assert forall i :: 1 <= i < |ms| ==> ms[1..][i - 1] == ms[i];
        RunsForAppend(fs, config, Triggered(ps), Jobs(ms[1..]));
        Listening(Handle(fs, config, ps) + rest.runs, rest.closed)
  }

  lemma {:induction false} NotifiedPathsCons(m: Message, ms: seq<Message>)
    ensures NotifiedPaths([m] + ms)
      == (if m.Notified? then Triggered(m.paths) else []) + NotifiedPaths(ms)
    decreases |ms|
  {
    if |ms| > 0 {
      assert ([m] + ms)[..|[m] + ms| - 1] == [m] + ms[..|ms| - 1];
      NotifiedPathsCons(m, ms[..|ms| - 1]);
      var last := ms[|ms| - 1];
      Associative(if m.Notified? then Triggered(m.paths) else [], NotifiedPaths(ms[..|ms| - 1]),
                  if last.Notified? then Triggered(last.paths) else []);
    } else {
      assert [m] + ms == [m];
      assert [m][..0] == [];
    }
  }

  lemma JobsAfterError(ms: seq<Message>)
    requires |ms| > 0 && ms[0].NotifyFailed?
    ensures Jobs(ms) == Jobs(ms[1..])
  {
    var k := FirstClose(ms[1..]);
    assert ms[..FirstClose(ms)] == [ms[0]] + ms[1..][..k];
    NotifiedPathsCons(ms[0], ms[1..][..k]);
  }

  lemma JobsAfterEvent(ms: seq<Message>)
    requires |ms| > 0 && ms[0].Notified?
    ensures Jobs(ms) == Triggered(ms[0].paths) + Jobs(ms[1..])
  {
    var k := FirstClose(ms[1..]);
    assert ms[..FirstClose(ms)] == [ms[0]] + ms[1..][..k];
    NotifiedPathsCons(ms[0], ms[1..][..k]);
  }

  /** Everything `watch` did: the initial batch, the watch mode, the
      conversions of the loop, and what `watch` returned — `None` while it
      is still waiting for messages. */
  datatype WatchReport = WatchReport(
    initial: Result<BatchRun, Fault>,
    mode: RecursiveMode,
    runs: seq<FileRun>,
    returned: Option<Result<(), Fault>>)

  /** `watch`. */
  function Watch(fs: FileSystem, config: Config, tree: seq<WalkEntry>, sub: Subscription, ms: seq<Message>): (r: WatchReport)
    requires Coherent(fs)
    ensures r.initial == ProcessBatch(fs, config, tree)
    ensures forall e :: r.initial == Err(e) ==> r.returned == Some(Err(e)) && r.runs == []
    ensures r.mode == Recursive <==> config.general.recursive
    ensures !sub.created ==> r.returned == Some(Err(WatcherCreateFailed)) && r.runs == []
    ensures sub.created && !sub.started ==> r.returned == Some(Err(WatchStartFailed)) && r.runs == []
    ensures sub.created && sub.started ==>
      && r.runs == RunsFor(fs, config, Jobs(ms))
      && (r.returned == Some(Ok(())) <==> exists i :: 0 <= i < |ms| && ms[i].ChannelClosed?)
      && (r.returned.None? <==> forall i :: 0 <= i < |ms| ==> !ms[i].ChannelClosed?)
  {
    var initial := ProcessBatch(fs, config, tree);
    var mode := ModeFor(config);
    match initial
    case Err(e) => WatchReport(initial, mode, [], Some(Err(e)))
    case Ok(_) =>
      if !sub.created then WatchReport(initial, mode, [], Some(Err(WatcherCreateFailed)))
      else if !sub.started then WatchReport(initial, mode, [], Some(Err(WatchStartFailed)))
      else
        var l := Listen(fs, config, ms);
        WatchReport(initial, mode, l.runs, if l.closed then Some(Ok(())) else None)
  }

  /** Messages after the channel closed are never looked at. */
  lemma AfterCloseIrrelevant(fs: FileSystem, config: Config, ms: seq<Message>, more: seq<Message>)
    requires Coherent(fs)
    requires exists i :: 0 <= i < |ms| && ms[i].ChannelClosed?
    ensures Listen(fs, config, ms + more) == Listen(fs, config, ms)
  {
    var k := FirstClose(ms);
    assert FirstClose(ms + more) == k by {
      FirstCloseAppend(ms, more);
    }
    assert (ms + more)[..k] == ms[..k];
    var l1 := Listen(fs, config, ms + more);
    var l2 := Listen(fs, config, ms);
    assert l1.closed && l2.closed by {
      var i :| 0 <= i < |ms| && ms[i].ChannelClosed?;
      assert (ms + more)[i].ChannelClosed?;
    }
    assert l1.runs == l2.runs;
  }

  lemma {:induction false} FirstCloseAppend(ms: seq<Message>, more: seq<Message>)
    requires FirstClose(ms) < |ms|
    ensures FirstClose(ms + more) == FirstClose(ms)
    decreases |ms|
  {
    if !ms[0].ChannelClosed? {
      assert (ms + more)[1..] == ms[1..] + more;
      FirstCloseAppend(ms[1..], more);
    }
  }

  /** A notification error is logged and skipped: the loop goes on as if the
      message had not arrived. */
  lemma NotifyErrorSkipped(fs: FileSystem, config: Config, d: string, ms: seq<Message>)
    requires Coherent(fs)
    ensures Listen(fs, config, [NotifyFailed(d)] + ms) == Listen(fs, config, ms)
  {
    assert ([NotifyFailed(d)] + ms)[1..] == ms;
  }

  /** A failing conversion does not stop the loop: the loop converts exactly
      the jobs the messages name, one after the other, whatever the outcome
      of each conversion. */
  lemma JobsIgnoreOutcomes(fs: FileSystem, config: Config, ms: seq<Message>)
    requires Coherent(fs)
    ensures |Listen(fs, config, ms).runs| == |Jobs(ms)|
    ensures forall i :: 0 <= i < |Jobs(ms)| ==> Listen(fs, config, ms).runs[i].input == Jobs(ms)[i]
  {
    RunsForInputs(fs, config, Jobs(ms));
  }
}
