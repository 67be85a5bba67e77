/** The XML reader: a depth-counting state machine over the parser's events
    turns a document into flat records (field name to text), then the union
    of their keys becomes the column set and each record is projected onto it. */
module XmlReader {
  import opened Fallible
  import opened Faults
  import opened Frames

  /** The events quick-xml yields, text already unescaped and trimmed. */
  datatype XmlEvent =
    | Start(name: string)
    | Text(text: string)
    | End(name: string)
    | Eof
    /** A parse error, at a byte position, with the parser's debug text. */
    | Malformed(position: nat, detail: string)
    /** Every other event: self-closing elements, CDATA, comments,
        declarations, processing instructions, doctypes. */
    | Other

  /** One record: field name to text (a `HashMap<String, String>`). */
  type Record = map<string, string>

  /** The loop's variables: nesting depth, the latched record tag, the record
      being filled, the open depth-3 field, and the records emitted so far. */
  datatype ParseState = ParseState(
    depth: int,
    recordTag: Option<string>,
    current: Record,
    field: Option<string>,
    records: seq<Record>)

  const Initial := ParseState(0, None, map[], None, [])

  /** One turn of the loop for an event other than `Eof` and a parse error. */
  function Step(s: ParseState, e: XmlEvent): (r: ParseState)
    ensures s.records <= r.records && |r.records| <= |s.records| + 1
    ensures s.recordTag.Some? ==> r.recordTag == s.recordTag
  {
    match e
    case Start(name) =>
      var d := s.depth + 1;
      if d == 2 then
        var tag := if s.recordTag.None? then Some(name) else s.recordTag;
        s.(depth := d, recordTag := tag, current := if tag == Some(name) then map[] else s.current)
      else if d == 3 then
        s.(depth := d, field := Some(name))
      else
        s.(depth := d)
    case Text(t) =>
      if s.field.Some? && t != "" then s.(current := s.current[s.field.value := t]) else s
    case End(name) =>
      s.(records := if s.depth == 2 && Some(name) == s.recordTag && |s.current| > 0
                    then s.records + [s.current] else s.records,
         field := if s.depth == 3 then None else s.field,
         depth := s.depth - 1)
    case _ => s
  }

  /** The state after a run of events, none of them `Eof` or an error. */
  function Steps(s: ParseState, es: seq<XmlEvent>): ParseState
    decreases |es|
  {
    if |es| == 0 then s else Step(Steps(s, es[..|es| - 1]), es[|es| - 1])
  }

  predicate IsStop(e: XmlEvent) {
    e.Eof? || e.Malformed?
  }

  /** The loop: it stops with the records at `Eof` (or when the events run
      out) and with an error at the first parse error. */
  function Run(s: ParseState, es: seq<XmlEvent>): (r: Result<seq<Record>, Fault>)
    ensures r.Ok? ==> s.records <= r.value
    ensures r.Err? ==> r.error.XmlSyntax?
    decreases |es|
  {
    if |es| == 0 then Ok(s.records)
    else match es[0]
      case Eof => Ok(s.records)
      case Malformed(position, detail) => Err(XmlSyntax(position, detail))
      case _ => Run(Step(s, es[0]), es[1..])
  }

  /** `parse_xml`. */
  function ParseXml(es: seq<XmlEvent>): (r: Result<seq<Record>, Fault>)
    ensures r.Err? ==> r.error.XmlSyntax?
    ensures r.Err? ==> exists i :: 0 <= i < |es| && es[i] == Malformed(r.error.position, r.error.detail)
    ensures (forall i :: 0 <= i < |es| ==> !es[i].Malformed?) ==> r.Ok?
  {
    RunFault(Initial, es);
    Run(Initial, es)
  }

  /** The loop fails only at a parse error, and with that error's position
      and text. */
  lemma {:induction false} RunFault(s: ParseState, es: seq<XmlEvent>)
    ensures Run(s, es).Err? ==>
      exists i :: 0 <= i < |es| && es[i] == Malformed(Run(s, es).error.position, Run(s, es).error.detail)
    decreases |es|
  {
    if |es| > 0 && !es[0].Eof? && !es[0].Malformed? {
      RunFault(Step(s, es[0]), es[1..]);
      if Run(s, es).Err? {
        var i :| 0 <= i < |es[1..]| && es[1..][i] == Malformed(Run(s, es).error.position, Run(s, es).error.detail);
        assert es[i + 1] == es[1..][i];
      }
    }
  }

  // ---------------------------------------------------------------------
  // Reference views of an event stream, defined without the state machine.

  /** Nesting depth after the events: each `Start` opens a level and each
      `End` closes one. */
  function Depth(es: seq<XmlEvent>): int
    decreases |es|
  {
    if |es| == 0 then 0
    else
      var d := Depth(es[..|es| - 1]);
      match es[|es| - 1]
      case Start(_) => d + 1
      case End(_) => d - 1
      case _ => d
  }

  /** The name of the first element started at depth 2, if any. */
  function FirstRecordTag(es: seq<XmlEvent>): Option<string>
    decreases |es|
  {
    if |es| == 0 then None
    else
      var pre := es[..|es| - 1];
      if FirstRecordTag(pre).Some? then FirstRecordTag(pre)
      else if es[|es| - 1].Start? && Depth(pre) == 1 then Some(es[|es| - 1].name)
      else None
  }

  /** The name of the element that opened depth 3, while depth 3 is still
      open (it closes when an element ends at depth 3). */
  function OpenField(es: seq<XmlEvent>): Option<string>
    decreases |es|
  {
    if |es| == 0 then None
    else
      var pre := es[..|es| - 1];
      var e := es[|es| - 1];
      if e.Start? && Depth(pre) == 2 then Some(e.name)
      else if e.End? && Depth(pre) == 3 then None
      else OpenField(pre)
  }

  /** Event `i` starts an element of the record tag at depth 2. */
  predicate StartsRecord(es: seq<XmlEvent>, i: nat)
    requires i < |es|
  {
    es[i].Start? && Depth(es[..i]) == 1 && FirstRecordTag(es[..i + 1]) == Some(es[i].name)
  }

  /** Index of the last event that starts a record element, or -1. */
  function LastRecordStart(es: seq<XmlEvent>): (r: int)
    ensures -1 <= r < |es|
    ensures r >= 0 ==> StartsRecord(es, r)
    ensures forall i :: r < i < |es| ==> !StartsRecord(es, i)
    decreases |es|
  {
    if |es| == 0 then -1
    else if StartsRecord(es, |es| - 1) then |es| - 1
    else
      var r := LastRecordStart(es[..|es| - 1]);
      assert forall i :: 0 <= i < |es| - 1 ==> (StartsRecord(es, i) <==> StartsRecord(es[..|es| - 1], i)) by {
        forall i | 0 <= i < |es| - 1
          ensures StartsRecord(es, i) <==> StartsRecord(es[..|es| - 1], i)
        {
          assert es[..i] == es[..|es| - 1][..i];
          assert es[..i + 1] == es[..|es| - 1][..i + 1];
        }
      }
      r
  }

  // ---------------------------------------------------------------------
  // Properties of the state machine.

  lemma {:induction false} StepsAppend(s: ParseState, a: seq<XmlEvent>, b: seq<XmlEvent>)
    ensures Steps(s, a + b) == Steps(Steps(s, a), b)
    decreases |b|
  {
    if |b| == 0 {
      assert a + b == a;
    } else {
      assert (a + b)[..|a + b| - 1] == a + b[..|b| - 1];
      StepsAppend(s, a, b[..|b| - 1]);
    }
  }

  /** Running over events with no stop among them is folding `Step` over them. */
  lemma {:induction false} RunAppend(s: ParseState, a: seq<XmlEvent>, b: seq<XmlEvent>)
    requires forall i :: 0 <= i < |a| ==> !IsStop(a[i])
    ensures Run(s, a + b) == Run(Steps(s, a), b)
    decreases |a|
  {
    if |a| == 0 {
      assert a + b == b;
    } else {
      assert (a + b)[0] == a[0];
      assert (a + b)[1..] == a[1..] + b;
      RunAppend(Step(s, a[0]), a[1..], b);
      StepsAppend(s, [a[0]], a[1..]);
      assert [a[0]] + a[1..] == a;
    }
  }

  /** Index of the first `Eof` or parse error, or the length when there is none. */
  function FirstStop(es: seq<XmlEvent>): (n: nat)
    ensures n <= |es|
    ensures n < |es| ==> IsStop(es[n])
    ensures forall i :: 0 <= i < n ==> !IsStop(es[i])
    decreases |es|
  {
    if |es| == 0 then 0
    else if IsStop(es[0]) then 0
    else 1 + FirstStop(es[1..])
  }

  /** A parse error before the first `Eof` aborts the parse with that error;
      otherwise the result is the records emitted by the events before `Eof`. */
  lemma ParseOutcome(es: seq<XmlEvent>)
    ensures var n := FirstStop(es);
      ParseXml(es) ==
        if n < |es| && es[n].Malformed? then Err(XmlSyntax(es[n].position, es[n].detail))
        else Ok(Steps(Initial, es[..n]).records)
  {
    var n := FirstStop(es);
    var pre, rest := es[..n], es[n..];
    assert es == pre + rest;
    assert forall i :: 0 <= i < |pre| ==> !IsStop(pre[i]);
    RunAppend(Initial, pre, rest);
    RunAtStop(Steps(Initial, pre), rest);
  }

  /** At a stop (or at the end of the events) the loop returns at once. */
  lemma RunAtStop(s: ParseState, es: seq<XmlEvent>)
    requires |es| == 0 || IsStop(es[0])
    ensures Run(s, es) ==
      if |es| > 0 && es[0].Malformed? then Err(XmlSyntax(es[0].position, es[0].detail))
      else Ok(s.records)
  {
  }

  /** The state after any event stream, described by the reference views:
      the depth counts opened minus closed elements, the record tag is the
      first depth-2 name, a field is open exactly while depth is at least 3,
      every emitted record is non-empty, and every value in the record being
      filled is the text of an event after the last record start. */
  lemma TraceInvariant(es: seq<XmlEvent>)
    ensures var s := Steps(Initial, es);
      && s.depth == Depth(es)
      && s.recordTag == FirstRecordTag(es)
      && s.field == OpenField(es)
      && (s.field.Some? <==> s.depth >= 3)
      && (forall r :: r in s.records ==> |r| > 0)
      && (forall k :: k in s.current ==>
            exists j :: LastRecordStart(es) < j < |es| && es[j] == Text(s.current[k]))
  {
    TraceShape(es);
    TraceBuffer(es);
  }

  /** The control part of the invariant: depth, record tag, open field and
      the non-emptiness of emitted records. */
  lemma {:induction false} TraceShape(es: seq<XmlEvent>)
    ensures var s := Steps(Initial, es);
      && s.depth == Depth(es)
      && s.recordTag == FirstRecordTag(es)
      && s.field == OpenField(es)
      && (s.field.Some? <==> s.depth >= 3)
      && (forall r :: r in s.records ==> |r| > 0)
    decreases |es|
  {
    if |es| > 0 {
      var pre := es[..|es| - 1];
      TraceShape(pre);
      assert Steps(Initial, es) == Step(Steps(Initial, pre), es[|es| - 1]);
    }
  }

  /** The data part of the invariant: every buffered value is the text of an
      event after the last record start. */
  lemma {:induction false} TraceBuffer(es: seq<XmlEvent>)
    ensures var s := Steps(Initial, es);
      forall k :: k in s.current ==>
        exists j :: LastRecordStart(es) < j < |es| && es[j] == Text(s.current[k])
    decreases |es|
  {
    if |es| > 0 {
      var pre := es[..|es| - 1];
      var e := es[|es| - 1];
      TraceBuffer(pre);
      TraceShape(pre);
      var s0 := Steps(Initial, pre);
      var s := Steps(Initial, es);
      assert s == Step(s0, e);
      assert es[..|es|] == es;
      if StartsRecord(es, |es| - 1) {
        assert s.current == map[];
      } else {
        assert forall j :: 0 <= j < |pre| ==> es[j] == pre[j];
        assert LastRecordStart(es) == LastRecordStart(pre);
        BufferAfterStep(s0, e);
        BufferCarried(es, pre, s0.current, s.current, s0.field, LastRecordStart(es));
      }
    }
  }

  /** Every buffered value that came from the earlier events, or from the
      last event when it is the text just stored, is still found among the
      events after the record start. */
  lemma BufferCarried(es: seq<XmlEvent>, pre: seq<XmlEvent>, c0: Record, c: Record, field: Option<string>, from: int)
    requires |es| > 0 && pre == es[..|es| - 1] && -1 <= from < |es| - 1
    requires forall k :: k in c0 ==> exists j :: from < j < |pre| && pre[j] == Text(c0[k])
    requires c == c0 || (es[|es| - 1].Text? && field.Some? && c == c0[field.value := es[|es| - 1].text])
    ensures forall k :: k in c ==> exists j :: from < j < |es| && es[j] == Text(c[k])
  {
    forall k | k in c
      ensures exists j :: from < j < |es| && es[j] == Text(c[k])
    {
      if k in c0 && c[k] == c0[k] {
        var j :| from < j < |pre| && pre[j] == Text(c0[k]);
        assert es[j] == Text(c[k]);
      } else {
        assert es[|es| - 1] == Text(c[k]);
      }
    }
  }

  /** An event that does not start a record either keeps the buffer or, as
      a text, stores itself in it. */
  lemma BufferAfterStep(s: ParseState, e: XmlEvent)
    requires !(e.Start? && s.depth == 1 && (if s.recordTag.None? then Some(e.name) else s.recordTag) == Some(e.name))
    ensures Step(s, e).current == s.current
      || (e.Text? && s.field.Some? && Step(s, e).current == s.current[s.field.value := e.text])
  {
  }

  /** The record tag is the name of the first element started at depth 2. */
  lemma RecordTagIsFirstDepth2Name(es: seq<XmlEvent>)
    ensures Steps(Initial, es).recordTag == FirstRecordTag(es)
  {
    TraceInvariant(es);
  }

  /** Once latched, the record tag never changes. */
  lemma {:induction false} RecordTagStable(s: ParseState, es: seq<XmlEvent>)
    requires s.recordTag.Some?
    ensures Steps(s, es).recordTag == s.recordTag
    decreases |es|
  {
    if |es| > 0 {
      RecordTagStable(s, es[..|es| - 1]);
    }
  }

  /** Every `End` undoes its `Start`: the depth is the number of elements
      opened minus the number closed. */
  lemma DepthCountsOpenElements(es: seq<XmlEvent>)
    ensures Steps(Initial, es).depth == Depth(es)
  {
    TraceInvariant(es);
  }

  /** Every emitted record is non-empty. */
  lemma EmittedRecordsNonEmpty(es: seq<XmlEvent>)
    ensures forall r :: r in Steps(Initial, es).records ==> |r| > 0
  {
    TraceInvariant(es);
  }

  /** One event appends a record exactly when it ends an element named by the
      record tag at depth 2 while the record buffer is non-empty; the record
      appended is the buffer, whose values are all texts seen since the last
      record element started. Every other event leaves the records alone. */
  lemma EmitsOnlyAtRecordEnd(es: seq<XmlEvent>, e: XmlEvent)
    ensures var before := Steps(Initial, es);
      var emits := e.End? && Depth(es) == 2 && FirstRecordTag(es) == Some(e.name) && |before.current| > 0;
      && Steps(Initial, es + [e]).records == before.records + (if emits then [before.current] else [])
      && (emits ==> forall k :: k in before.current ==>
            exists j :: LastRecordStart(es) < j < |es| && es[j] == Text(before.current[k]))
  {
    TraceInvariant(es);
    assert (es + [e])[..|es|] == es;
  }

  /** Text has no depth check of its own: a non-empty text is stored under the
      name of the open depth-3 element whenever depth is at least 3 (so text
      nested deeper is filed under that name), overwriting an earlier value,
      and is dropped otherwise. */
  lemma TextStoredUnderOpenField(es: seq<XmlEvent>, t: string)
    ensures OpenField(es).Some? <==> Depth(es) >= 3
    ensures var before := Steps(Initial, es);
      Steps(Initial, es + [Text(t)]).current ==
        if OpenField(es).Some? && t != "" then before.current[OpenField(es).value := t] else before.current
  {
    TraceInvariant(es);
    assert (es + [Text(t)])[..|es|] == es;
  }

  /** The open field is cleared exactly by the end of a depth-3 element. */
  lemma FieldClosedAtDepth3End(es: seq<XmlEvent>, name: string)
    ensures Steps(Initial, es + [End(name)]).field ==
      if Depth(es) == 3 then None else Steps(Initial, es).field
  {
    TraceInvariant(es);
    assert (es + [End(name)])[..|es|] == es;
  }

  // ---------------------------------------------------------------------
  // Schema union and projection.

  predicate NoDuplicates(xs: seq<string>) {
    forall i, j :: 0 <= i < j < |xs| ==> xs[i] != xs[j]
  }

  /** `keys` is one enumeration of the record's keys, as `HashMap::keys`
      yields them: each key exactly once, in an unspecified order. */
  predicate ListsKeys(keys: seq<string>, r: Record) {
    && NoDuplicates(keys)
    && (forall k :: k in keys ==> k in r)
    && (forall k :: k in r ==> k in keys)
  }

  /** `order[i]` is the iteration order of `records[i]`'s keys. */
  predicate ValidOrders(records: seq<Record>, order: seq<seq<string>>) {
    |order| == |records| && forall i :: 0 <= i < |records| ==> ListsKeys(order[i], records[i])
  }

  /** Every key of every record. */
  function KeysOf(records: seq<Record>): set<string>
    decreases |records|
  {
    if |records| == 0 then {} else KeysOf(records[..|records| - 1]) + records[|records| - 1].Keys
  }

  /** The inner loop of `collect_columns`: append each key not yet present. */
  function AddKeys(cols: seq<string>, keys: seq<string>): (r: seq<string>)
    ensures |cols| <= |r| && r[..|cols|] == cols
    ensures NoDuplicates(cols) ==> NoDuplicates(r)
    ensures forall k :: k in r <==> k in cols || k in keys
    decreases |keys|
  {
    if |keys| == 0 then cols
    else AddKeys(if keys[0] in cols then cols else cols + [keys[0]], keys[1..])
  }

  /** `collect_columns`: the union of the records' keys, without duplicates,
      with the keys of earlier records first. */
  function CollectColumns(records: seq<Record>, order: seq<seq<string>>): (cols: seq<string>)
    requires |order| == |records|
    ensures NoDuplicates(cols)
    ensures ValidOrders(records, order) ==> forall k :: k in cols <==> k in KeysOf(records)
    decreases |records|
  {
    if |records| == 0 then []
    else
      var n := |records|;
      assert ValidOrders(records, order) ==> ValidOrders(records[..n - 1], order[..n - 1]);
      AddKeys(CollectColumns(records[..n - 1], order[..n - 1]), order[n - 1])
  }

  predicate IsPrefix(a: seq<string>, b: seq<string>) {
    |a| <= |b| && b[..|a|] == a
  }

  lemma PrefixTrans(a: seq<string>, b: seq<string>, c: seq<string>)
    requires IsPrefix(a, b) && IsPrefix(b, c)
    ensures IsPrefix(a, c)
  {
    assert c[..|a|] == c[..|b|][..|a|];
  }

  /** One more record extends the columns collected so far. */
  lemma CollectColumnsGrows(records: seq<Record>, order: seq<seq<string>>)
    requires |order| == |records| && |records| > 0
    ensures IsPrefix(CollectColumns(records[..|records| - 1], order[..|records| - 1]), CollectColumns(records, order))
  {
  }

  /** The columns collected from the first `m` records are a prefix of all
      the columns. */
  lemma {:induction false} CollectColumnsPrefix(records: seq<Record>, order: seq<seq<string>>, m: nat)
    requires |order| == |records| && m <= |records|
    ensures IsPrefix(CollectColumns(records[..m], order[..m]), CollectColumns(records, order))
    decreases |records|
  {
    var n := |records|;
    if m == n {
      assert records[..m] == records && order[..m] == order;
    } else {
      CollectColumnsPrefix(records[..n - 1], order[..n - 1], m);
      assert records[..n - 1][..m] == records[..m];
      assert order[..n - 1][..m] == order[..m];
      CollectColumnsGrows(records, order);
      PrefixTrans(CollectColumns(records[..m], order[..m]),
                  CollectColumns(records[..n - 1], order[..n - 1]),
                  CollectColumns(records, order));
    }
  }

  /** Column order follows the record in which each key first appears: a key
      of the first `m` records precedes every key that none of them has. Keys
      first seen in the same record come in that record's iteration order,
      about which nothing is claimed. */
  lemma ColumnsInFirstSeenOrder(records: seq<Record>, order: seq<seq<string>>, m: nat, i: nat, j: nat)
    requires ValidOrders(records, order) && m <= |records|
    requires var cols := CollectColumns(records, order);
      i < |cols| && j < |cols| && cols[i] in KeysOf(records[..m]) && cols[j] !in KeysOf(records[..m])
    ensures i < j
  {
    var cols := CollectColumns(records, order);
    assert ValidOrders(records[..m], order[..m]);
    var pre := CollectColumns(records[..m], order[..m]);
    CollectColumnsPrefix(records, order, m);
    assert cols[i] in pre;
    var p :| 0 <= p < |pre| && pre[p] == cols[i];
    assert cols[p] == cols[i];
  }

  /** `record.get(col).cloned()`. */
  function Lookup(r: Record, k: string): Option<string> {
    if k in r then Some(r[k]) else None
  }

  /** The column of one name: each record's value for it, or a gap. */
  function ColumnFor(records: seq<Record>, name: string): Column {
    Column(name, seq(|records|, i requires 0 <= i < |records| => Lookup(records[i], name)))
  }

  /** The projection of `records_to_dataframe`: one column per name. */
  function Project(records: seq<Record>, names: seq<string>): (cols: seq<Column>)
    ensures |cols| == |names|
    ensures forall j :: 0 <= j < |names| ==>
      && cols[j].name == names[j]
      && |cols[j].values| == |records|
      && forall i :: 0 <= i < |records| ==> cols[j].values[i] == Lookup(records[i], names[j])
  {
    seq(|names|, j requires 0 <= j < |names| => ColumnFor(records, names[j]))
  }

  /** Row `i` of a table read back as a record: the names of the columns
      that hold a value in that row. */
  function RowOf(cols: seq<Column>, i: nat): Record
    requires forall j :: 0 <= j < |cols| ==> i < |cols[j].values|
    decreases |cols|
  {
    if |cols| == 0 then map[]
    else
      var c := cols[|cols| - 1];
      var m := RowOf(cols[..|cols| - 1], i);
      if c.values[i].Some? then m[c.name := c.values[i].value] else m
  }

  /** The part of a record whose keys are among `names`. */
  function Restrict(r: Record, names: seq<string>): Record {
    map k | k in r && k in names :: r[k]
  }

  lemma RestrictSnoc(r: Record, names: seq<string>, name: string)
    ensures Restrict(r, names + [name])
      == if name in r then Restrict(r, names)[name := r[name]] else Restrict(r, names)
  {
    assert forall k :: k in names + [name] <==> k in names || k == name;
  }

  /** Reading row `i` of the projection back gives record `i` restricted to
      the projected names. */
  lemma {:induction false} RowOfProject(records: seq<Record>, names: seq<string>, i: nat)
    requires i < |records|
    ensures RowOf(Project(records, names), i) == Restrict(records[i], names)
    decreases |names|
  {
    var cols := Project(records, names);
    if |names| > 0 {
      var n := |names|;
      assert cols[..n - 1] == Project(records, names[..n - 1]);
      RowOfProject(records, names[..n - 1], i);
      assert names == names[..n - 1] + [names[n - 1]];
      RestrictSnoc(records[i], names[..n - 1], names[n - 1]);
      assert cols[n - 1].values[i] == Lookup(records[i], names[n - 1]);
    } else {
      assert Restrict(records[i], names) == map[];
    }
  }

  /** `records_to_dataframe`. */
  function RecordsToFrame(records: seq<Record>, order: seq<seq<string>>): (r: Result<DataFrame, Fault>)
    requires |order| == |records|
    ensures r.Err? ==> r.error == FrameRejected(FromXml)
    ensures r.Ok? ==>
      var names := CollectColumns(records, order);
      && |r.value.columns| == |names|
      && forall j :: 0 <= j < |names| ==>
           r.value.columns[j].name == names[j] && |r.value.columns[j].values| == |records|
  {
    NewFrame(Project(records, CollectColumns(records, order)), FromXml)
  }

  /** The projection never trips `DataFrame::new`: the names are distinct and
      every column has one value per record. The table keeps every record
      whole: row `i` read back is record `i`. */
  lemma RecordsToFrameSpec(records: seq<Record>, order: seq<seq<string>>)
    requires ValidOrders(records, order) && |records| > 0
    ensures var r := RecordsToFrame(records, order);
      && r.Ok?
      && Width(r.value) == |CollectColumns(records, order)|
      && (|CollectColumns(records, order)| > 0 ==> Height(r.value) == |records|)
      && forall i :: 0 <= i < |records| ==> RowOf(r.value.columns, i) == records[i]
  {
    var names := CollectColumns(records, order);
    var cols := Project(records, names);
    assert DistinctNames(cols);
    assert UniformHeight(cols);
    forall i | 0 <= i < |records|
      ensures RowOf(cols, i) == records[i]
    {
      RowIsRecord(records, order, i);
    }
  }

  /** Every key of a record is a column, so its projected row is the whole record. */
  lemma RowIsRecord(records: seq<Record>, order: seq<seq<string>>, i: nat)
    requires ValidOrders(records, order) && i < |records|
    ensures RowOf(Project(records, CollectColumns(records, order)), i) == records[i]
  {
    var names := CollectColumns(records, order);
    RowOfProject(records, names, i);
    KeysOfHolds(records, i);
    var m := Restrict(records[i], names);
    assert m.Keys == records[i].Keys;
    assert m == records[i];
  }

  lemma {:induction false} KeysOfHolds(records: seq<Record>, i: nat)
    requires i < |records|
    ensures records[i].Keys <= KeysOf(records)
    decreases |records|
  {
    var n := |records|;
    if i < n - 1 {
      KeysOfHolds(records[..n - 1], i);
    }
  }

  // ---------------------------------------------------------------------
  // `read`.

  /** What opening the file gives: the parser's events, and the key iteration
      order of each record the parse will produce. */
  datatype XmlFile = XmlFile(events: seq<XmlEvent>, keyOrders: seq<seq<string>>)

  /** The key orders match the records the events parse to. */
  predicate Fits(file: Option<XmlFile>) {
    file.Some? && ParseXml(file.value.events).Ok? ==>
      ValidOrders(ParseXml(file.value.events).value, file.value.keyOrders)
  }

  /** `xml_reader::read`; `None` is a file that could not be opened. */
  function Read(file: Option<XmlFile>): (r: Result<DataFrame, Fault>)
    requires Fits(file)
    ensures file.None? ==> r == Err(XmlOpenFailed)
    ensures file.Some? && ParseXml(file.value.events).Err? ==> r == Err(ParseXml(file.value.events).error)
    ensures file.Some? && ParseXml(file.value.events) == Ok([]) ==> r == Err(NoRecords)
    ensures r.Ok? ==> file.Some? && ParseXml(file.value.events).Ok? && |ParseXml(file.value.events).value| > 0
  {
    match file
    case None => Err(XmlOpenFailed)
    case Some(f) =>
      match ParseXml(f.events)
      case Err(e) => Err(e)
      case Ok(records) =>
        if |records| == 0 then Err(NoRecords) else RecordsToFrame(records, f.keyOrders)
  }

  /** A file that parses to at least one record always yields a table, which
      holds every record whole in its rows. */
  lemma ReadKeepsRecords(file: Option<XmlFile>)
    requires Fits(file) && file.Some?
    requires ParseXml(file.value.events).Ok? && |ParseXml(file.value.events).value| > 0
    ensures var records := ParseXml(file.value.events).value;
      var r := Read(file);
      && r.Ok?
      && r.value.columns == Project(records, CollectColumns(records, file.value.keyOrders))
      && forall i :: 0 <= i < |records| ==> RowOf(r.value.columns, i) == records[i]
  {
    RecordsToFrameSpec(ParseXml(file.value.events).value, file.value.keyOrders);
  }
}
