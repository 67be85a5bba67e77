/** A reference reading of the XML reader on well-nested documents. A
    document is a tree; the records it flattens to are defined on the tree
    directly, and the state machine is proved to compute exactly them from
    the document's event stream. */
module XmlTree {
  import opened Fallible
  import opened XmlReader
  import opened Faults
  import opened Seqs

  datatype Node =
    | Elem(name: string, children: seq<Node>)
    | Chars(text: string)
    /** `<name/>`: quick-xml reports it as one `Empty` event. */
    | SelfClosed(name: string)
    /** CDATA, comments, processing instructions and the like. */
    | Skipped

  /** The events the parser yields for a node and for a run of nodes. */
  function SerNode(n: Node): seq<XmlEvent>
    decreases n
  {
    match n
    case Elem(name, ch) => [Start(name)] + SerNodes(ch) + [End(name)]
    case Chars(t) => [Text(t)]
    case _ => [Other]
  }

  function SerNodes(ns: seq<Node>): seq<XmlEvent>
    decreases ns
  {
    if |ns| == 0 then [] else SerNode(ns[0]) + SerNodes(ns[1..])
  }

  /** The whole stream of a document: its top-level nodes, then `Eof`. */
  function Serialize(doc: seq<Node>): seq<XmlEvent> {
    SerNodes(doc) + [Eof]
  }

  // ---------------------------------------------------------------------
  // The reference flattening.

  /** Every text of a node, at any depth, in document order. */
  function NodeTexts(n: Node): seq<string>
    decreases n
  {
    match n
    case Elem(_, ch) => DeepTexts(ch)
    case Chars(t) => [t]
    case _ => []
  }

  function DeepTexts(ns: seq<Node>): seq<string>
    decreases ns
  {
    if |ns| == 0 then [] else NodeTexts(ns[0]) + DeepTexts(ns[1..])
  }

  function LastNonEmpty(ts: seq<string>): Option<string>
    decreases |ts|
  {
    if |ts| == 0 then None
    else if ts[|ts| - 1] != "" then Some(ts[|ts| - 1])
    else LastNonEmpty(ts[..|ts| - 1])
  }

  /** Files the last non-empty text of `ts`, if any, under `f`. */
  function FileText(m: Record, f: string, ts: seq<string>): Record {
    match LastNonEmpty(ts)
    case None => m
    case Some(t) => m[f := t]
  }

  /** A child element of a record element becomes one field: its name maps
      to the last non-empty text found anywhere inside it. Other children
      contribute nothing. */
  function FieldOf(m: Record, n: Node): Record {
    if n.Elem? then FileText(m, n.name, DeepTexts(n.children)) else m
  }

  function Fields(m: Record, ns: seq<Node>): Record
    decreases |ns|
  {
    if |ns| == 0 then m else Fields(FieldOf(m, ns[0]), ns[1..])
  }

  /** The record a record element's children make. */
  function RecordOf(children: seq<Node>): Record {
    Fields(map[], children)
  }

  function FirstElemName(ns: seq<Node>): Option<string>
    decreases |ns|
  {
    if |ns| == 0 then None
    else if ns[0].Elem? then Some(ns[0].name)
    else FirstElemName(ns[1..])
  }

  /** The record tag: the name of the first element nested in a top-level
      element. */
  function DocTag(doc: seq<Node>): Option<string>
    decreases |doc|
  {
    if |doc| == 0 then None
    else if doc[0].Elem? && FirstElemName(doc[0].children).Some? then FirstElemName(doc[0].children)
    else DocTag(doc[1..])
  }

  /** The record of a second-level element, when its name is the tag and
      the record is non-empty. */
  function SelectNode(tag: Option<string>, n: Node): seq<Record> {
    if n.Elem? && tag == Some(n.name) && |RecordOf(n.children)| > 0 then [RecordOf(n.children)] else []
  }

  function Select(tag: Option<string>, ns: seq<Node>): seq<Record>
    decreases |ns|
  {
    if |ns| == 0 then [] else SelectNode(tag, ns[0]) + Select(tag, ns[1..])
  }

  function Gather(tag: Option<string>, doc: seq<Node>): seq<Record>
    decreases |doc|
  {
    if |doc| == 0 then []
    else (if doc[0].Elem? then Select(tag, doc[0].children) else []) + Gather(tag, doc[1..])
  }

  /** The records of a document: one per second-level element named by the
      record tag whose fields hold some text, in document order. */
  function Flatten(doc: seq<Node>): seq<Record> {
    Gather(DocTag(doc), doc)
  }

  // ---------------------------------------------------------------------
  // The state machine computes the reference.

  lemma {:induction false} LastNonEmptyAppend(a: seq<string>, b: seq<string>)
    ensures LastNonEmpty(a + b) == if LastNonEmpty(b).Some? then LastNonEmpty(b) else LastNonEmpty(a)
    decreases |b|
  {
    if |b| == 0 {
      assert a + b == a;
    } else {
      assert (a + b)[..|a + b| - 1] == a + b[..|b| - 1];
      LastNonEmptyAppend(a, b[..|b| - 1]);
    }
  }

  lemma FileTextAppend(m: Record, f: string, a: seq<string>, b: seq<string>)
    ensures FileText(FileText(m, f, a), f, b) == FileText(m, f, a + b)
  {
    LastNonEmptyAppend(a, b);
  }

  lemma {:induction false} NoStops(ns: seq<Node>)
    ensures forall i :: 0 <= i < |SerNodes(ns)| ==> !IsStop(SerNodes(ns)[i])
    decreases ns
  {
    if |ns| > 0 {
      NoStops(ns[1..]);
      var e := SerNode(ns[0]);
      match ns[0]
      case Elem(name, ch) =>
        NoStops(ch);
        assert e == [Start(name)] + SerNodes(ch) + [End(name)];
        assert forall i :: 0 <= i < |e| ==> !IsStop(e[i]) by {
          forall i | 0 <= i < |e|
            ensures !IsStop(e[i])
          {
            if 0 < i < |e| - 1 {
              assert e[i] == SerNodes(ch)[i - 1];
            }
          }
        }
      case _ =>
      assert SerNodes(ns) == e + SerNodes(ns[1..]);
      forall i | 0 <= i < |SerNodes(ns)|
        ensures !IsStop(SerNodes(ns)[i])
      {
        if i >= |e| {
          assert SerNodes(ns)[i] == SerNodes(ns[1..])[i - |e|];
        }
      }
    }
  }

  /** Inside a field (depth 3 or deeper) every text lands under the field. */
  lemma {:induction false} DeepNode(s: ParseState, n: Node)
    requires s.depth >= 3 && s.field.Some?
    ensures Steps(s, SerNode(n)) == s.(current := FileText(s.current, s.field.value, NodeTexts(n)))
    decreases n
  {
    match n
    case Elem(name, ch) =>
      var s1 := Step(s, Start(name));
      assert s1 == s.(depth := s.depth + 1);
      StepsAppend(s, [Start(name)], SerNodes(ch));
      StepsAppend(s, [Start(name)] + SerNodes(ch), [End(name)]);
      assert Steps(s, [Start(name)]) == s1;
      DeepNodes(s1, ch);
    case Chars(t) =>
      assert Steps(s, [Text(t)]) == Step(s, Text(t));
      assert [t][..0] == [];
      assert LastNonEmpty([t]) == if t != "" then Some(t) else None;
    case SelfClosed(_) =>
      assert Steps(s, [Other]) == s;
    case Skipped =>
      assert Steps(s, [Other]) == s;
  }

  lemma {:induction false} DeepNodes(s: ParseState, ns: seq<Node>)
    requires s.depth >= 3 && s.field.Some?
    ensures Steps(s, SerNodes(ns)) == s.(current := FileText(s.current, s.field.value, DeepTexts(ns)))
    decreases ns
  {
    if |ns| > 0 {
      StepsAppend(s, SerNode(ns[0]), SerNodes(ns[1..]));
      DeepNode(s, ns[0]);
      var s1 := Steps(s, SerNode(ns[0]));
      DeepNodes(s1, ns[1..]);
      FileTextAppend(s.current, s.field.value, NodeTexts(ns[0]), DeepTexts(ns[1..]));
    }
  }

  /** Inside a record element (depth 2) each child element fills one field. */
  lemma FieldNode(s: ParseState, n: Node)
    requires s.depth == 2 && s.field.None?
    ensures Steps(s, SerNode(n)) == s.(current := FieldOf(s.current, n))
  {
    match n
    case Elem(name, ch) =>
      var s1 := Step(s, Start(name));
      assert s1 == s.(depth := 3, field := Some(name));
      StepsAppend(s, [Start(name)], SerNodes(ch));
      StepsAppend(s, [Start(name)] + SerNodes(ch), [End(name)]);
      assert Steps(s, [Start(name)]) == s1;
      DeepNodes(s1, ch);
    case Chars(t) =>
      assert Steps(s, [Text(t)]) == Step(s, Text(t));
    case SelfClosed(_) =>
      assert Steps(s, [Other]) == s;
    case Skipped =>
      assert Steps(s, [Other]) == s;
  }

  lemma {:induction false} FieldNodes(s: ParseState, ns: seq<Node>)
    requires s.depth == 2 && s.field.None?
    ensures Steps(s, SerNodes(ns)) == s.(current := Fields(s.current, ns))
    decreases |ns|
  {
    if |ns| > 0 {
      StepsAppend(s, SerNode(ns[0]), SerNodes(ns[1..]));
      FieldNode(s, ns[0]);
      FieldNodes(Steps(s, SerNode(ns[0])), ns[1..]);
    }
  }

  /** The tag a run of second-level nodes leaves latched. */
  function Latch(tag: Option<string>, ns: seq<Node>): Option<string> {
    if tag.Some? then tag else FirstElemName(ns)
  }

  /** At depth 1 a child element opens a record when its name is the tag;
      the record is emitted at its end when non-empty. */
  lemma RecordNode(s: ParseState, n: Node)
    requires s.depth == 1 && s.field.None?
    ensures var r := Steps(s, SerNode(n));
      && r.depth == 1 && r.field.None?
      && r.recordTag == Latch(s.recordTag, [n])
      && r.records == s.records + SelectNode(r.recordTag, n)
  {
    assert [n][1..] == [];
    match n
    case Elem(name, ch) =>
      RecordElem(s, name, ch);
    case Chars(t) =>
      assert FirstElemName([n]) == FirstElemName([]);
      assert Steps(s, [Text(t)]) == Step(s, Text(t));
    case SelfClosed(_) =>
      assert FirstElemName([n]) == FirstElemName([]);
      assert Steps(s, [Other]) == s;
    case Skipped =>
      assert FirstElemName([n]) == FirstElemName([]);
      assert Steps(s, [Other]) == s;
  }

  /** The element case of `RecordNode`: its start latches the tag and, for a
      record element, clears the buffer; its children fill the fields; its
      end emits the buffer. */
  lemma RecordElem(s: ParseState, name: string, ch: seq<Node>)
    requires s.depth == 1 && s.field.None?
    ensures var r := Steps(s, SerNode(Elem(name, ch)));
      && r.depth == 1 && r.field.None?
      && r.recordTag == Latch(s.recordTag, [Elem(name, ch)])
      && r.records == s.records + SelectNode(r.recordTag, Elem(name, ch))
  {
    var n := Elem(name, ch);
    var tag := Latch(s.recordTag, [n]);
    assert tag == if s.recordTag.Some? then s.recordTag else Some(name);
    var s1 := Step(s, Start(name));
    assert s1 == s.(depth := 2, recordTag := tag, current := if tag == Some(name) then map[] else s.current);
    StepsAppend(s, [Start(name)], SerNodes(ch));
    StepsAppend(s, [Start(name)] + SerNodes(ch), [End(name)]);
    assert Steps(s, [Start(name)]) == s1;
    FieldNodes(s1, ch);
    var s2 := s1.(current := Fields(s1.current, ch));
    assert [End(name)][..0] == [];
    assert Steps(s, SerNode(n)) == Step(s2, End(name));
  }

  lemma {:induction false} NoElemSelectsNothing(tag: Option<string>, ns: seq<Node>)
    requires FirstElemName(ns).None?
    ensures Select(tag, ns) == []
    decreases |ns|
  {
    if |ns| > 0 {
      NoElemSelectsNothing(tag, ns[1..]);
    }
  }

  lemma {:induction false} RecordNodes(s: ParseState, ns: seq<Node>)
    requires s.depth == 1 && s.field.None?
    ensures var r := Steps(s, SerNodes(ns));
      && r.depth == 1 && r.field.None?
      && r.recordTag == Latch(s.recordTag, ns)
      && r.records == s.records + Select(r.recordTag, ns)
    decreases |ns|
  {
    if |ns| > 0 {
      var s1 := Steps(s, SerNode(ns[0]));
      var r := Steps(s, SerNodes(ns));
      assert SerNodes(ns) == SerNode(ns[0]) + SerNodes(ns[1..]);
      StepsAppend(s, SerNode(ns[0]), SerNodes(ns[1..]));
      assert r == Steps(s1, SerNodes(ns[1..]));
      RecordNode(s, ns[0]);
      RecordNodes(s1, ns[1..]);
      RecordsCombine(s, s1, r, ns);
    } else {
      NoElemSelectsNothing(Latch(s.recordTag, ns), ns);
    }
  }

  /** Latching over a run of nodes is latching over its first node, then over
      the rest; nothing is latched by a first node that is not an element. */
  lemma LatchStep(tag: Option<string>, ns: seq<Node>)
    requires |ns| > 0
    ensures Latch(Latch(tag, [ns[0]]), ns[1..]) == Latch(tag, ns)
    ensures Latch(tag, [ns[0]]).None? ==> !ns[0].Elem?
  {
    assert [ns[0]][1..] == [];
    assert FirstElemName([ns[0]]) == if ns[0].Elem? then Some(ns[0].name) else FirstElemName([]);
    assert !ns[0].Elem? ==> FirstElemName(ns) == FirstElemName(ns[1..]);
  }

  /** The records of a first node and of the rest add up to those of the run. */
  lemma RecordsCombine(s: ParseState, s1: ParseState, r: ParseState, ns: seq<Node>)
    requires |ns| > 0
    requires s1.recordTag == Latch(s.recordTag, [ns[0]])
    requires s1.records == s.records + SelectNode(s1.recordTag, ns[0])
    requires r.recordTag == Latch(s1.recordTag, ns[1..])
    requires r.records == s1.records + Select(r.recordTag, ns[1..])
    ensures r.recordTag == Latch(s.recordTag, ns)
    ensures r.records == s.records + Select(r.recordTag, ns)
  {
    LatchStep(s.recordTag, ns);
    var head := SelectNode(r.recordTag, ns[0]);
    var tail := Select(r.recordTag, ns[1..]);
    assert SelectNode(s1.recordTag, ns[0]) == head by {
      if s1.recordTag != r.recordTag {
        assert !ns[0].Elem?;
      }
    }
    assert Select(r.recordTag, ns) == head + tail;
    Associative(s.records, head, tail);
  }

  /** At depth 0 each top-level element contributes the records of its children. */
  lemma TopNode(s: ParseState, n: Node)
    requires s.depth == 0 && s.field.None?
    ensures var r := Steps(s, SerNode(n));
      && r.depth == 0 && r.field.None?
      && r.recordTag == (if n.Elem? then Latch(s.recordTag, n.children) else s.recordTag)
      && r.records == s.records + (if n.Elem? then Select(r.recordTag, n.children) else [])
  {
    match n
    case Elem(name, ch) =>
      var s1 := Step(s, Start(name));
      assert s1 == s.(depth := 1);
      StepsAppend(s, [Start(name)], SerNodes(ch));
      StepsAppend(s, [Start(name)] + SerNodes(ch), [End(name)]);
      assert Steps(s, [Start(name)]) == s1;
      RecordNodes(s1, ch);
    case Chars(t) =>
      assert Steps(s, [Text(t)]) == Step(s, Text(t));
    case SelfClosed(_) =>
      assert Steps(s, [Other]) == s;
    case Skipped =>
      assert Steps(s, [Other]) == s;
  }

  lemma {:induction false} TopNodes(s: ParseState, doc: seq<Node>)
    requires s.depth == 0 && s.field.None?
    ensures var r := Steps(s, SerNodes(doc));
      && r.recordTag == (if s.recordTag.Some? then s.recordTag else DocTag(doc))
      && r.records == s.records + Gather(r.recordTag, doc)
    decreases |doc|
  {
    if |doc| > 0 {
      StepsAppend(s, SerNode(doc[0]), SerNodes(doc[1..]));
      TopNode(s, doc[0]);
      var s1 := Steps(s, SerNode(doc[0]));
      TopNodes(s1, doc[1..]);
      var r := Steps(s, SerNodes(doc));
      assert SerNodes(doc) == SerNode(doc[0]) + SerNodes(doc[1..]);
      assert r == Steps(s1, SerNodes(doc[1..]));
      TopCombine(s, s1, r, doc);
    }
  }

  /** The records of a first top-level node and of the rest add up to those
      of the document. */
  lemma TopCombine(s: ParseState, s1: ParseState, r: ParseState, doc: seq<Node>)
    requires |doc| > 0
    requires s1.recordTag == (if doc[0].Elem? then Latch(s.recordTag, doc[0].children) else s.recordTag)
    requires s1.records == s.records + (if doc[0].Elem? then Select(s1.recordTag, doc[0].children) else [])
    requires r.recordTag == (if s1.recordTag.Some? then s1.recordTag else DocTag(doc[1..]))
    requires r.records == s1.records + Gather(r.recordTag, doc[1..])
    ensures r.recordTag == (if s.recordTag.Some? then s.recordTag else DocTag(doc))
    ensures r.records == s.records + Gather(r.recordTag, doc)
  {
    var head := if doc[0].Elem? then Select(r.recordTag, doc[0].children) else [];
    var tail := Gather(r.recordTag, doc[1..]);
    assert (if doc[0].Elem? then Select(s1.recordTag, doc[0].children) else []) == head by {
      if doc[0].Elem? && s1.recordTag != r.recordTag {
        NoElemSelectsNothing(s1.recordTag, doc[0].children);
        NoElemSelectsNothing(r.recordTag, doc[0].children);
      }
    }
    assert Gather(r.recordTag, doc) == head + tail;
    Associative(s.records, head, tail);
  }

  /** The state machine, run over a document's event stream, yields exactly
      the reference records. */
  lemma ParseFlattens(doc: seq<Node>)
    ensures ParseXml(Serialize(doc)) == Ok(Flatten(doc))
  {
    NoStops(doc);
    ParseToEof(SerNodes(doc));
    TopNodes(Initial, doc);
    var r := Steps(Initial, SerNodes(doc));
    assert r.recordTag == DocTag(doc);
    assert [] + Gather(DocTag(doc), doc) == Gather(DocTag(doc), doc);
  }

  /** Events without a stop, then `Eof`: the parse returns the records the
      events emitted. */
  lemma ParseToEof(es: seq<XmlEvent>)
    requires forall i :: 0 <= i < |es| ==> !IsStop(es[i])
    ensures ParseXml(es + [Eof]) == Ok(Steps(Initial, es).records)
  {
    RunAppend(Initial, es, [Eof]);
  }

  // ---------------------------------------------------------------------
  // Worked documents.

  /** `<root><rec><a>1</a><b>2</b></rec><rec><a>3</a></rec></root>` gives two
      records; the second has no `b`. */
  lemma TwoRecords()
    ensures ParseXml(Serialize([Elem("root", [
        Elem("rec", [Elem("a", [Chars("1")]), Elem("b", [Chars("2")])]),
        Elem("rec", [Elem("a", [Chars("3")])])])]))
      == Ok([map["a" := "1", "b" := "2"], map["a" := "3"]])
  {
    var r1 := Elem("rec", [Elem("a", [Chars("1")]), Elem("b", [Chars("2")])]);
    var r2 := Elem("rec", [Elem("a", [Chars("3")])]);
    ParseFlattens([Elem("root", [r1, r2])]);
    TwoRecordsFlatten(r1, r2);
  }

  lemma TwoRecordsFlatten(r1: Node, r2: Node)
    requires r1 == Elem("rec", [Elem("a", [Chars("1")]), Elem("b", [Chars("2")])])
    requires r2 == Elem("rec", [Elem("a", [Chars("3")])])
    ensures Flatten([Elem("root", [r1, r2])]) == [map["a" := "1", "b" := "2"], map["a" := "3"]]
  {
    var doc := [Elem("root", [r1, r2])];
    assert DocTag(doc) == Some("rec");
    var m1 := RecordOf(r1.children);
    var m2 := RecordOf(r2.children);
    assert m1 == map["a" := "1", "b" := "2"] by {
      assert DeepTexts([Chars("1")]) == ["1"];
      assert DeepTexts([Chars("2")]) == ["2"];
      assert FieldOf(map[], r1.children[0]) == map["a" := "1"];
      assert Fields(map[], r1.children) == Fields(map["a" := "1"], r1.children[1..]);
      assert FieldOf(map["a" := "1"], r1.children[1]) == map["a" := "1", "b" := "2"];
      assert Fields(map["a" := "1"], r1.children[1..]) == Fields(map["a" := "1", "b" := "2"], r1.children[2..]);
    }
    assert m2 == map["a" := "3"] by {
      assert DeepTexts([Chars("3")]) == ["3"];
      assert FieldOf(map[], r2.children[0]) == map["a" := "3"];
      assert Fields(map[], r2.children) == Fields(map["a" := "3"], r2.children[1..]);
    }
    assert Select(Some("rec"), [r2]) == [m2] by {
      assert Select(Some("rec"), [r2]) == SelectNode(Some("rec"), r2) + Select(Some("rec"), []);
    }
    assert Select(Some("rec"), [r1, r2]) == [m1, m2] by {
      assert [r1, r2][1..] == [r2];
      assert Select(Some("rec"), [r1, r2]) == SelectNode(Some("rec"), r1) + Select(Some("rec"), [r2]);
    }
    assert Gather(Some("rec"), doc) == Select(Some("rec"), [r1, r2]) + Gather(Some("rec"), []);
  }

  /** Text nested below a field is filed under the field:
      `<root><rec><a><x>deep</x></a></rec></root>` gives `{a: deep}`. */
  lemma DeepTextFiledUnderField()
    ensures ParseXml(Serialize([Elem("root", [Elem("rec", [Elem("a", [Elem("x", [Chars("deep")])])])])]))
      == Ok([map["a" := "deep"]])
  {
    var rec := Elem("rec", [Elem("a", [Elem("x", [Chars("deep")])])]);
    ParseFlattens([Elem("root", [rec])]);
    DeepTextFlatten(rec);
  }

  lemma DeepTextFlatten(rec: Node)
    requires rec == Elem("rec", [Elem("a", [Elem("x", [Chars("deep")])])])
    ensures Flatten([Elem("root", [rec])]) == [map["a" := "deep"]]
  {
    var doc := [Elem("root", [rec])];
    var a := rec.children[0];
    assert DocTag(doc) == Some("rec");
    assert DeepTexts(a.children) == ["deep"] by {
      assert DeepTexts([Chars("deep")]) == ["deep"];
      assert NodeTexts(a.children[0]) == ["deep"];
    }
    assert RecordOf(rec.children) == map["a" := "deep"] by {
      assert FieldOf(map[], a) == map["a" := "deep"];
      assert Fields(map[], rec.children) == Fields(map["a" := "deep"], rec.children[1..]);
    }
    assert Select(Some("rec"), [rec]) == SelectNode(Some("rec"), rec) + Select(Some("rec"), []);
    assert Gather(Some("rec"), doc) == Select(Some("rec"), [rec]) + Gather(Some("rec"), []);
  }

  /** A self-closing record element is ignored, so `<root><rec/></root>` has
      no records and reading it fails with "No records found in XML". */
  lemma SelfClosedRecordIgnored()
    ensures ParseXml(Serialize([Elem("root", [SelfClosed("rec")])])) == Ok([])
    ensures Read(Some(XmlFile(Serialize([Elem("root", [SelfClosed("rec")])]), []))) == Err(NoRecords)
  {
    var doc := [Elem("root", [SelfClosed("rec")])];
    ParseFlattens(doc);
    assert FirstElemName([SelfClosed("rec")]) == FirstElemName([]);
    assert DocTag(doc) == DocTag([]);
    assert Select(None, [SelfClosed("rec")]) == [] + Select(None, []);
    assert Gather(None, doc) == Select(None, [SelfClosed("rec")]) + Gather(None, []);
  }
}
