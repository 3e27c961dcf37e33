/**
  The event-list parser of the build script (`parse_events`, first half).

  The text is read line by line. Two markers choose the section that
  records are filed under; a `- title:` line starts a new record, field
  lines fill in the record being built, and a record is filed when the
  next one starts, at the closed-events marker, or at the end of the text
  (each time only when a section has been chosen).
 */
module Events {
  import opened Options
  import opened Text

  datatype Field = Title | Date | Time | Location | Description | Link

  /** An event as the parser builds it: a dictionary from field to text. */
  type Record = map<Field, string>

  datatype Section = Open | Closed

  /** What a line means to the parser, in the order its tests are made. */
  datatype LineKind =
    | OpenMarker
    | ClosedMarker
    | Heading
    | TitleLine(title: string)
    | FieldLine(field: Field, value: string)
    | Other

  const OpenEvents: string := "## open events"
  const ClosedEvents: string := "## closed events"

  /** A field line: the key with its colon, the field it sets, and the
      value after it. */
  function FieldOf(stripped: string): (r: Option<(Field, string)>)
    ensures r.Some? ==> r.value.0 != Title && Stripped(r.value.1)
  {
    if "date:" <= stripped then Some((Date, Strip(stripped[5..])))
    else if "time:" <= stripped then Some((Time, Strip(stripped[5..])))
    else if "location:" <= stripped then Some((Location, Strip(stripped[9..])))
    else if "description:" <= stripped then Some((Description, Strip(stripped[12..])))
    else if "link:" <= stripped then Some((Link, Strip(stripped[5..])))
    else None
  }

  /** The tests of the loop body, from the markers down to the field keys. */
  function Classify(line: string): (k: LineKind)
    ensures k.TitleLine? ==> Stripped(k.title)
    ensures k.FieldLine? ==> k.field != Title && Stripped(k.value)
  {
    var stripped := Strip(line);
    var lowered := Lower(stripped);
    if lowered == OpenEvents then OpenMarker
    else if lowered == ClosedEvents then ClosedMarker
    else if "# " <= stripped then Heading
    else if "- title:" <= stripped then TitleLine(Strip(stripped[8..]))
    else match FieldOf(stripped)
      case Some((f, v)) => FieldLine(f, v)
      case None => Other
  }

  /** The meaning of each line, in order. */
  function Kinds(lines: seq<string>): (r: seq<LineKind>)
    ensures |r| == |lines| && forall i :: 0 <= i < |lines| ==> r[i] == Classify(lines[i])
  {
    seq(|lines|, i requires 0 <= i < |lines| => Classify(lines[i]))
  }

  predicate IsMarker(k: LineKind) {
    k.OpenMarker? || k.ClosedMarker?
  }

  /** The variables of the loop: the section chosen, the record being
      built, and the two lists filed so far. */
  datatype ParseState = ParseState(section: Option<Section>, current: Record, open: seq<Record>, closed: seq<Record>)

  const Initial: ParseState := ParseState(None, map[], [], [])

  /** `current and section`: there is a record to file and a list to file it in. */
  predicate Pending(st: ParseState) {
    st.current != map[] && st.section.Some?
  }

  /** Files the record being built under the section chosen, when `Pending`. */
  function Flush(st: ParseState): ParseState {
    if !Pending(st) then st
    else if st.section.value == Open then st.(open := st.open + [st.current])
    else st.(closed := st.closed + [st.current])
  }

  /** One turn of the loop, on a line of kind `k`. */
  function Step(st: ParseState, k: LineKind): ParseState {
    match k
    case OpenMarker => st.(section := Some(Open))
    case ClosedMarker =>
      var filed := Flush(st);
      var current := if Pending(st) then map[] else st.current;
      filed.(section := Some(Closed), current := current)
    case Heading => st
    case TitleLine(t) => Flush(st).(current := map[Title := t])
    case FieldLine(f, v) => st.(current := st.current[f := v])
    case Other => st
  }

  /** The loop over lines of the given kinds, from the state `st`. */
  function Run(st: ParseState, kinds: seq<LineKind>): ParseState
    decreases |kinds|
  {
    if kinds == [] then st else Run(Step(st, kinds[0]), kinds[1..])
  }

  /** `parse_events`' records: the loop from the initial state, then the last
      record filed. */
  function Parse(text: string): ParseState {
    Flush(Run(Initial, Kinds(Lines(text))))
  }

  /** The loop of `parse_events`, with the Python variables as locals. */
  method ParseRecords(text: string) returns (open: seq<Record>, closed: seq<Record>)
    ensures open == Parse(text).open && closed == Parse(text).closed
  {
    var lines := Lines(text);
    ghost var kinds := Kinds(lines);
    var section: Option<Section> := None;
    var current: Record := map[];
    open, closed := [], [];
    for i := 0 to |lines|
      invariant Run(ParseState(section, current, open, closed), kinds[i..]) == Run(Initial, kinds)
    {
      assert kinds[i..][1..] == kinds[i + 1..];
      match Classify(lines[i])
      case OpenMarker =>
        section := Some(Open);
      case ClosedMarker =>
        if current != map[] && section.Some? {
          if section.value == Open {
            open := open + [current];
          } else {
            closed := closed + [current];
          }
          current := map[];
        }
        section := Some(Closed);
      case Heading =>
      case TitleLine(t) =>
        if current != map[] && section.Some? {
          if section.value == Open {
            open := open + [current];
          } else {
            closed := closed + [current];
          }
        }
        current := map[Title := t];
      case FieldLine(f, v) =>
        current := current[f := v];
      case Other =>
    }
    if current != map[] && section.Some? {
      if section.value == Open {
        open := open + [current];
      } else {
        closed := closed + [current];
      }
    }
  }

  // ---------------------------------------------------------------- filing

  /** A step files at most one record, and only under the section chosen
      before the step, leaving what was filed before in place. */
  lemma StepFiles(st: ParseState, k: LineKind)
    ensures var s := Step(st, k);
      || (s.open == st.open && s.closed == st.closed)
      || (st.section == Some(Open) && st.current != map[] && s.open == st.open + [st.current] && s.closed == st.closed)
      || (st.section == Some(Closed) && st.current != map[] && s.closed == st.closed + [st.current] && s.open == st.open)
  {
  }

  /** What the loop has filed stays filed, in place, at the front of the lists. */
  lemma {:induction false} RunExtends(st: ParseState, kinds: seq<LineKind>)
    ensures st.open <= Run(st, kinds).open && st.closed <= Run(st, kinds).closed
    decreases |kinds|
  {
    if kinds != [] {
      StepFiles(st, kinds[0]);
      RunExtends(Step(st, kinds[0]), kinds[1..]);
    }
  }

  predicate AllNonEmpty(records: seq<Record>) {
    forall i :: 0 <= i < |records| ==> records[i] != map[]
  }

  predicate NoEmptyFiled(st: ParseState) {
    AllNonEmpty(st.open) && AllNonEmpty(st.closed)
  }

  lemma {:induction false} RunFilesNoEmpty(st: ParseState, kinds: seq<LineKind>)
    requires NoEmptyFiled(st)
    ensures NoEmptyFiled(Run(st, kinds))
    decreases |kinds|
  {
    if kinds != [] {
      StepFiles(st, kinds[0]);
      RunFilesNoEmpty(Step(st, kinds[0]), kinds[1..]);
    }
  }

  /** No filed record is an empty dictionary. */
  lemma ParsedRecordsNonEmpty(text: string)
    ensures AllNonEmpty(Parse(text).open) && AllNonEmpty(Parse(text).closed)
  {
    RunFilesNoEmpty(Initial, Kinds(Lines(text)));
  }

  /** Without a section marker nothing is ever chosen, so nothing is filed. */
  lemma {:induction false} RunWithoutMarker(st: ParseState, kinds: seq<LineKind>)
    requires st.section.None?
    requires forall i :: 0 <= i < |kinds| ==> !IsMarker(kinds[i])
    ensures Run(st, kinds).section.None?
    ensures Run(st, kinds).open == st.open && Run(st, kinds).closed == st.closed
    decreases |kinds|
  {
    if kinds != [] {
      RunWithoutMarker(Step(st, kinds[0]), kinds[1..]);
    }
  }

  /** A text without section markers yields no events at all: every record
      is replaced, or reaches the end, while no section is chosen. */
  lemma NoMarkerNoEvents(text: string)
    requires forall i :: 0 <= i < |Lines(text)| ==> !IsMarker(Classify(Lines(text)[i]))
    ensures Parse(text).open == [] && Parse(text).closed == []
  {
    RunWithoutMarker(Initial, Kinds(Lines(text)));
  }

  /** A record being built while no section is chosen is dropped by the
      next title, and the new record replaces it. */
  lemma DroppedBeforeMarker(st: ParseState, t: string)
    requires st.section.None?
    ensures Step(st, TitleLine(t)) == st.(current := map[Title := t])
  {
  }

  /** The open-events marker only chooses the section: the record being
      built stays, to be filed later under `Open`. */
  lemma OpenMarkerKeepsCurrent(st: ParseState)
    ensures Step(st, OpenMarker).current == st.current
    ensures Step(st, OpenMarker).open == st.open && Step(st, OpenMarker).closed == st.closed
    ensures Step(st, OpenMarker).section == Some(Open)
  {
  }

  /** Because the open-events marker does not file the record being built,
      a record still pending from the closed section is filed under `Open`
      by the next title. */
  lemma ReopenRefiles(st: ParseState, t: string)
    requires st.section == Some(Closed) && st.current != map[]
    ensures var s := Step(Step(st, OpenMarker), TitleLine(t));
      s.open == st.open + [st.current] && s.closed == st.closed
  {
  }

  /** A record built before any marker is kept by the closed-events marker
      (nothing is filed, so nothing is cleared) and later filed as closed. */
  lemma ClosedMarkerAdopts(st: ParseState)
    requires st.section.None? && st.current != map[]
    ensures var s := Step(st, ClosedMarker);
      s.current == st.current && s.section == Some(Closed) && Flush(s).closed == st.closed + [st.current]
  {
  }

  // ---------------------------------------------------------------- a record's fields

  /** A line that neither chooses a section nor starts a record. */
  predicate InRecord(k: LineKind) {
    !IsMarker(k) && !k.TitleLine?
  }

  /** The value the last field line for `f` gives, if any. */
  function LastValue(kinds: seq<LineKind>, f: Field): Option<string> {
    if kinds == [] then None
    else
      var k := kinds[|kinds| - 1];
      if k.FieldLine? && k.field == f then Some(k.value) else LastValue(kinds[..|kinds| - 1], f)
  }

  /** No field line sets the title. */
  lemma {:induction false} LastValueNotTitle(kinds: seq<LineKind>)
    requires forall i :: 0 <= i < |kinds| ==> !(kinds[i].FieldLine? && kinds[i].field == Title)
    ensures LastValue(kinds, Title).None?
  {
    if kinds != [] {
      LastValueNotTitle(kinds[..|kinds| - 1]);
    }
  }

  /** The loop over one more line is one more step. */
  lemma {:induction false} RunSnoc(st: ParseState, kinds: seq<LineKind>, k: LineKind)
    ensures Run(st, kinds + [k]) == Step(Run(st, kinds), k)
    decreases |kinds|
  {
    if kinds == [] {
      assert [k][1..] == [];
    } else {
      assert (kinds + [k])[1..] == kinds[1..] + [k];
      RunSnoc(Step(st, kinds[0]), kinds[1..], k);
    }
  }

  /** The loop over two runs of lines is the loop over the second from where
      the first ended. */
  lemma {:induction false} RunAppend(st: ParseState, a: seq<LineKind>, b: seq<LineKind>)
    ensures Run(st, a + b) == Run(Run(st, a), b)
    decreases |a|
  {
    if a == [] {
      assert a + b == b;
    } else {
      assert (a + b)[1..] == a[1..] + b;
      RunAppend(Step(st, a[0]), a[1..], b);
    }
  }

  /** Inside one record, a field with a line holds the value of its last
      line, a field without one is kept as it was, and nothing but the
      record changes. */
  lemma {:induction false} RunInRecord(st: ParseState, kinds: seq<LineKind>)
    requires forall i :: 0 <= i < |kinds| ==> InRecord(kinds[i])
    ensures var s := Run(st, kinds);
      && s.section == st.section && s.open == st.open && s.closed == st.closed
      && (forall f :: LastValue(kinds, f).Some? ==> f in s.current && s.current[f] == LastValue(kinds, f).value)
      && (forall f :: LastValue(kinds, f).None? ==>
            && (f in s.current <==> f in st.current)
            && (f in st.current ==> s.current[f] == st.current[f]))
    decreases |kinds|
  {
    if kinds != [] {
      var n := |kinds| - 1;
      var init, k := kinds[..n], kinds[n];
      assert forall i :: 0 <= i < |init| ==> init[i] == kinds[i];
      RunInRecord(st, init);
      RunSnoc(st, init, k);
      assert kinds == init + [k];
      assert InRecord(k);
      forall f ensures LastValue(kinds, f) == if k.FieldLine? && k.field == f then Some(k.value) else LastValue(init, f) {
      }
    }
  }

  /** A record started under the open-events marker, followed by no marker
      and no other title, is filed exactly once, as the last open event,
      with its title, and with exactly the other fields that have a line,
      each holding its last line's value. */
  lemma OpenTail(pre: seq<LineKind>, t: string, post: seq<LineKind>)
    requires Run(Initial, pre).section == Some(Open)
    requires forall i :: 0 <= i < |post| ==> InRecord(post[i]) && !(post[i].FieldLine? && post[i].field == Title)
    ensures var filed := Step(Run(Initial, pre), TitleLine(t));
      var r := Flush(Run(Initial, pre + [TitleLine(t)] + post));
      && |r.open| == |filed.open| + 1
      && r.open[..|filed.open|] == filed.open
      && r.closed == filed.closed
      && Title in r.open[|filed.open|] && r.open[|filed.open|][Title] == t
      && forall f :: f != Title ==>
           && (f in r.open[|filed.open|] <==> LastValue(post, f).Some?)
           && (f in r.open[|filed.open|] ==> r.open[|filed.open|][f] == LastValue(post, f).value)
  {
    var s0 := Run(Initial, pre);
    var filed := Step(s0, TitleLine(t));
    RunSnoc(Initial, pre, TitleLine(t));
    RunAppend(Initial, pre + [TitleLine(t)], post);
    var s := Run(filed, post);
    RunInRecord(filed, post);
    LastValueNotTitle(post);
    assert Title in s.current;
  }
}
