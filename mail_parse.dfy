/**
 * The macOS Mail client's parsers for the text AppleScript prints: a record
 * is a set of `key: value` lines. The three list parsers differ only in the
 * key that opens a record, the keys they collect and which of them hold a
 * boolean, so a `Layout` names those and one loop parses all three; message
 * content is a single record with no opening key. The AppleScript call
 * itself is outside the model: its (already stripped) output is the input.
 */
module MailParse {
  import opened Wrappers
  import opened Text

  datatype Value = Text(s: string) | Flag(b: bool)

  type Record = map<string, Value>

  /** The key that opens a record (none for a single record), the other keys, and the keys holding booleans. */
  datatype Layout = Layout(start: Option<string>, fields: seq<string>, flags: set<string>)

  /** `_parse_account_list`. */
  const Accounts := Layout(Some("name"), ["email", "type"], {})
  /** `_parse_mailbox_list`. */
  const Mailboxes := Layout(Some("name"), ["account", "unread", "total"], {})
  /** `_parse_message_list`. */
  const Messages := Layout(Some("subject"), ["sender", "date", "read", "id"], {"read"})
  /** `_parse_message_content`. */
  const Content := Layout(None, ["subject", "sender", "date", "content", "read", "id"], {"read"})

  /** `line.split(':', 1)[1]`: what follows the first colon. */
  function AfterColon(line: string): (r: string)
    requires IndexOf(line, ':') >= 0
    ensures EndsWith(line, r)
  {
    line[IndexOf(line, ':') + 1..]
  }

  /** `line.split(':', 1)[1].strip()`. */
  function FieldText(line: string): string
    requires IndexOf(line, ':') >= 0
  {
    Strip(AfterColon(line))
  }

  /** For a key without a colon, the value is everything after `key:`, stripped, colons included. */
  lemma ValueAfterKey(key: string, rest: string)
    requires forall i :: 0 <= i < |key| ==> key[i] != ':'
    ensures IndexOf(key + ":" + rest, ':') == |key|
    ensures FieldText(key + ":" + rest) == Strip(rest)
  {
    var line := key + ":" + rest;
    assert line[|key|] == ':' && forall i :: 0 <= i < |key| ==> line[i] == key[i];
    assert line[|key| + 1..] == rest;
  }

  predicate Opens(line: string, key: string) {
    StartsWith(line, key + ":")
  }

  lemma OpensHasColon(line: string, key: string)
    requires Opens(line, key)
    ensures IndexOf(line, ':') >= 0
  {
    assert line[|key|] == (key + ":")[|key|] == ':';
  }

  /** The first key of `keys` that the (stripped) line starts with, as the `elif` chain tests them. */
  function FieldKey(keys: seq<string>, line: string): (r: Option<string>)
    ensures r.Some? ==> r.value in keys && Opens(line, r.value)
    ensures r.None? ==> forall i :: 0 <= i < |keys| ==> !Opens(line, keys[i])
  {
    if keys == [] then None
    else if Opens(line, keys[0]) then Some(keys[0])
    else FieldKey(keys[1..], line)
  }

  /** The value stored for `key`: a boolean key holds whether the lower-cased text is `true`. */
  function Convert(layout: Layout, key: string, line: string): Value
    requires IndexOf(line, ':') >= 0
  {
    if key in layout.flags then Flag(Lower(FieldText(line)) == "true") else Text(FieldText(line))
  }

  predicate IsStart(layout: Layout, raw: string) {
    layout.start.Some? && Opens(Strip(raw), layout.start.value)
  }

  predicate IsField(layout: Layout, raw: string) {
    !IsStart(layout, raw) && FieldKey(layout.fields, Strip(raw)).Some?
  }

  /** The records finished so far and the one being filled. */
  datatype State = State(done: seq<Record>, current: Record)

  const Initial := State([], map[])

  /** One line of the loop: an opening line closes a non-empty current record and opens a new one; a field line sets its key; anything else is ignored. */
  function Step(layout: Layout, st: State, raw: string): State {
    var line := Strip(raw);
    if IsStart(layout, raw) then
      OpensHasColon(line, layout.start.value);
      State(if st.current != map[] then st.done + [st.current] else st.done,
            map[layout.start.value := Convert(layout, layout.start.value, line)])
    else
      match FieldKey(layout.fields, line)
      case Some(k) =>
        OpensHasColon(line, k);
        State(st.done, st.current[k := Convert(layout, k, line)])
      case None => st
  }

  function RunFrom(layout: Layout, st: State, lines: seq<string>): State
    decreases |lines|
  {
    if lines == [] then st
    else Step(layout, RunFrom(layout, st, lines[..|lines| - 1]), lines[|lines| - 1])
  }

  function Run(layout: Layout, lines: seq<string>): State {
    RunFrom(layout, Initial, lines)
  }

  /** Closing the last record. */
  function Finish(st: State): (r: seq<Record>)
    ensures |r| == |st.done| + (if st.current != map[] then 1 else 0)
  {
    if st.current != map[] then st.done + [st.current] else st.done
  }

  /** What a list parser returns for `result`. */
  function Records(layout: Layout, result: string): seq<Record> {
    if result == "" then [] else Finish(Run(layout, Split(result, '\n')))
  }

  /**
   * The list parsers' loop (`_parse_account_list`, `_parse_mailbox_list`,
   * `_parse_message_list`), over the layout of each.
   */
  method ParseRecordList(layout: Layout, result: string) returns (records: seq<Record>)
    ensures records == Records(layout, result)
    ensures result == "" ==> records == []
    ensures result != "" ==> records == Segmented(Classes(layout, Split(result, '\n')))
  {
    records := [];
    if result == "" {
      return;
    }
    var lines := Split(result, '\n');
    var current: Record := map[];
    for i := 0 to |lines|
      invariant State(records, current) == Run(layout, lines[..i])
    {
      RunSnoc(layout, lines, i);
      StepCases(layout, State(records, current), lines[i]);
      ghost var next := Step(layout, State(records, current), lines[i]);
      var line := Strip(lines[i]);
      if IsStart(layout, lines[i]) {
        if current != map[] {
          records := records + [current];
        }
        OpensHasColon(line, layout.start.value);
        current := map[layout.start.value := Convert(layout, layout.start.value, line)];
      } else {
        var key := FieldKey(layout.fields, line);
        if key.Some? {
          OpensHasColon(line, key.value);
          current := current[key.value := Convert(layout, key.value, line)];
        }
      }
      assert State(records, current) == next;
    }
    assert lines[..|lines|] == lines;
    if current != map[] {
      records := records + [current];
    }
    RecordsAreSegments(layout, result);
  }

  /** `_parse_message_content`: one record, every recognised line setting its key. */
  method ParseMessageContent(result: string) returns (message: Record)
    ensures result == "" ==> message == map[]
    ensures result != "" ==> message == Run(Content, Split(result, '\n')).current
  {
    message := map[];
    if result == "" {
      return;
    }
    var lines := Split(result, '\n');
    for i := 0 to |lines|
      invariant State([], message) == Run(Content, lines[..i])
    {
      RunSnoc(Content, lines, i);
      assert !IsStart(Content, lines[i]);
      StepCases(Content, State([], message), lines[i]);
      ghost var next := Step(Content, State([], message), lines[i]);
      var line := Strip(lines[i]);
      var key := FieldKey(Content.fields, line);
      if key.Some? {
        OpensHasColon(line, key.value);
        message := message[key.value := Convert(Content, key.value, line)];
      }
      assert State([], message) == next;
    }
    assert lines[..|lines|] == lines;
  }

  /** The loop state after line `i` is one step from the state before it. */
  lemma RunSnoc(layout: Layout, lines: seq<string>, i: nat)
    requires i < |lines|
    ensures Run(layout, lines[..i + 1]) == Step(layout, Run(layout, lines[..i]), lines[i])
  {
    assert lines[..i + 1][..i] == lines[..i];
  }

  /** The three cases of `Step`, with the colon each recognised line is known to have. */
  lemma StepCases(layout: Layout, st: State, raw: string)
    ensures var line := Strip(raw); IsStart(layout, raw) ==>
      IndexOf(line, ':') >= 0
      && Step(layout, st, raw) == State(if st.current != map[] then st.done + [st.current] else st.done,
                                        map[layout.start.value := Convert(layout, layout.start.value, line)])
    ensures var line := Strip(raw); !IsStart(layout, raw) && FieldKey(layout.fields, line).Some? ==>
      IndexOf(line, ':') >= 0
      && Step(layout, st, raw) == State(st.done, st.current[FieldKey(layout.fields, line).value := Convert(layout, FieldKey(layout.fields, line).value, line)])
    ensures !IsStart(layout, raw) && FieldKey(layout.fields, Strip(raw)).None? ==> Step(layout, st, raw) == st
  {
    var line := Strip(raw);
    if IsStart(layout, raw) {
      OpensHasColon(line, layout.start.value);
    } else if FieldKey(layout.fields, line).Some? {
      OpensHasColon(line, FieldKey(layout.fields, line).value);
    }
  }

  /** Number of opening lines. */
  function StartCount(layout: Layout, lines: seq<string>): nat
    decreases |lines|
  {
    if lines == [] then 0
    else StartCount(layout, lines[..|lines| - 1]) + (if IsStart(layout, lines[|lines| - 1]) then 1 else 0)
  }

  /** Some field line comes before the first opening line. */
  predicate Leading(layout: Layout, lines: seq<string>)
    decreases |lines|
  {
    lines != [] &&
    (Leading(layout, lines[..|lines| - 1])
     || (StartCount(layout, lines[..|lines| - 1]) == 0 && IsField(layout, lines[|lines| - 1])))
  }

  /** The shape of the loop state: how many records are closed and whether one is open. */
  predicate Shape(st: State, s: nat, l: bool) {
    (st.current != map[] <==> s > 0 || l)
    && |st.done| == (if s == 0 then 0 else s - 1 + (if l then 1 else 0))
  }

  lemma StepShape(layout: Layout, st: State, raw: string, s: nat, l: bool)
    requires Shape(st, s, l)
    ensures Shape(Step(layout, st, raw), s + (if IsStart(layout, raw) then 1 else 0),
                  l || (s == 0 && IsField(layout, raw)))
  {
    var line := Strip(raw);
    var next := Step(layout, st, raw);
    if IsStart(layout, raw) {
      var key := layout.start.value;
      OpensHasColon(line, key);
      assert next.current == map[key := Convert(layout, key, line)];
      assert key in next.current;
      assert next.done == if st.current != map[] then st.done + [st.current] else st.done;
    } else if IsField(layout, raw) {
      var key := FieldKey(layout.fields, line).value;
      OpensHasColon(line, key);
      assert next == State(st.done, st.current[key := Convert(layout, key, line)]);
      assert key in next.current;
    } else {
      assert next == st;
    }
  }

  lemma {:induction false} RunShape(layout: Layout, lines: seq<string>)
    ensures Shape(Run(layout, lines), StartCount(layout, lines), Leading(layout, lines))
    decreases |lines|
  {
    if lines != [] {
      var front := lines[..|lines| - 1];
      RunShape(layout, front);
      StepShape(layout, Run(layout, front), lines[|lines| - 1], StartCount(layout, front), Leading(layout, front));
    }
  }

  /**
   * One record per opening line, plus one leading record when field lines
   * come before the first opening line; so when the first recognised line
   * opens a record, there are exactly as many records as opening lines.
   */
  lemma RecordCount(layout: Layout, result: string)
    requires result != ""
    ensures var lines := Split(result, '\n');
      |Records(layout, result)| == StartCount(layout, lines) + (if Leading(layout, lines) then 1 else 0)
  {
    RunShape(layout, Split(result, '\n'));
  }

  lemma {:induction false} RunFromConcat(layout: Layout, st: State, a: seq<string>, b: seq<string>)
    ensures RunFrom(layout, st, a + b) == RunFrom(layout, RunFrom(layout, st, a), b)
    decreases |b|
  {
    if b == [] {
      assert a + b == a;
    } else {
      var front := b[..|b| - 1];
      assert (a + b)[..|a + b| - 1] == a + front;
      assert (a + b)[|a + b| - 1] == b[|b| - 1];
      RunFromConcat(layout, st, a, front);
    }
  }

  /** A line that neither opens a record nor carries a known key changes nothing. */
  lemma IgnoredLine(layout: Layout, a: seq<string>, line: string, b: seq<string>)
    requires !IsStart(layout, line) && !IsField(layout, line)
    ensures Run(layout, a + [line] + b) == Run(layout, a + b)
  {
    RunFromConcat(layout, Initial, a + [line], b);
    RunFromConcat(layout, Initial, a, [line]);
    RunFromConcat(layout, Initial, a, b);
    assert [line][..0] == [];
  }

  /** The last line among `lines` that carries `key`, or -1. */
  function LastFor(layout: Layout, lines: seq<string>, key: string): (r: int)
    ensures -1 <= r < |lines|
    ensures r >= 0 ==> FieldKey(layout.fields, Strip(lines[r])) == Some(key)
    decreases |lines|
  {
    if lines == [] then -1
    else if FieldKey(layout.fields, Strip(lines[|lines| - 1])) == Some(key) then |lines| - 1
    else LastFor(layout, lines[..|lines| - 1], key)
  }

  /**
   * With no opening key (message content), a key is present exactly when
   * some line carries it, and the last such line supplies its value.
   */
  lemma {:induction false} LastLineWins(layout: Layout, lines: seq<string>, key: string)
    requires layout.start.None?
    ensures var st, i := Run(layout, lines), LastFor(layout, lines, key);
      st.done == [] && (key in st.current <==> i >= 0)
      && (i >= 0 ==> IndexOf(Strip(lines[i]), ':') >= 0 && st.current[key] == Convert(layout, key, Strip(lines[i])))
    decreases |lines|
  {
    if lines != [] {
      var front := lines[..|lines| - 1];
      var last := lines[|lines| - 1];
      LastLineWins(layout, front, key);
      StepKey(layout, Run(layout, front), last, key);
      var i := LastFor(layout, lines, key);
      if i >= 0 && i < |lines| - 1 {
        assert front[i] == lines[i];
      }
    }
  }

  /** One line of a layout without an opening key: it sets `key` when it carries it, and leaves it as it was otherwise. */
  lemma StepKey(layout: Layout, st: State, raw: string, key: string)
    requires layout.start.None?
    ensures var next, line := Step(layout, st, raw), Strip(raw);
      next.done == st.done
      && (FieldKey(layout.fields, line) == Some(key) ==>
            IndexOf(line, ':') >= 0 && key in next.current && next.current[key] == Convert(layout, key, line))
      && (FieldKey(layout.fields, line) != Some(key) ==>
            (key in next.current <==> key in st.current)
            && (key in st.current ==> next.current[key] == st.current[key]))
  {
    var line := Strip(raw);
    assert !IsStart(layout, raw);
    match FieldKey(layout.fields, line)
    case Some(k) =>
      OpensHasColon(line, k);
    case None =>
  }

  /** What one line of AppleScript output means to a parser: it opens a record, sets a field, or is ignored. */
  datatype Line = Opening(key: string, value: Value) | Field(key: string, value: Value) | Other

  /** The meaning of a line under a layout, with the precedence of the `if`/`elif` chain. */
  function Classify(layout: Layout, raw: string): (c: Line)
    ensures c.Opening? <==> IsStart(layout, raw)
    ensures c.Opening? ==>
      c.key == layout.start.value && IndexOf(Strip(raw), ':') >= 0 && c.value == Convert(layout, c.key, Strip(raw))
    ensures c.Field? ==>
      FieldKey(layout.fields, Strip(raw)) == Some(c.key) && IndexOf(Strip(raw), ':') >= 0 && c.value == Convert(layout, c.key, Strip(raw))
    ensures c.Other? <==> !IsStart(layout, raw) && FieldKey(layout.fields, Strip(raw)).None?
  {
    var line := Strip(raw);
    if IsStart(layout, raw) then
      OpensHasColon(line, layout.start.value);
      Opening(layout.start.value, Convert(layout, layout.start.value, line))
    else
      match FieldKey(layout.fields, line)
      case Some(k) =>
        OpensHasColon(line, k);
        Field(k, Convert(layout, k, line))
      case None => Other
  }

  function Classes(layout: Layout, lines: seq<string>): (cs: seq<Line>)
    ensures |cs| == |lines| && forall i :: 0 <= i < |lines| ==> cs[i] == Classify(layout, lines[i])
  {
    seq(|lines|, i requires 0 <= i < |lines| => Classify(layout, lines[i]))
  }

  /** One step of the loop on a classified line. */
  function Apply(st: State, c: Line): State {
    match c
    case Opening(k, v) => State(if st.current != map[] then st.done + [st.current] else st.done, map[k := v])
    case Field(k, v) => State(st.done, st.current[k := v])
    case Other => st
  }

  function Replay(cs: seq<Line>): State
    decreases |cs|
  {
    if cs == [] then Initial else Apply(Replay(cs[..|cs| - 1]), cs[|cs| - 1])
  }

  lemma StepApply(layout: Layout, st: State, raw: string)
    ensures Step(layout, st, raw) == Apply(st, Classify(layout, raw))
  {
    StepCases(layout, st, raw);
  }

  lemma ClassesSnoc(layout: Layout, front: seq<string>, x: string)
    ensures Classes(layout, front + [x]) == Classes(layout, front) + [Classify(layout, x)]
  {
    assert forall i :: 0 <= i < |front| ==> (front + [x])[i] == front[i];
  }

  lemma ReplaySnoc(cs: seq<Line>, c: Line)
    ensures Replay(cs + [c]) == Apply(Replay(cs), c)
  {
    assert (cs + [c])[..|cs|] == cs;
  }

  lemma RunLast(layout: Layout, front: seq<string>, x: string)
    ensures Run(layout, front + [x]) == Step(layout, Run(layout, front), x)
  {
    assert (front + [x])[..|front|] == front;
  }

  /** The loop over the lines is the loop over their meanings. */
  lemma {:induction false} RunReplay(layout: Layout, lines: seq<string>)
    ensures Run(layout, lines) == Replay(Classes(layout, lines))
    decreases |lines|
  {
    if lines != [] {
      var front, x := lines[..|lines| - 1], lines[|lines| - 1];
      assert lines == front + [x];
      RunReplay(layout, front);
      RunLast(layout, front, x);
      StepApply(layout, Run(layout, front), x);
      ClassesSnoc(layout, front, x);
      ReplaySnoc(Classes(layout, front), Classify(layout, x));
    }
  }

  /** A field line sets its key; any other line leaves the record alone. */
  function SetField(r: Record, c: Line): Record {
    if c.Field? then r[c.key := c.value] else r
  }

  /** The record `init` after the field lines of `cs`, in order. */
  function Fields(init: Record, cs: seq<Line>): Record
    decreases |cs|
  {
    if cs == [] then init else SetField(Fields(init, cs[..|cs| - 1]), cs[|cs| - 1])
  }

  /** The index of the last opening line, or -1. */
  function LastOpening(cs: seq<Line>): (o: int)
    ensures -1 <= o < |cs| && (o >= 0 ==> cs[o].Opening?)
    ensures forall i :: o < i < |cs| ==> !cs[i].Opening?
    decreases |cs|
  {
    if cs == [] then -1
    else if cs[|cs| - 1].Opening? then |cs| - 1
    else LastOpening(cs[..|cs| - 1])
  }

  /** The index of the first opening line, or `|cs|`. */
  function FirstOpening(cs: seq<Line>): (f: nat)
    ensures f <= |cs| && (f < |cs| ==> cs[f].Opening?)
    ensures forall i :: 0 <= i < f ==> !cs[i].Opening?
    decreases |cs|
  {
    if cs == [] || cs[0].Opening? then 0 else 1 + FirstOpening(cs[1..])
  }

  /** The record an opening line starts: its start key only. */
  function Opened(c: Line): Record
    requires c.Opening?
  {
    map[c.key := c.value]
  }

  /**
   * The records a list parser is meant to return, segment by segment: the
   * last record is the last opening line with the field lines after it, the
   * records before it are those of the lines before it, and the lines before
   * any opening line form one leading record, kept when some field line set
   * a key.
   */
  function Segmented(cs: seq<Line>): seq<Record>
    decreases |cs|
  {
    var o := LastOpening(cs);
    if o < 0 then
      var lead := Fields(map[], cs);
      if lead != map[] then [lead] else []
    else Segmented(cs[..o]) + [Fields(Opened(cs[o]), cs[o + 1..])]
  }

  /** The last line among `cs` that sets `key`, or -1. */
  function LastSet(cs: seq<Line>, key: string): (r: int)
    ensures -1 <= r < |cs| && (r >= 0 ==> cs[r].Field? && cs[r].key == key)
    ensures forall i :: r < i < |cs| ==> !(cs[i].Field? && cs[i].key == key)
    decreases |cs|
  {
    if cs == [] then -1
    else if cs[|cs| - 1].Field? && cs[|cs| - 1].key == key then |cs| - 1
    else LastSet(cs[..|cs| - 1], key)
  }

  /**
   * Within a record, a key is present exactly when the record started with
   * it or some field line of the record sets it, and the last such line
   * supplies its value: a repeated field keeps its last value.
   */
  lemma {:induction false} FieldsLastWins(init: Record, cs: seq<Line>, key: string)
    ensures var r, i := Fields(init, cs), LastSet(cs, key);
      (key in r <==> key in init || i >= 0)
      && (i >= 0 ==> r[key] == cs[i].value)
      && (i < 0 && key in init ==> r[key] == init[key])
    decreases |cs|
  {
    if cs != [] {
      var front := cs[..|cs| - 1];
      FieldsLastWins(init, front, key);
      var i := LastSet(cs, key);
      if 0 <= i < |cs| - 1 {
        assert front[i] == cs[i];
      }
    }
  }

  /** The records closed by the time `cs` is read: those before the last opening line. */
  function Closed(cs: seq<Line>): seq<Record> {
    var o := LastOpening(cs);
    if o < 0 then [] else Segmented(cs[..o])
  }

  /** The record still open after `cs`: the last segment's. */
  function Open(cs: seq<Line>): Record {
    var o := LastOpening(cs);
    if o < 0 then Fields(map[], cs) else Fields(Opened(cs[o]), cs[o + 1..])
  }

  /** A key the record starts with stays in it. */
  lemma {:induction false} FieldsKeep(init: Record, cs: seq<Line>, key: string)
    requires key in init
    ensures key in Fields(init, cs)
    decreases |cs|
  {
    if cs != [] {
      FieldsKeep(init, cs[..|cs| - 1], key);
    }
  }

  /** A key no field line sets, and the record does not start with, stays out of it. */
  lemma {:induction false} FieldsWithout(init: Record, cs: seq<Line>, key: string)
    requires key !in init
    requires forall i :: 0 <= i < |cs| ==> cs[i].Field? ==> cs[i].key != key
    ensures key !in Fields(init, cs)
    decreases |cs|
  {
    if cs != [] {
      var front := cs[..|cs| - 1];
      assert forall i :: 0 <= i < |front| ==> front[i] == cs[i];
      FieldsWithout(init, front, key);
    }
  }

  lemma FinishSegmented(cs: seq<Line>)
    ensures Finish(State(Closed(cs), Open(cs))) == Segmented(cs)
  {
    var o := LastOpening(cs);
    if o >= 0 {
      FieldsKeep(Opened(cs[o]), cs[o + 1..], cs[o].key);
      assert Open(cs) == Fields(Opened(cs[o]), cs[o + 1..]) != map[];
      assert Segmented(cs) == Closed(cs) + [Open(cs)];
    } else {
      assert Closed(cs) == [] && Open(cs) == Fields(map[], cs);
    }
  }

  lemma FieldsSnoc(init: Record, a: seq<Line>, c: Line)
    ensures Fields(init, a + [c]) == SetField(Fields(init, a), c)
  {
    assert (a + [c])[..|a|] == a;
  }

  /** An opening line closes the open record and starts its own. */
  lemma OpeningStep(front: seq<Line>, c: Line)
    requires c.Opening?
    ensures Apply(State(Closed(front), Open(front)), c) == State(Closed(front + [c]), Open(front + [c]))
  {
    var cs := front + [c];
    FinishSegmented(front);
    assert cs[..|front|] == front && cs[|front| + 1..] == [];
  }

  /** Any other line only changes the open record. */
  lemma FieldStep(front: seq<Line>, c: Line)
    requires !c.Opening?
    ensures Apply(State(Closed(front), Open(front)), c) == State(Closed(front + [c]), Open(front + [c]))
  {
    var cs := front + [c];
    var o := LastOpening(front);
    assert cs[..|front|] == front;
    assert LastOpening(cs) == o;
    if o >= 0 {
      assert cs[..o] == front[..o] && cs[o] == front[o];
      assert cs[o + 1..] == front[o + 1..] + [c];
      FieldsSnoc(Opened(front[o]), front[o + 1..], c);
    } else {
      FieldsSnoc(map[], front, c);
    }
  }

  /** The loop state after `cs`: the records before the last opening line, and the last segment's record. */
  lemma {:induction false} ReplaySegments(cs: seq<Line>)
    ensures Replay(cs) == State(Closed(cs), Open(cs))
    decreases |cs|
  {
    if cs != [] {
      var front, c := cs[..|cs| - 1], cs[|cs| - 1];
      assert cs == front + [c];
      ReplaySegments(front);
      if c.Opening? {
        OpeningStep(front, c);
      } else {
        FieldStep(front, c);
      }
    }
  }

  /** A list parser returns the records of the segments of its lines. */
  lemma RecordsAreSegments(layout: Layout, result: string)
    ensures Records(layout, result) == (if result == "" then [] else Segmented(Classes(layout, Split(result, '\n'))))
  {
    if result != "" {
      var lines := Split(result, '\n');
      RunReplay(layout, lines);
      ReplaySegments(Classes(layout, lines));
      FinishSegmented(Classes(layout, lines));
    }
  }

  lemma FirstOpeningIs(cs: seq<Line>, f: nat)
    requires f <= |cs| && (f < |cs| ==> cs[f].Opening?)
    requires forall i :: 0 <= i < f ==> !cs[i].Opening?
    ensures FirstOpening(cs) == f
  {
  }

  /** Cutting the lines at an opening line keeps the lines before the first one. */
  lemma FirstOpeningCut(cs: seq<Line>, o: nat)
    requires o < |cs| && cs[o].Opening?
    ensures FirstOpening(cs) == FirstOpening(cs[..o])
    ensures cs[..FirstOpening(cs)] == cs[..o][..FirstOpening(cs[..o])]
  {
    var front := cs[..o];
    var f := FirstOpening(front);
    assert forall i :: 0 <= i < f ==> front[i] == cs[i];
    FirstOpeningIs(cs, f);
  }

  /** Every opening line opens with `start`, and no field line sets it. */
  predicate StartOnlyOpens(cs: seq<Line>, start: string) {
    forall i :: 0 <= i < |cs| ==> (cs[i].Opening? ==> cs[i].key == start) && (cs[i].Field? ==> cs[i].key != start)
  }

  lemma StartOnlyOpensPrefix(cs: seq<Line>, start: string, n: nat)
    requires StartOnlyOpens(cs, start) && n <= |cs|
    ensures StartOnlyOpens(cs[..n], start)
  {
    assert forall i :: 0 <= i < n ==> cs[..n][i] == cs[i];
  }

  /** Lines without an opening line make at most one record, and it lacks the start key. */
  lemma NoOpeningSegment(cs: seq<Line>, start: string)
    requires StartOnlyOpens(cs, start) && LastOpening(cs) < 0
    ensures FirstOpening(cs) == |cs|
    ensures start !in Fields(map[], cs)
    ensures Segmented(cs) == (if Fields(map[], cs) != map[] then [Fields(map[], cs)] else [])
  {
    FirstOpeningIs(cs, |cs|);
    FieldsWithout(map[], cs, start);
  }

  /**
   * The field lines before the first opening line form a leading record
   * exactly when they set some key; it is then the first record, and it is
   * the only record without the start key.
   */
  lemma {:induction false} LeadingSegment(cs: seq<Line>, start: string)
    requires StartOnlyOpens(cs, start)
    ensures var rs, lead := Segmented(cs), Fields(map[], cs[..FirstOpening(cs)]);
      (lead != map[] <==> rs != [] && start !in rs[0])
      && (lead != map[] ==> rs[0] == lead)
      && (forall k :: 0 < k < |rs| ==> start in rs[k])
    decreases |cs|
  {
    var o := LastOpening(cs);
    if o < 0 {
      NoOpeningSegment(cs, start);
      assert cs[..|cs|] == cs;
    } else {
      var front := cs[..o];
      StartOnlyOpensPrefix(cs, start, o);
      LeadingSegment(front, start);
      FirstOpeningCut(cs, o);
      var last := Fields(Opened(cs[o]), cs[o + 1..]);
      FieldsKeep(Opened(cs[o]), cs[o + 1..], start);
      assert Segmented(cs) == Segmented(front) + [last];
    }
  }

  /** A start key that is not also a field key, as in the three list layouts. */
  predicate Distinct(layout: Layout) {
    layout.start.Some? && layout.start.value !in layout.fields
  }

  /** The leading record of a list parser's lines: the fields before the first opening line, without the start key. */
  lemma LeadingRecord(layout: Layout, lines: seq<string>)
    requires Distinct(layout)
    ensures var cs := Classes(layout, lines); var rs, lead := Segmented(cs), Fields(map[], cs[..FirstOpening(cs)]);
      (lead != map[] <==> rs != [] && layout.start.value !in rs[0])
      && (lead != map[] ==> rs[0] == lead)
      && (forall k :: 0 < k < |rs| ==> layout.start.value in rs[k])
  {
    var cs := Classes(layout, lines);
    assert StartOnlyOpens(cs, layout.start.value);
    LeadingSegment(cs, layout.start.value);
  }

  /** Python's `int(s)` on ASCII text: optional surrounding whitespace and sign, then digits with single underscores between them. */
  function ParseInt(s: string): Option<int> {
    ParseSigned(Strip(s))
  }

  /** `int` after stripping: an optional sign, then the digits. */
  function ParseSigned(t: string): Option<int> {
    if t != [] && (t[0] == '-' || t[0] == '+') then
      if WellFormedDigits(t[1..]) then
        var v: int := DigitsValue(Digits(t[1..]));
        Some(if t[0] == '-' then -v else v)
      else None
    else if WellFormedDigits(t) then Some(DigitsValue(Digits(t)))
    else None
  }

  predicate WellFormedDigits(s: string) {
    s != [] && IsDigit(s[0]) && IsDigit(s[|s| - 1])
    && (forall i :: 0 <= i < |s| ==> IsDigit(s[i]) || s[i] == '_')
    && (forall i :: 0 <= i < |s| - 1 ==> !(s[i] == '_' && s[i + 1] == '_'))
  }

  /** The digits of `s` with the underscores dropped. */
  function Digits(s: string): (r: string)
    requires forall i :: 0 <= i < |s| ==> IsDigit(s[i]) || s[i] == '_'
    ensures forall i :: 0 <= i < |r| ==> IsDigit(r[i])
    ensures (forall i :: 0 <= i < |s| ==> IsDigit(s[i])) ==> r == s
    decreases |s|
  {
    if s == [] then []
    else if s[|s| - 1] == '_' then Digits(s[..|s| - 1])
    else Digits(s[..|s| - 1]) + [s[|s| - 1]]
  }

  /** `get_unread_count`, given the script's output: an empty or non-integer result counts as 0. */
  function UnreadCount(result: string): (r: int)
    ensures result == "" ==> r == 0
    ensures result != "" && ParseInt(result).None? ==> r == 0
    ensures result != "" && ParseInt(result).Some? ==> r == ParseInt(result).value
  {
    if result == "" then 0
    else match ParseInt(result)
      case Some(n) => n
      case None => 0
  }

  /** A non-empty run of digits parses as its decimal value. */
  predicate AllDigits(s: string) {
    forall i :: 0 <= i < |s| ==> IsDigit(s[i])
  }

  lemma ParseDigits(s: string)
    requires s != [] && AllDigits(s)
    ensures ParseInt(s) == Some(DigitsValue(s))
  {
    assert IsDigit(s[0]) && IsDigit(s[|s| - 1]);
    StripNoEdge(s);
    SignedDigits(s);
  }

  lemma SignedDigits(s: string)
    requires s != [] && AllDigits(s)
    ensures ParseSigned(s) == Some(DigitsValue(s))
  {
    assert s[0] != '-' && s[0] != '+';
    assert WellFormedDigits(s);
    assert Digits(s) == s;
  }

  /** A count printed in decimal is read back. */
  lemma UnreadCountRoundTrip(n: nat)
    ensures UnreadCount(NatToString(n)) == n
  {
    ParseDigits(NatToString(n));
    NatToStringRoundTrip(n);
  }
}
