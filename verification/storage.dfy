/**
 * The record file (`duke.storage.Storage`): one tab-separated line per task,
 * `T|D|E <tab> 0|1 <tab> description` followed by the due stamp of a
 * deadline or the two stamps of an event, in storage form.
 *
 * The file itself is modelled as its list of lines (`None` when the file
 * does not exist); creating the directory, the temporary file, the atomic
 * move and the corrupt-file backup are I/O and are not modelled, except
 * that loading reports whether the backup would have been made.
 */
module Storage {
  import opened Text
  import opened DateTimeUtil
  import opened Tasks

  /** The fields `encode` joins with tabs. */
  function Fields(t: Task): (r: seq<string>)
    ensures |r| == (match t case Todo(_, _) => 3 case Deadline(_, _, _) => 4 case Event(_, _, _, _) => 5)
  {
    var done := if t.done then "1" else "0";
    match t
    case Todo(d, _) => [StorageCode(TODO), done, d]
    case Deadline(d, _, _) => [StorageCode(DEADLINE), done, d, GetBy(t)]
    case Event(d, _, _, _) => [StorageCode(EVENT), done, d, GetFrom(t), GetTo(t)]
  }

  /** `Storage.encode`: the line that stores one task. */
  function Encode(t: Task): (r: string)
    ensures r != [] && r[0] == StorageCode(TypeOf(t))[0]
  {
    JoinTabs(Fields(t))
  }

  /** The formatters `parseLine` uses for stored stamps: case-sensitive, with the default SMART resolver. */
  const StoredDateTimeFormat := Grammar(IsoMinuteFields, false, Smart, false)
  const StoredDateFormat := Grammar(IsoDateFields, false, Smart, false)

  /**
   * The stamp decoding inside `parseLine`: a trimmed stamp containing `T` must
   * be `yyyy-MM-dd'T'HH:mm`, any other must be `yyyy-MM-dd` (read as midnight).
   * Neither format defaults the year, so no current year is involved.
   */
  function DecodeStamp(raw: string): (r: Option<Stamp>)
    ensures r.Some? ==> WellFormedStamp(r.value) && (r.value.hasTime <==> 'T' in Trim(raw))
  {
    var s := Trim(raw);
    if 'T' in s then
      match MatchGrammar(StoredDateTimeFormat, s, 0)
      case None => None
      case Some(dt) => Some(Stamp(dt, true))
    else
      match MatchGrammar(StoredDateFormat, s, 0)
      case None => None
      case Some(dt) => Some(Stamp(AtStartOfDay(DateOf(dt)), false))
  }

  /** A stored stamp decodes to the stamp it came from (a date-only stamp at midnight). */
  lemma DecodeStampRoundTrip(st: Stamp)
    ensures DecodeStamp(StorageString(st)) == Some(Normalize(st))
  {
    var s := StorageString(st);
    TrimOfClean(s);
    StorageStringReads(st, StoredDateTimeFormat, 0);
    StorageStringReads(st, StoredDateFormat, 0);
  }

  /** Why `parseLine` throws. */
  datatype LineError =
    | Malformed            // fewer than three fields
    | MissingDeadlineDate  // a `D` line with fewer than four fields
    | MissingEventDates    // an `E` line with fewer than five fields
    | UnknownType(code: string)
    | BadStamp(raw: string)

  datatype LineResult = LineOk(task: Task) | LineErr(error: LineError)

  /**
   * `Storage.parseLine` after the split: the fields of one stored line back
   * to a task. The task is built and then marked when the flag field is `1`;
   * building it with that flag directly is the same.
   */
  function ParseFields(parts: seq<string>): (r: LineResult)
    ensures |parts| < 3 <==> r == LineErr(Malformed)
    ensures r.LineOk? ==>
      && WellFormedTask(r.task)
      && StorageCode(TypeOf(r.task)) == Trim(parts[0])
      && r.task.done == (Trim(parts[1]) == "1")
      && r.task.description == parts[2]
    ensures |parts| >= 3 && FromStorageCode(Trim(parts[0])).None? ==> r == LineErr(UnknownType(Trim(parts[0])))
    ensures |parts| >= 3 && Trim(parts[0]) == "T" ==> r == LineOk(Todo(parts[2], Trim(parts[1]) == "1"))
    ensures |parts| == 3 && Trim(parts[0]) == "D" ==> r == LineErr(MissingDeadlineDate)
    ensures 3 <= |parts| <= 4 && Trim(parts[0]) == "E" ==> r == LineErr(MissingEventDates)
    ensures r.LineOk? && r.task.Deadline? ==> |parts| >= 4 && DecodeStamp(parts[3]) == Some(r.task.due)
    ensures r.LineOk? && r.task.Event? ==>
      |parts| >= 5 && DecodeStamp(parts[3]) == Some(r.task.start) && DecodeStamp(parts[4]) == Some(r.task.end)
    ensures |parts| >= 4 && Trim(parts[0]) == "D" && DecodeStamp(parts[3]).None? ==> r == LineErr(BadStamp(Trim(parts[3])))
    ensures |parts| >= 5 && Trim(parts[0]) == "E" && (DecodeStamp(parts[3]).None? || DecodeStamp(parts[4]).None?) ==>
      r.LineErr? && r.error.BadStamp?
  {
    if |parts| < 3 then LineErr(Malformed)
    else
      var code := Trim(parts[0]);
      var done := Trim(parts[1]) == "1";
      var desc := parts[2];
      match FromStorageCode(code)
      case None => LineErr(UnknownType(code))
      case Some(kind) =>
        if kind == TODO then LineOk(Todo(desc, done))
        else if kind == DEADLINE then
          if |parts| < 4 then LineErr(MissingDeadlineDate)
          else
            match DecodeStamp(parts[3])
            case None => LineErr(BadStamp(Trim(parts[3])))
            case Some(due) => LineOk(Deadline(desc, done, due))
        else
          if |parts| < 5 then LineErr(MissingEventDates)
          else
            match DecodeStamp(parts[3])
            case None => LineErr(BadStamp(Trim(parts[3])))
            case Some(start) =>
              match DecodeStamp(parts[4])
              case None => LineErr(BadStamp(Trim(parts[4])))
              case Some(end) => LineOk(Event(desc, done, start, end))
  }

  /** `Storage.parseLine`: split on tabs, then read the fields. */
  function ParseLine(line: string): (r: LineResult)
    ensures '\t' !in line ==> r == LineErr(Malformed)
    ensures r.LineOk? ==> WellFormedTask(r.task) && '\t' !in r.task.description
  {
    ParseFields(SplitTabs(line))
  }

  /**
   * A task survives the record format: its description holds no tab (the
   * field separator) and no line break (the record separator), a todo's
   * description is not empty (`split` would drop it as a trailing empty
   * field), and its stamps are what the reader produces.
   */
  predicate Storable(t: Task) {
    && '\t' !in t.description && '\n' !in t.description && '\r' !in t.description
    && (t.Todo? ==> t.description != "")
    && WellFormedTask(t)
  }

  /** The code and flag fields of a stored line are their own trim. */
  lemma HeadFieldsClean(t: Task)
    ensures Trim(Fields(t)[0]) == StorageCode(TypeOf(t)) && Trim(Fields(t)[1]) == (if t.done then "1" else "0")
    ensures FromStorageCode(Trim(Fields(t)[0])) == Some(TypeOf(t))
  {
    TrimOfClean(Fields(t)[0]);
    TrimOfClean(Fields(t)[1]);
    StorageCodeRoundTrip(TypeOf(t));
  }

  lemma ParseFieldsTodo(t: Task)
    requires t.Todo?
    ensures ParseFields(Fields(t)) == LineOk(t)
  {
    HeadFieldsClean(t);
  }

  lemma ParseFieldsDeadline(t: Task)
    requires t.Deadline? && WellFormedTask(t)
    ensures ParseFields(Fields(t)) == LineOk(t)
  {
    HeadFieldsClean(t);
    DecodeStampRoundTrip(t.due);
  }

  lemma ParseEventFields(parts: seq<string>, t: Task)
    requires t.Event? && |parts| >= 5
    requires FromStorageCode(Trim(parts[0])) == Some(EVENT)
    requires (Trim(parts[1]) == "1") == t.done && parts[2] == t.description
    requires DecodeStamp(parts[3]) == Some(t.start) && DecodeStamp(parts[4]) == Some(t.end)
    ensures ParseFields(parts) == LineOk(t)
  {
  }

  lemma ParseFieldsEvent(t: Task)
    requires t.Event? && WellFormedTask(t)
    ensures ParseFields(Fields(t)) == LineOk(t)
  {
    var fs := Fields(t);
    HeadFieldsClean(t);
    assert DecodeStamp(fs[3]) == Some(t.start) by { DecodeStampRoundTrip(t.start); }
    assert DecodeStamp(fs[4]) == Some(t.end) by { DecodeStampRoundTrip(t.end); }
    ParseEventFields(fs, t);
  }

  /** A storable task's line splits back into exactly the fields it was joined from. */
  lemma SplitEncode(t: Task)
    requires Storable(t)
    ensures SplitTabs(Encode(t)) == Fields(t)
  {
    var fs := Fields(t);
    var done := if t.done then "1" else "0";
    assert '\t' !in StorageCode(TypeOf(t)) && '\t' !in done;
    match t {
      case Todo(d, _) =>
        assert fs == [StorageCode(TODO), done, d];
      case Deadline(d, _, due) =>
        StorageStringNoTab(due);
        assert fs == [StorageCode(DEADLINE), done, d, StorageString(due)];
      case Event(d, _, start, end) =>
        StorageStringNoTab(start);
        StorageStringNoTab(end);
        assert fs == [StorageCode(EVENT), done, d, StorageString(start), StorageString(end)];
    }
    assert forall k :: 0 <= k < |fs| ==> '\t' !in fs[k];
    SplitJoin(fs);
  }

  /** Reading back the line written for a storable task gives the task itself. */
  lemma ParseEncode(t: Task)
    requires Storable(t)
    ensures ParseLine(Encode(t)) == LineOk(t)
  {
    SplitEncode(t);
    match t
    case Todo(_, _) => ParseFieldsTodo(t);
    case Deadline(_, _, _) => ParseFieldsDeadline(t);
    case Event(_, _, _, _) => ParseFieldsEvent(t);
  }

  lemma StorageStringNoTab(st: Stamp)
    ensures '\t' !in StorageString(st) && StorageString(st) != ""
  {
    StorageStringRuns(st);
    var s := StorageString(st);
    forall k | 0 <= k < |s|
      ensures s[k] != '\t'
    {
      assert !IsTrimmable(s[0]) && !IsTrimmable(s[|s| - 1]);
      if k < 4 { assert s[k] == s[0..4][k]; }
      else if 4 < k < 7 { assert s[k] == s[5..7][k - 5]; }
      else if 7 < k < 10 { assert s[k] == s[8..10][k - 8]; }
      else if 10 < k < 13 { assert s[k] == s[11..13][k - 11]; }
      else if 13 < k < 16 { assert s[k] == s[14..16][k - 14]; }
    }
  }

  /** The non-blank lines of the file, parsed; `None` as soon as one of them cannot be parsed. */
  function ParseLines(lines: seq<string>): (r: Option<seq<Task>>)
    ensures r.Some? ==> |r.value| <= |lines|
  {
    if lines == [] then Some([])
    else
      var rest := ParseLines(lines[1..]);
      if IsBlank(lines[0]) then rest
      else
        match ParseLine(lines[0])
        case LineErr(_) => None
        case LineOk(t) =>
          match rest
          case None => None
          case Some(ts) => Some([t] + ts)
  }

  /** Reading fails exactly when some non-blank line is malformed; what it reads is well formed. */
  lemma {:induction false} ParseLinesSpec(lines: seq<string>)
    ensures ParseLines(lines).None? <==>
      exists k :: 0 <= k < |lines| && !IsBlank(lines[k]) && ParseLine(lines[k]).LineErr?
    ensures ParseLines(lines).Some? ==> forall t :: t in ParseLines(lines).value ==> WellFormedTask(t)
    decreases |lines|
  {
    if lines != [] {
      ParseLinesSpec(lines[1..]);
      assert forall k :: 1 <= k < |lines| ==> lines[k] == lines[1..][k - 1];
    }
  }

  /** The lines that are not blank, in file order. */
  function NonBlank(lines: seq<string>): (r: seq<string>)
    ensures |r| <= |lines|
  {
    if lines == [] then []
    else if IsBlank(lines[0]) then NonBlank(lines[1..])
    else [lines[0]] + NonBlank(lines[1..])
  }

  /** `ts` is, task by task, the parse of each non-blank line of `lines`. */
  predicate ReadsNonBlank(lines: seq<string>, ts: seq<Task>) {
    && |ts| == |NonBlank(lines)|
    && forall k :: 0 <= k < |ts| ==> ParseLine(NonBlank(lines)[k]) == LineOk(ts[k])
  }

  /** A line read as `t` in front of lines read pointwise as `rest`: the joined lines are read pointwise as `[t] + rest`. */
  lemma ConsPointwise(read: string -> LineResult, line: string, lines: seq<string>, t: Task, rest: seq<Task>)
    requires read(line) == LineOk(t) && |lines| == |rest|
    requires forall k :: 0 <= k < |rest| ==> read(lines[k]) == LineOk(rest[k])
    ensures forall k :: 0 <= k < |rest| + 1 ==> read(([line] + lines)[k]) == LineOk(([t] + rest)[k])
  {
    forall k | 1 <= k < |rest| + 1
      ensures read(([line] + lines)[k]) == LineOk(([t] + rest)[k])
    {
      assert ([line] + lines)[k] == lines[k - 1] && ([t] + rest)[k] == rest[k - 1];
    }
  }

  /** One inductive step: a non-blank line that parses, in front of lines that read as their non-blank lines. */
  lemma NonBlankCons(lines: seq<string>, t: Task, rest: seq<Task>)
    requires lines != [] && !IsBlank(lines[0]) && ParseLine(lines[0]) == LineOk(t)
    requires ReadsNonBlank(lines[1..], rest)
    ensures ReadsNonBlank(lines, [t] + rest)
  {
    assert NonBlank(lines) == [lines[0]] + NonBlank(lines[1..]);
    ConsPointwise(ParseLine, lines[0], NonBlank(lines[1..]), t, rest);
  }

  /** What is read is, task by task, the parse of each non-blank line: blank lines are skipped and nothing else is. */
  lemma {:induction false} ParseLinesNonBlank(lines: seq<string>)
    ensures ParseLines(lines).Some? ==> ReadsNonBlank(lines, ParseLines(lines).value)
    decreases |lines|
  {
    if lines != [] {
      ParseLinesNonBlank(lines[1..]);
      if IsBlank(lines[0]) {
        assert NonBlank(lines) == NonBlank(lines[1..]);
      } else if ParseLines(lines).Some? {
        var head := ParseLine(lines[0]);
        assert head.LineOk? && ParseLines(lines[1..]).Some?;
        NonBlankCons(lines, head.task, ParseLines(lines[1..]).value);
      }
    }
  }

  /** What `load` returns, and whether it would have moved a corrupt file aside. */
  datatype LoadResult = LoadResult(tasks: seq<Task>, quarantined: bool)

  /**
   * `Storage.load`: no file means no tasks; otherwise every non-blank line
   * must parse, and a single bad line makes the whole load come back empty.
   */
  function Load(file: Option<seq<string>>): (r: LoadResult)
    ensures file.None? ==> r == LoadResult([], false)
    ensures r.quarantined ==> r.tasks == []
    ensures r.quarantined <==>
      file.Some? && exists k :: 0 <= k < |file.value| && !IsBlank(file.value[k]) && ParseLine(file.value[k]).LineErr?
    ensures forall t :: t in r.tasks ==> WellFormedTask(t)
    ensures file.Some? && !r.quarantined ==> ReadsNonBlank(file.value, r.tasks)
  {
    match file
    case None => LoadResult([], false)
    case Some(lines) =>
      ParseLinesSpec(lines);
      ParseLinesNonBlank(lines);
      match ParseLines(lines)
      case None => LoadResult([], true)
      case Some(ts) => LoadResult(ts, false)
  }

  /** `Storage.save`: the lines written, one per task, in list order. */
  function SaveLines(tasks: seq<Task>): (r: seq<string>)
    ensures |r| == |tasks|
  {
    if tasks == [] then [] else [Encode(tasks[0])] + SaveLines(tasks[1..])
  }

  /** Line `k` of the file is the encoding of task `k`. */
  lemma {:induction false} SaveLinesEncode(tasks: seq<Task>)
    ensures forall k :: 0 <= k < |tasks| ==> SaveLines(tasks)[k] == Encode(tasks[k])
    decreases |tasks|
  {
    if tasks != [] {
      SaveLinesEncode(tasks[1..]);
    }
  }

  /** No stored line is blank: each starts with its kind's code. */
  lemma EncodeNotBlank(t: Task)
    ensures !IsBlank(Encode(t))
  {
    var c := Encode(t)[0];
    assert c == 'T' || c == 'D' || c == 'E';
  }

  /** A non-blank line that parses, in front of lines that parse: the tasks read are that task followed by theirs. */
  lemma ParseLinesCons(line: string, rest: seq<string>, t: Task, ts: seq<Task>)
    requires !IsBlank(line) && ParseLine(line) == LineOk(t) && ParseLines(rest) == Some(ts)
    ensures ParseLines([line] + rest) == Some([t] + ts)
  {
    assert ([line] + rest)[1..] == rest;
  }

  /** One inductive step of reading back saved lines: a storable task in front of lines that read back. */
  lemma SavedCons(tasks: seq<Task>)
    requires tasks != [] && Storable(tasks[0])
    requires ParseLines(SaveLines(tasks[1..])) == Some(tasks[1..])
    ensures ParseLines(SaveLines(tasks)) == Some(tasks)
  {
    var line := Encode(tasks[0]);
    assert SaveLines(tasks) == [line] + SaveLines(tasks[1..]);
    EncodeNotBlank(tasks[0]);
    ParseEncode(tasks[0]);
    ParseLinesCons(line, SaveLines(tasks[1..]), tasks[0], tasks[1..]);
    assert [tasks[0]] + tasks[1..] == tasks;
  }

  lemma {:induction false} ParseSaved(tasks: seq<Task>)
    requires forall t :: t in tasks ==> Storable(t)
    ensures ParseLines(SaveLines(tasks)) == Some(tasks)
    decreases |tasks|
  {
    if tasks != [] {
      assert Storable(tasks[0]);
      assert forall t :: t in tasks[1..] ==> t in tasks;
      ParseSaved(tasks[1..]);
      SavedCons(tasks);
    }
  }

  /** Loading what was saved gives back the same list, as long as every task is storable. */
  lemma LoadSaveRoundTrip(tasks: seq<Task>)
    requires forall t :: t in tasks ==> Storable(t)
    ensures Load(Some(SaveLines(tasks))) == LoadResult(tasks, false)
  {
    ParseSaved(tasks);
  }

  /** An empty todo is saved as `T<tab>0<tab>`, which reads back as a malformed line and empties the whole load. */
  lemma EmptyTodoIsLost(done: bool)
    ensures ParseLine(Encode(Todo("", done))) == LineErr(Malformed)
    ensures Load(Some(SaveLines([Todo("", done)]))) == LoadResult([], true)
  {
    var fs := Fields(Todo("", done));
    var s := Encode(Todo("", done));
    assert s == fs[0] + "\t" + (fs[1] + "\t" + "");
    assert '\t' in s by { assert s[1] == '\t'; }
    var all := SplitAll(s);
    assert IndexOfChar(s, '\t') == 1 by { assert s[1] == '\t'; }
    assert s[2..] == fs[1] + "\t";
    assert IndexOfChar(s[2..], '\t') == 1 by { assert s[2..][1] == '\t'; }
    assert s[2..][2..] == "";
    assert SplitAll("") == [""];
    assert s[..1] == fs[0] && s[2..][..1] == fs[1];
    assert SplitAll(s[2..]) == [fs[1]] + SplitAll("");
    assert all == [fs[0], fs[1], ""];
    assert DropTrailingEmpty(all) == [fs[0], fs[1]] by {
      assert all[..2] == [fs[0], fs[1]];
    }
    assert SaveLines([Todo("", done)])[0] == s;
    EncodeNotBlank(Todo("", done));
  }
}
