/**
 * `NLPService.extractActions`: split a transcript on '.', trim every piece, skip the
 * empty ones, and keep a piece as a `Task` when it uses action vocabulary, names a date
 * that `DateUtils.parseDateTime` resolves, or uses key-point vocabulary.
 *
 * The rules are stated for any date resolver `dates`; the operation uses
 * `ParseDateTimeAt(now, parse, rule)`, which is `parseDateTime` with the clock reading
 * `now` and the weekday rule `rule` (`AsWritten` for the source's own behaviour).
 */
module NLPService {
  import opened Wrappers
  import opened Text
  import opened Calendar
  import opened DateFormat
  import DateUtils
  import opened Tasks
  import opened Collecting

  const ACTION_KEYWORDS: seq<string> := ["need to", "should", "must", "task", "action item", "follow up", "we will"]
  const KEY_POINT_KEYWORDS: seq<string> := ["important", "key point", "remember", "note that"]

  /** `keywords.any { s.contains(it) }`. */
  predicate ContainsAny(s: string, keywords: seq<string>) {
    exists k :: 0 <= k < |keywords| && Contains(s, keywords[k])
  }

  predicate IsAction(line: string) {
    ContainsAny(Lower(line), ACTION_KEYWORDS)
  }

  predicate IsKeyPoint(line: string) {
    ContainsAny(Lower(line), KEY_POINT_KEYWORDS)
  }

  // ---------------------------------------------------------------------------
  // Specification

  /** What a piece of text resolves to as a due date. */
  type DateResolver = string -> Option<Instant>

  /** `DateUtils.parseDateTime` with the clock reading `now`, under weekday rule `rule`. */
  function ParseDateTimeAt(now: Instant, parse: DateParser, rule: DateUtils.WeekdayRule): DateResolver {
    text => DateUtils.DateTimeOf(text, now, parse, rule)
  }

  /** The task one piece of the split transcript contributes, if any. */
  function TaskOf(line: string, dates: DateResolver): Option<Task> {
    var trimmed := Trim(line);
    if trimmed == [] then None
    else
      var dateTime := dates(trimmed);
      var isKeyPoint := IsKeyPoint(trimmed);
      if IsAction(trimmed) || dateTime.Some? || isKeyPoint then Some(Task(trimmed, dateTime, isKeyPoint))
      else None
  }

  /** `TaskOf` as a function of the piece. */
  function Contribute(dates: DateResolver): string -> Option<Task> {
    line => TaskOf(line, dates)
  }

  /** The tasks of a transcript; `extractActions(text)` returns `Extracted(text, ParseDateTimeAt(now, parse, rule))`. */
  function Extracted(text: string, dates: DateResolver): seq<Task> {
    Somes(MapSeq(Contribute(dates), Split(text, '.')))
  }

  // ---------------------------------------------------------------------------
  // The operation

  /** Applying the resolver is running `parseDateTime` on the text. */
  lemma ResolverApplies(text: string, now: Instant, parse: DateParser, rule: DateUtils.WeekdayRule)
    ensures ParseDateTimeAt(now, parse, rule)(text) == DateUtils.DateTimeOf(text, now, parse, rule)
  {
  }

  /** The body of the `forEach` over the pieces: the task one piece contributes, if any. */
  method PieceTask(line: string, now: Instant, parse: DateParser, rule: DateUtils.WeekdayRule) returns (task: Option<Task>)
    ensures task == TaskOf(line, ParseDateTimeAt(now, parse, rule))
  {
    task := None;
    var trimmedLine := Trim(line);
    if trimmedLine != [] {
      var isAction := IsAction(trimmedLine);
      var dateTime := DateUtils.ParseDateTime(trimmedLine, now, parse, rule);
      ResolverApplies(trimmedLine, now, parse, rule);
      var isKeyPoint := IsKeyPoint(trimmedLine);
      if isAction || dateTime.Some? || isKeyPoint {
        task := Some(Task(trimmedLine, dateTime, isKeyPoint));
      }
    }
  }

  /** The i-th entry of the contributions is the i-th piece's task. */
  lemma ContributionAt(lines: seq<string>, dates: DateResolver, i: nat)
    requires i < |lines|
    ensures MapSeq(Contribute(dates), lines)[i] == TaskOf(lines[i], dates)
  {
  }

  /** Collecting one more contribution appends its task, if it has one. */
  lemma CollectStep(contributions: seq<Option<Task>>, i: nat)
    requires i < |contributions|
    ensures Somes(contributions[..i + 1]) ==
      Somes(contributions[..i]) + (if contributions[i].Some? then [contributions[i].value] else [])
  {
    assert contributions[..i + 1] == contributions[..i] + [contributions[i]];
    SomesSnoc(contributions[..i], contributions[i]);
  }

  method ExtractActions(text: string, now: Instant, parse: DateParser, rule: DateUtils.WeekdayRule) returns (tasks: seq<Task>)
    ensures tasks == Extracted(text, ParseDateTimeAt(now, parse, rule))
  {
    tasks := [];
    var lines := Split(text, '.');
    ghost var dates := ParseDateTimeAt(now, parse, rule);
    ghost var contributions := MapSeq(Contribute(dates), lines);
    for i := 0 to |lines|
      invariant tasks == Somes(contributions[..i])
    {
      var task := PieceTask(lines[i], now, parse, rule);
      ContributionAt(lines, dates, i);
      CollectStep(contributions, i);
      if task.Some? {
        tasks := tasks + [task.value];
      }
    }
    assert contributions[..|lines|] == contributions;
  }

  // ---------------------------------------------------------------------------
  // Properties

  /**
   * Extraction is compositional: the tasks of `a + "." + b` are the tasks of `a` followed
   * by the tasks of `b`.
   */
  lemma ExtractConcat(a: string, b: string, dates: DateResolver)
    ensures Extracted(a + "." + b, dates) == Extracted(a, dates) + Extracted(b, dates)
  {
    assert a + "." + b == a + ['.'] + b;
    SplitAppend(a, b, '.');
    var x, y, f := Split(a, '.'), Split(b, '.'), Contribute(dates);
    assert MapSeq(f, x + y) == MapSeq(f, x) + MapSeq(f, y);
    SomesAppend(MapSeq(f, x), MapSeq(f, y));
  }

  /**
   * The tasks follow the order of the pieces of `split(".")`: the k-th task comes from
   * piece `idx[k]`, these positions strictly increase, and a piece is among them exactly
   * when it contributes a task. In particular there are never more tasks than pieces, and
   * there is one piece more than there are periods.
   */
  lemma TasksInSegmentOrder(text: string, dates: DateResolver) returns (idx: seq<nat>)
    ensures var lines, tasks := Split(text, '.'), Extracted(text, dates);
      && |idx| == |tasks| <= |lines| == Count(text, '.') + 1
      && (forall k :: 0 <= k < |idx| ==> idx[k] < |lines| && TaskOf(lines[idx[k]], dates) == Some(tasks[k]))
      && (forall k, l :: 0 <= k < l < |idx| ==> idx[k] < idx[l])
      && (forall i :: 0 <= i < |lines| ==> (i in idx <==> TaskOf(lines[i], dates).Some?))
  {
    var lines := Split(text, '.');
    var xs := MapSeq(Contribute(dates), lines);
    PositionsHoldValues(xs, 0);
    PositionsIncrease(xs, 0);
    PositionsCoverValues(xs, 0);
    assert xs[0..] == xs;
    idx := PositionsFrom(xs, 0);
    forall k | 0 <= k < |idx|
      ensures idx[k] < |lines| && TaskOf(lines[idx[k]], dates) == Some(Extracted(text, dates)[k])
    {
      assert xs[idx[k]] == TaskOf(lines[idx[k]], dates);
    }
    forall i | 0 <= i < |lines|
      ensures i in idx <==> TaskOf(lines[i], dates).Some?
    {
      assert xs[i] == TaskOf(lines[i], dates);
    }
    IncreasingBelow(idx, |lines|);
  }

  /** A piece yields a task exactly when, once trimmed, it is non-empty and carries one of the three signals. */
  lemma SegmentYieldsTaskIff(line: string, dates: DateResolver)
    ensures TaskOf(line, dates).Some? <==>
      var t := Trim(line);
      t != [] && (IsAction(t) || dates(t).Some? || IsKeyPoint(t))
  {
  }

  /**
   * The task a piece yields describes that piece trimmed: non-empty, without leading or
   * trailing whitespace and without a period when the piece has none; its due date is
   * what the resolver makes of the description and its key-point flag says whether
   * key-point vocabulary occurs.
   */
  lemma PieceTaskShape(line: string, dates: DateResolver)
    requires TaskOf(line, dates).Some?
    ensures var t := TaskOf(line, dates).value;
      && t.description == Trim(line) != []
      && !IsWhitespace(t.description[0]) && !IsWhitespace(t.description[|t.description| - 1])
      && ('.' !in line ==> '.' !in t.description)
      && t.dueDate == dates(t.description)
      && t.isKeyPoint == IsKeyPoint(t.description)
      && (IsAction(t.description) || t.dueDate.Some? || t.isKeyPoint)
  {
    var trimmed := Trim(line);
    assert TaskOf(line, dates).value == Task(trimmed, dates(trimmed), IsKeyPoint(trimmed));
    if '.' !in line {
      TrimKeepsAbsentChar(line, '.');
    }
  }

  /** The k-th task of a transcript has the shape of a task of one of its pieces, with no period in its description. */
  lemma TaskShape(text: string, dates: DateResolver, k: nat)
    requires k < |Extracted(text, dates)|
    ensures var t := Extracted(text, dates)[k];
      && t.description != []
      && !IsWhitespace(t.description[0]) && !IsWhitespace(t.description[|t.description| - 1])
      && '.' !in t.description
      && t.dueDate == dates(t.description)
      && t.isKeyPoint == IsKeyPoint(t.description)
      && (IsAction(t.description) || t.dueDate.Some? || t.isKeyPoint)
  {
    var lines := Split(text, '.');
    var xs := MapSeq(Contribute(dates), lines);
    PositionsHoldValues(xs, 0);
    assert xs[0..] == xs;
    var i := PositionsFrom(xs, 0)[k];
    assert xs[i] == TaskOf(lines[i], dates);
    PieceTaskShape(lines[i], dates);
  }

  /** The due date `extractActions` attaches is `parseDateTime` of the description, read against the same clock. */
  lemma DueDateIsParseDateTime(text: string, now: Instant, parse: DateParser, rule: DateUtils.WeekdayRule, k: nat)
    requires k < |Extracted(text, ParseDateTimeAt(now, parse, rule))|
    ensures var t := Extracted(text, ParseDateTimeAt(now, parse, rule))[k];
      t.dueDate == DateUtils.DateTimeOf(t.description, now, parse, rule)
  {
    TaskShape(text, ParseDateTimeAt(now, parse, rule), k);
  }

  /** A transcript of whitespace alone, with no period, yields no task. */
  lemma BlankYieldsNothing(text: string, dates: DateResolver)
    requires '.' !in text
    requires forall i :: 0 <= i < |text| ==> IsWhitespace(text[i])
    ensures Extracted(text, dates) == []
  {
    SplitWithoutSeparator(text, '.');
    assert Trim(text) == [];
    var xs := MapSeq(Contribute(dates), [text]);
    assert xs == [None];
    assert xs[1..] == [];
    assert Somes(xs) == [];
  }
}
