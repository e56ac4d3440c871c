/** The producer side of one run (main.go:56-137): days in loop order, the
    entries of each day's archive in order, the values of each entry in
    stream order, every value decoded strictly and projected, and the first
    error of any stage ending the run.

    Fetching a day, opening the archive and gunzipping an entry are done by
    libraries and the network; the model receives their results as values.
 */
module Pipeline {
  import opened Base
  import opened Decoding
  import opened Projection
  import opened DayRange

  /** One entry of a day's zip archive. */
  datatype Shard =
    | Shard(name: string, items: seq<Item>)   // opened and gunzipped: its values in stream order
    | Unopenable                             // the entry does not open or has no valid gzip header

  /** What fetching one day produced. */
  datatype DayExport =
    | Archive(shards: seq<Shard>)   // status 200 and a readable zip: its entries in archive order
    | FetchFailed                   // a transport error, a status other than 200, or a failed body read
    | NotAZip                       // the body is not a readable zip container

  /** What the producer meets at each point of its input, in order: a
      decoded event, or the error that stops it. A failure to fetch a day
      or open an archive or entry shows up where its contents would be. */
  type Step = Result<RawEvent, Fatal>

  /** What the producer achieved: every row it wrote when the input ran out,
      or the fatal error together with the rows it wrote before it. */
  datatype Outcome =
    | Completed(rows: seq<Row>)
    | Aborted(error: Fatal, written: seq<Row>)

  /** The rows handed to the CSV writer, whichever way the run ended. */
  function Written(o: Outcome): seq<Row> {
    match o
    case Completed(rows) => rows
    case Aborted(_, written) => written
  }

  function Concat<T>(ss: seq<seq<T>>): (r: seq<T>)
    ensures |ss| == 1 ==> r == ss[0]
  {
    if |ss| == 0 then [] else Concat(ss[..|ss| - 1]) + ss[|ss| - 1]
  }

  /** Each value of an entry decoded on its own, in stream order. */
  function DecodeAll(items: seq<Item>): (r: seq<Step>)
    ensures |r| == |items|
    ensures forall i :: 0 <= i < |items| ==> r[i] == Decode(items[i])
  {
    if |items| == 0 then []
    else
      var rest := items[1..];
      assert forall i :: 1 <= i < |items| ==> items[i] == rest[i - 1];
      [Decode(items[0])] + DecodeAll(rest)
  }

  function ShardSteps(s: Shard): seq<Step> {
    match s
    case Shard(_, items) => DecodeAll(items)
    case Unopenable => [Failure(ExtractError)]
  }

  function DaySteps(d: DayExport): seq<Step> {
    match d
    case Archive(shards) => Concat(seq(|shards|, j requires 0 <= j < |shards| => ShardSteps(shards[j])))
    case FetchFailed => [Failure(FetchError)]
    case NotAZip => [Failure(ExtractError)]
  }

  /** Days, then entries, then values, flattened in loop order. */
  function Flatten(days: seq<DayExport>): seq<Step> {
    Concat(seq(|days|, i requires 0 <= i < |days| => DaySteps(days[i])))
  }

  function Prepend(rows: seq<Row>, o: Outcome): (r: Outcome)
    ensures r.Completed? == o.Completed?
    ensures Written(r) == rows + Written(o)
  {
    match o
    case Completed(rest) => Completed(rows + rest)
    case Aborted(e, rest) => Aborted(e, rows + rest)
  }

  /** The decode loop: each value is decoded, skipped when it has no user id
      and written otherwise; the first error stops everything. */
  function Consume(steps: seq<Step>): Outcome {
    if |steps| == 0 then Completed([])
    else match steps[0]
      case Failure(e) => Aborted(e, [])
      case Success(ev) => Prepend(Rows([ev]), Consume(steps[1..]))
  }

  // ---------------------------------------------------------------------
  // The loop-free description of the same result
  // ---------------------------------------------------------------------

  predicate AllDecode(steps: seq<Step>) {
    forall i :: 0 <= i < |steps| ==> steps[i].Success?
  }

  function Events(steps: seq<Step>): (es: seq<RawEvent>)
    requires AllDecode(steps)
    ensures |es| == |steps|
    ensures forall i :: 0 <= i < |steps| ==> es[i] == steps[i].value
  {
    seq(|steps|, i requires 0 <= i < |steps| => steps[i].value)
  }

  /** Index of the first step that does not decode, if any. */
  function FirstFailure(steps: seq<Step>): (r: Option<nat>)
    ensures r.None? <==> AllDecode(steps)
    ensures r.Some? ==> r.value < |steps| && steps[r.value].Failure? && AllDecode(steps[..r.value])
  {
    if |steps| == 0 then None
    else if steps[0].Failure? then Some(0)
    else match FirstFailure(steps[1..])
      case None =>
        assert forall i :: 1 <= i < |steps| ==> steps[i] == steps[1..][i - 1];
        None
      case Some(k) =>
        assert forall i :: 1 <= i < k + 1 ==> steps[i] == steps[1..][i - 1];
        Some(k + 1)
  }

  /** What the run amounts to: with no failing step, the filter-map of all
      decoded events; otherwise the first failure's error, with the rows of
      the events before it and none of the events after it. */
  function Expected(steps: seq<Step>): Outcome {
    match FirstFailure(steps)
    case None => Completed(Rows(Events(steps)))
    case Some(k) => Aborted(steps[k].error, Rows(Events(steps[..k])))
  }

  lemma FirstFailureAt(steps: seq<Step>, k: nat)
    requires k < |steps| && steps[k].Failure? && AllDecode(steps[..k])
    ensures FirstFailure(steps) == Some(k)
  {
  }

  lemma EventsCons(steps: seq<Step>)
    requires |steps| > 0 && AllDecode(steps)
    ensures AllDecode(steps[1..])
    ensures Events(steps) == [steps[0].value] + Events(steps[1..])
  {
    assert forall i :: 0 <= i < |steps| - 1 ==> steps[1..][i] == steps[i + 1];
  }

  /** The decode loop computes exactly the loop-free description. */
  lemma {:induction false} ConsumeIsExpected(steps: seq<Step>)
    ensures Consume(steps) == Expected(steps)
  {
    if |steps| > 0 && steps[0].Success? {
      var ev := steps[0].value;
      var rest := steps[1..];
      ConsumeIsExpected(rest);
      match FirstFailure(rest)
      case None =>
        assert AllDecode(steps) by {
          assert forall i :: 1 <= i < |steps| ==> steps[i] == rest[i - 1];
        }
        EventsCons(steps);
        RowsAppend([ev], Events(rest));
      case Some(k) =>
        var upto := steps[..k + 1];
        assert upto == [steps[0]] + rest[..k];
        forall i | 1 <= i < k + 1
          ensures upto[i].Success?
        {
          assert upto[i] == rest[..k][i - 1];
        }
        FirstFailureAt(steps, k + 1);
        EventsCons(steps[..k + 1]);
        assert steps[..k + 1][1..] == rest[..k];
        RowsAppend([ev], Events(rest[..k]));
    }
  }

  /** The run over clean input completes and writes one row per event with a
      user id; a failed run writes only the rows before the failure. */
  lemma RowCount(steps: seq<Step>)
    ensures Consume(steps).Completed? <==> AllDecode(steps)
    ensures AllDecode(steps) ==> |Written(Consume(steps))| == Kept(Events(steps))
    ensures !AllDecode(steps) ==>
      var k := FirstFailure(steps).value;
      |Written(Consume(steps))| == Kept(Events(steps[..k]))
  {
    ConsumeIsExpected(steps);
    match FirstFailure(steps)
    case None => RowsLength(Events(steps));
    case Some(k) => RowsLength(Events(steps[..k]));
  }

  /** The run stops at the first failing step with that step's error,
      having written exactly the rows of the steps before it. */
  lemma ConsumeStopsAt(steps: seq<Step>, k: nat)
    requires k < |steps| && steps[k].Failure? && AllDecode(steps[..k])
    ensures Consume(steps) == Aborted(steps[k].error, Rows(Events(steps[..k])))
  {
    FirstFailureAt(steps, k);
    ConsumeIsExpected(steps);
  }

  /** Strictness halts the run: the first value carrying a key outside the
      tag set ends it with that decode error, and no value from there on
      yields a row. */
  lemma UnknownKeyStopsRun(steps: seq<Step>, k: nat, ms: seq<Member>, i: nat)
    requires k < |steps| && steps[k] == Decode(Object(ms))
    requires i < |ms| && !Schema.IsKnownKey(ms[i].key)
    requires AllDecode(steps[..k])
    ensures Consume(steps).Aborted?
    ensures Consume(steps).error.DecodeError? && Consume(steps).error.cause.UnknownField?
    ensures Written(Consume(steps)) == Rows(Events(steps[..k]))
  {
    UnknownKeyRejected(ms, i);
    ConsumeStopsAt(steps, k);
  }

  // ---------------------------------------------------------------------
  // The producer loop
  // ---------------------------------------------------------------------

  /** The decode-and-write loop as the program runs it, over the flattened
      steps, accumulating the rows handed to the writer. */
  method Produce(steps: seq<Step>) returns (o: Outcome)
    ensures o == Expected(steps)
  {
    var written: seq<Row> := [];
    var i := 0;
    while i < |steps|
      invariant i <= |steps|
      invariant AllDecode(steps[..i])
      invariant written == Rows(Events(steps[..i]))
    {
      var r := steps[i];
      if r.Failure? {
        FirstFailureAt(steps, i);
        return Aborted(r.error, written);
      }
      var prefix := steps[..i];
      assert steps[..i + 1] == prefix + [steps[i]];
      assert Events(steps[..i + 1]) == Events(prefix) + [r.value];
      RowsAppend(Events(prefix), [r.value]);
      match Project(r.value) {
        case None =>
        case Some(row) => written := written + [row];
      }
      i := i + 1;
    }
    assert steps[..i] == steps;
    o := Completed(written);
  }

  // ---------------------------------------------------------------------
  // Output order: days, then archive entries, then values
  // ---------------------------------------------------------------------

  lemma PrependPrepend(x: seq<Row>, y: seq<Row>, o: Outcome)
    ensures Prepend(x, Prepend(y, o)) == Prepend(x + y, o)
  {
    match o
    case Completed(r) => assert x + (y + r) == (x + y) + r;
    case Aborted(e, w) => assert x + (y + w) == (x + y) + w;
  }

  /** Consuming two stretches of input one after the other: the second
      stretch is reached only if the first completes, and then its rows
      follow the first stretch's rows. */
  lemma {:induction false} ConsumeAppend(a: seq<Step>, b: seq<Step>)
    ensures Consume(a + b) ==
      (if Consume(a).Completed? then Prepend(Written(Consume(a)), Consume(b)) else Consume(a))
  {
    if |a| == 0 {
      assert a + b == b;
      match Consume(b)
      case Completed(r) => assert [] + r == r;
      case Aborted(e, w) => assert [] + w == w;
    } else {
      assert (a + b)[0] == a[0];
      assert (a + b)[1..] == a[1..] + b;
      ConsumeAppend(a[1..], b);
      match a[0]
      case Failure(_) =>
      case Success(ev) =>
        if Consume(a[1..]).Completed? {
          PrependPrepend(Rows([ev]), Written(Consume(a[1..])), Consume(b));
        }
    }
  }

  /** The rows of every part, in order. */
  function PartRows(parts: seq<seq<Step>>): seq<seq<Row>> {
    seq(|parts|, i requires 0 <= i < |parts| => Written(Consume(parts[i])))
  }

  /** A completed run over parts laid end to end writes each part's own
      rows, part after part. */
  lemma {:induction false} ConsumeConcat(parts: seq<seq<Step>>)
    requires Consume(Concat(parts)).Completed?
    ensures forall i :: 0 <= i < |parts| ==> Consume(parts[i]).Completed?
    ensures Written(Consume(Concat(parts))) == Concat(PartRows(parts))
  {
    if |parts| > 0 {
      var n := |parts| - 1;
      var init, last := parts[..n], parts[n];
      assert Concat(parts) == Concat(init) + last;
      ConsumeAppend(Concat(init), last);
      var head := Consume(Concat(init));
      assert head.Completed?;
      ConsumeConcat(init);
      var rows := PartRows(parts);
      assert rows[..n] == PartRows(init);
      assert Concat(rows) == Concat(PartRows(init)) + rows[n];
      assert Consume(last).Completed?;
      forall i | 0 <= i < |parts|
        ensures Consume(parts[i]).Completed?
      {
        if i < n {
          assert parts[i] == init[i];
        }
      }
    }
  }

  /** The rows one archive entry yields on its own. */
  function ShardRows(s: Shard): seq<Row> {
    Written(Consume(ShardSteps(s)))
  }

  /** The rows of one day: its entries' rows in archive order. */
  function DayRows(d: DayExport): seq<Row> {
    match d
    case Archive(shards) => Concat(seq(|shards|, j requires 0 <= j < |shards| => ShardRows(shards[j])))
    case _ => []
  }

  lemma DayRowsOfCompletedDay(d: DayExport)
    requires Consume(DaySteps(d)).Completed?
    ensures d.Archive?
    ensures forall j :: 0 <= j < |d.shards| ==> d.shards[j].Shard?
    ensures Written(Consume(DaySteps(d))) == DayRows(d)
  {
    match d
    case Archive(shards) =>
      var parts := seq(|shards|, j requires 0 <= j < |shards| => ShardSteps(shards[j]));
      ConsumeConcat(parts);
      forall j | 0 <= j < |shards|
        ensures shards[j].Shard?
      {
        assert Consume(parts[j]).Completed?;
      }
      assert PartRows(parts) == seq(|shards|, j requires 0 <= j < |shards| => ShardRows(shards[j]));
    case FetchFailed =>
    case NotAZip =>
  }

  /** A run that completes fetched every day and opened every archive and
      entry, and its rows are the concatenation over days in loop order,
      then over each day's entries in archive order, of what each entry
      yields in stream order. */
  lemma CompletedRunIsNested(days: seq<DayExport>)
    requires Consume(Flatten(days)).Completed?
    ensures forall i :: 0 <= i < |days| ==> days[i].Archive?
    ensures forall i, j :: 0 <= i < |days| && 0 <= j < |days[i].shards| ==> days[i].shards[j].Shard?
    ensures Written(Consume(Flatten(days))) ==
      Concat(seq(|days|, i requires 0 <= i < |days| => DayRows(days[i])))
  {
    var parts := seq(|days|, i requires 0 <= i < |days| => DaySteps(days[i]));
    ConsumeConcat(parts);
    forall i | 0 <= i < |days|
      ensures days[i].Archive?
      ensures forall j :: 0 <= j < |days[i].shards| ==> days[i].shards[j].Shard?
      ensures PartRows(parts)[i] == DayRows(days[i])
    {
      assert Consume(parts[i]).Completed?;
      DayRowsOfCompletedDay(days[i]);
    }
    assert PartRows(parts) == seq(|days|, i requires 0 <= i < |days| => DayRows(days[i]));
  }

  // ---------------------------------------------------------------------
  // A whole run
  // ---------------------------------------------------------------------

  /** The exports of the visited instants, fetched in visiting order. */
  function Fetched(ticks: seq<int>, fetch: int -> DayExport): seq<DayExport> {
    seq(|ticks|, i requires 0 <= i < |ticks| => fetch(ticks[i]))
  }

  /** One run of the producer: DAYS is parsed, the day loop walks from the
      look-back start to the second clock reading, and `fetch` stands for
      the network, the archive reader and the gzip reader of each day. */
  function Run(env: string, now0: int, now1: int, fetch: int -> DayExport): Outcome {
    match DaysSetting(env)
    case Failure(e) => Aborted(e, [])
    case Success(n) => Consume(Flatten(Fetched(DayTicks(StartTick(n, now0), now1), fetch)))
  }

  /** A non-empty DAYS value that spells no int64 ends the run with a
      configuration error before any day is fetched. */
  lemma UnparsableDaysAborts(env: string, now0: int, now1: int, fetch: int -> DayExport)
    requires env != "" && forall v :: !(MinInt64 <= v <= MaxInt64 && Spells(env, v))
    ensures Run(env, now0, now1, fetch) == Aborted(ConfigError, [])
  {
    if DaysSetting(env).Success? {
      DaysSettingAcceptsExactly(env, DaysSetting(env).value);
      assert false;
    }
  }

  /** With a look-back of n whole days (0 <= n <= 106751) and clock readings
      less than a day apart, the run fetches exactly the n + 1 instants
      now0 - n days, ..., now0 - 1 day, now0, in that order. */
  lemma RunFetchesLookBackDays(env: string, n: int, now0: int, now1: int, fetch: int -> DayExport)
    requires DaysSetting(env) == Success(n) && 0 <= n <= MaxWholeDays
    requires now0 <= now1 < now0 + Day
    ensures Run(env, now0, now1, fetch) ==
      Consume(Flatten(seq(n + 1, k requires 0 <= k < n + 1 => fetch(now0 - (n - k) * Day))))
  {
    var ticks := DayTicks(StartTick(n, now0), now1);
    LookBackVisitsDaysPlusOne(n, now0, now1);
    var fetched := Fetched(ticks, fetch);
    assert fetched == seq(n + 1, k requires 0 <= k < n + 1 => fetch(now0 - (n - k) * Day));
  }

  /** Without DAYS the run fetches 41 days, ending with the current one. */
  lemma DefaultRunFetchesFortyOneDays(now0: int, now1: int, fetch: int -> DayExport)
    requires now0 <= now1 < now0 + Day
    ensures Run("", now0, now1, fetch) ==
      Consume(Flatten(seq(41, k requires 0 <= k < 41 => fetch(now0 - (40 - k) * Day))))
  {
    RunFetchesLookBackDays("", 40, now0, now1, fetch);
  }

  /** A negative DAYS value puts the start after the end: nothing is fetched
      and the run completes without writing a row. */
  lemma NegativeDaysRunWritesNothing(env: string, n: int, now0: int, now1: int, fetch: int -> DayExport)
    requires DaysSetting(env) == Success(n) && -MaxWholeDays <= n < 0
    requires now0 <= now1 < now0 + Day
    ensures Run(env, now0, now1, fetch) == Completed([])
  {
    NegativeLookBackVisitsNothing(n, now0, now1);
    assert Fetched([], fetch) == [];
    assert Flatten([]) == [];
  }

  lemma SkipBetweenTwoRows(steps: seq<Step>, ea: RawEvent, ec: RawEvent)
    requires HasUser(ea) && HasUser(ec)
    requires steps == [Success(ea), Success(EmptyEvent), Success(ec)]
    ensures Consume(steps) == Completed([Cells(ea), Cells(ec)])
  {
    var last := [Success(ec)];
    assert steps[1..][1..] == last;
    assert last[1..] == [];
    SingleEventRows(ea);
    SingleEventRows(EmptyEvent);
    SingleEventRows(ec);
    assert Consume(last) == Completed([Cells(ec)]);
    assert Consume(steps[1..]) == Completed([Cells(ec)]);
  }

  lemma OneEntryDay(s: Shard)
    ensures DaySteps(Archive([s])) == ShardSteps(s)
  {
    assert seq(1, j requires 0 <= j < 1 => ShardSteps([s][j])) == [ShardSteps(s)];
  }

  lemma SameDayTwice(d: DayExport)
    ensures Flatten([d, d]) == DaySteps(d) + DaySteps(d)
  {
    var parts := seq(2, i requires 0 <= i < 2 => DaySteps([d, d][i]));
    assert parts == [DaySteps(d), DaySteps(d)];
    assert parts[..1] == [DaySteps(d)];
  }

  /** The example's entry: three values of which the middle one has no user
      id, the last spelling its key in mixed case. */
  function ExampleShard(): Shard {
    Shard("0.json.gz", [Object([Member("user_id", "u1")]), Object([]), Object([Member("User_ID", "u3")])])
  }

  lemma ThreeItemSteps(name: string, a: Item, b: Item, c: Item)
    ensures ShardSteps(Shard(name, [a, b, c])) == [Decode(a), Decode(b), Decode(c)]
  {
    var items := [a, b, c];
    var steps := ShardSteps(Shard(name, items));
    assert |steps| == 3;
    assert steps[0] == Decode(items[0]) && steps[1] == Decode(items[1]) && steps[2] == Decode(items[2]);
  }

  lemma ExampleShardSteps()
    ensures ShardSteps(ExampleShard()) ==
      [Success(RawEvent("", "", "u1", "", "")), Success(EmptyEvent), Success(RawEvent("", "", "u3", "", ""))]
  {
    Schema.MixedCaseUserIdMatches();
    OnlyUserIdObject("user_id", "u1");
    OnlyUserIdObject("User_ID", "u3");
    EmptyObjectDecodes();
    ThreeItemSteps("0.json.gz", Object([Member("user_id", "u1")]), Object([]), Object([Member("User_ID", "u3")]));
  }

  lemma ExampleShardRows()
    ensures Consume(ShardSteps(ExampleShard())) == Completed([["", "", "u1", "", ""], ["", "", "u3", "", ""]])
  {
    ExampleShardSteps();
    SkipBetweenTwoRows(ShardSteps(ExampleShard()), RawEvent("", "", "u1", "", ""), RawEvent("", "", "u3", "", ""));
  }

  /** Two days, each with the example entry as its only archive entry: four
      rows, day by day, in stream order within each day. */
  lemma TwoDayExample()
    ensures
      var day := Archive([ExampleShard()]);
      Consume(Flatten([day, day])) ==
        Completed([["", "", "u1", "", ""], ["", "", "u3", "", ""],
                   ["", "", "u1", "", ""], ["", "", "u3", "", ""]])
  {
    var day := Archive([ExampleShard()]);
    var steps := ShardSteps(ExampleShard());
    OneEntryDay(ExampleShard());
    SameDayTwice(day);
    ExampleShardRows();
    ConsumeAppend(steps, steps);
  }
}
