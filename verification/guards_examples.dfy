/** The sleep-log examples of the day 4 solver: the three-record ordering,
    the two-guard log with its summaries and both strategies' answers. */
module GuardsExamples {
  import opened Wrappers
  import opened Numbers
  import opened Guards

  function At(month: nat, day: nat, hour: nat, minute: Minute, message: string): Record {
    Record(Stamp(1518, month, day, hour, minute), message)
  }

  // ---------------------------------------------------------------------
  // Ordering

  const Unordered: seq<Record> := [
    At(6, 27, 0, 21, "falls asleep"),
    At(6, 5, 0, 46, "falls asleep"),
    At(11, 10, 23, 52, "Guard #881 begins shift")
  ]

  /** Three records whose middle one is earliest and last one latest. */
  lemma OrderThree(a: Record, b: Record, c: Record)
    requires Before(b.time, a.time) && Before(a.time, c.time)
    ensures OrderRecords([a, b, c]) == [b, a, c]
  {
    assert multiset([b, a, c]) == multiset([a, b, c]);
    AdjacentAscending([b, a, c]);
    AscendingUnique([b, a, c], OrderRecords([a, b, c]));
  }

  /** The three records come back earliest first. */
  lemma OrderExample(input: seq<Record>)
    requires input == Unordered
    ensures OrderRecords(input) == [input[1], input[0], input[2]]
  {
    assert input == [input[0], input[1], input[2]];
    OrderThree(input[0], input[1], input[2]);
  }

  // ---------------------------------------------------------------------
  // The two-guard log

  /** Strict chronological order of two timestamps. */
  predicate Before(a: Stamp, b: Stamp) {
    StampLe(a, b) && a != b
  }

  lemma StampLeTransitive(a: Stamp, b: Stamp, c: Stamp)
    requires StampLe(a, b) && StampLe(b, c)
    ensures StampLe(a, c)
  {
  }

  /** A log whose neighbours are in strict order is strictly ascending. */
  lemma {:induction false} AdjacentAscending(records: seq<Record>)
    requires forall i :: 0 <= i < |records| - 1 ==> Before(records[i].time, records[i + 1].time)
    ensures StrictlyAscending(records)
    decreases |records|
  {
    if |records| > 1 {
      var rest := records[1..];
      AdjacentAscending(rest);
      forall j | 1 <= j < |records|
        ensures Before(records[0].time, records[j].time)
      {
        if j > 1 {
          assert records[j] == rest[j - 1] && records[1] == rest[0];
          StampLeTransitive(records[0].time, records[1].time, records[j].time);
          if records[0].time == records[j].time {
            StampLeAntisymmetric(records[0].time, records[1].time);
          }
        }
      }
      forall i, j | 0 <= i < j < |records|
        ensures StampLe(records[i].time, records[j].time) && records[i].time != records[j].time
      {
        if i > 0 {
          assert records[i] == rest[i - 1] && records[j] == rest[j - 1];
        }
      }
    }
  }

  const ExampleLog: seq<Record> := [
    At(11, 1, 0, 0, "Guard #10 begins shift"),
    At(11, 1, 0, 5, "falls asleep"),
    At(11, 1, 0, 25, "wakes up"),
    At(11, 1, 0, 30, "falls asleep"),
    At(11, 1, 0, 55, "wakes up"),
    At(11, 1, 23, 58, "Guard #99 begins shift"),
    At(11, 2, 0, 40, "falls asleep"),
    At(11, 2, 0, 50, "wakes up"),
    At(11, 3, 0, 5, "Guard #10 begins shift"),
    At(11, 3, 0, 24, "falls asleep"),
    At(11, 3, 0, 29, "wakes up"),
    At(11, 4, 0, 2, "Guard #99 begins shift"),
    At(11, 4, 0, 36, "falls asleep"),
    At(11, 4, 0, 46, "wakes up"),
    At(11, 5, 0, 3, "Guard #99 begins shift"),
    At(11, 5, 0, 45, "falls asleep"),
    At(11, 5, 0, 55, "wakes up")
  ]

  lemma GuardTen(msg: string)
    requires msg == "Guard #10 begins shift"
    ensures msg == GuardLine(10)
  {
  }

  lemma GuardNinetyNine(msg: string)
    requires msg == "Guard #99 begins shift"
    ensures msg == GuardLine(99)
  {
  }

  /** Guard 10's counts: naps 5-25 and 30-55 on the first day, 24-29 on the third. */
  function TenCounts(): seq<nat> {
    AddNap(AddNap(AddNap(NoSleep(), 5, 25), 30, 55), 24, 29)
  }

  /** Guard 99's counts: naps 40-50, 36-46 and 45-55. */
  function NinetyNineCounts(): seq<nat> {
    AddNap(AddNap(AddNap(NoSleep(), 40, 50), 36, 46), 45, 55)
  }

  /** The entry a guard line leaves for guard `id`. */
  function Entry(st: State, id: nat): seq<nat> {
    if id in st.tracker then st.tracker[id] else NoSleep()
  }

  /** The loop at a guard line. */
  lemma GuardAt(st: State, log: seq<Record>, k: nat, id: nat)
    requires k < |log| && log[k].message == GuardLine(id) && id <= U32_MAX
    ensures Run(st, log[k..]) == Run(State(st.tracker[id := Entry(st, id)], st.start, id), log[k + 1..])
  {
    BeginShift(st, log[k], id);
    assert (if id in st.tracker then st.tracker else st.tracker[id := NoSleep()]) == st.tracker[id := Entry(st, id)];
    RunAt(st, log, k);
  }

  /** The loop at a "falls asleep". */
  lemma AsleepAt(st: State, log: seq<Record>, k: nat)
    requires k < |log| && log[k].message == "falls asleep"
    ensures Run(st, log[k..]) == Run(State(st.tracker, log[k].time.minute, st.lastId), log[k + 1..])
  {
    FallAsleep(st, log[k]);
    RunAt(st, log, k);
  }

  /** The loop at a "wakes up" while a guard with an entry is on duty. */
  lemma WakeAt(st: State, log: seq<Record>, k: nat)
    requires k < |log| && log[k].message == "wakes up"
    requires st.lastId in st.tracker
    ensures Run(st, log[k..]) == Run(State(st.tracker[st.lastId := AddNap(st.tracker[st.lastId], st.start, log[k].time.minute)], st.start, st.lastId), log[k + 1..])
  {
    NotGuardLine(log[k].message);
    RunAt(st, log, k);
  }

  /** The loop at a "falls asleep" / "wakes up" pair while a guard with an
      entry is on duty. */
  lemma NapAt(st: State, log: seq<Record>, k: nat)
    requires k + 1 < |log| && log[k].message == "falls asleep" && log[k + 1].message == "wakes up"
    requires st.lastId in st.tracker
    ensures var start := log[k].time.minute;
      Run(st, log[k..]) == Run(State(st.tracker[st.lastId := AddNap(st.tracker[st.lastId], start, log[k + 1].time.minute)], start, st.lastId), log[k + 2..])
  {
    AsleepAt(st, log, k);
    WakeAt(State(st.tracker, log[k].time.minute, st.lastId), log, k + 1);
  }

  /** Records `k` to `k + 2`: guard `id` begins a shift and sleeps from
      minute `a` to minute `w`. */
  predicate OneNap(log: seq<Record>, k: nat, id: nat, a: nat, w: nat) {
    k + 2 < |log|
    && log[k].message == GuardLine(id)
    && log[k + 1].message == "falls asleep" && log[k + 1].time.minute == a
    && log[k + 2].message == "wakes up" && log[k + 2].time.minute == w
  }

  /** The example log, shift by shift, with guards `g` and `h` for 10 and 99:
      what the loop reads of each record. */
  predicate ShapeOf(log: seq<Record>, g: nat, h: nat) {
    |log| == 17
    && OneNap(log, 0, g, 5, 25)
    && log[3].message == "falls asleep" && log[3].time.minute == 30
    && log[4].message == "wakes up" && log[4].time.minute == 55
    && OneNap(log, 5, h, 40, 50)
    && OneNap(log, 8, g, 24, 29)
    && OneNap(log, 11, h, 36, 46)
    && OneNap(log, 14, h, 45, 55)
  }

  lemma UpdateTwice<K, V>(m: map<K, V>, k: K, a: V, b: V)
    ensures m[k := a][k := b] == m[k := b]
  {
  }

  lemma ReplaceFirst<K, V>(g: K, h: K, a: V, b: V, c: V)
    requires g != h
    ensures map[g := a, h := b][g := c] == map[g := c, h := b]
    ensures map[g := a, h := b][g] == a
  {
  }

  /** A shift of guard `id` with a single nap. */
  lemma OneNapShift(st: State, log: seq<Record>, k: nat, id: nat)
    requires k + 2 < |log| && id <= U32_MAX
    requires log[k].message == GuardLine(id)
    requires log[k + 1].message == "falls asleep" && log[k + 2].message == "wakes up"
    ensures var start := log[k + 1].time.minute;
      Run(st, log[k..]) == Run(State(st.tracker[id := AddNap(Entry(st, id), start, log[k + 2].time.minute)], start, id), log[k + 3..])
  {
    GuardAt(st, log, k, id);
    var s1 := State(st.tracker[id := Entry(st, id)], st.start, id);
    NapAt(s1, log, k + 1);
    var t := AddNap(Entry(st, id), log[k + 1].time.minute, log[k + 2].time.minute);
    UpdateTwice(st.tracker, id, Entry(st, id), t);
  }

  /** A shift of guard `id` with two naps. */
  lemma TwoNapShift(st: State, log: seq<Record>, k: nat, id: nat)
    requires k + 4 < |log| && id <= U32_MAX
    requires log[k].message == GuardLine(id)
    requires log[k + 1].message == "falls asleep" && log[k + 2].message == "wakes up"
    requires log[k + 3].message == "falls asleep" && log[k + 4].message == "wakes up"
    ensures var t := AddNap(Entry(st, id), log[k + 1].time.minute, log[k + 2].time.minute);
      var start := log[k + 3].time.minute;
      Run(st, log[k..]) == Run(State(st.tracker[id := AddNap(t, start, log[k + 4].time.minute)], start, id), log[k + 5..])
  {
    OneNapShift(st, log, k, id);
    var t := AddNap(Entry(st, id), log[k + 1].time.minute, log[k + 2].time.minute);
    var s3 := State(st.tracker[id := t], log[k + 1].time.minute, id);
    NapAt(s3, log, k + 3);
    var u := AddNap(t, log[k + 3].time.minute, log[k + 4].time.minute);
    UpdateTwice(st.tracker, id, t, u);
  }

  lemma FirstShift(log: seq<Record>, g: nat)
    requires g <= U32_MAX
    requires |log| == 17 && OneNap(log, 0, g, 5, 25)
    requires log[3].message == "falls asleep" && log[3].time.minute == 30
    requires log[4].message == "wakes up" && log[4].time.minute == 55
    ensures Run(Initial, log) == Run(State(map[g := AddNap(AddNap(NoSleep(), 5, 25), 30, 55)], 30, g), log[5..])
  {
    assert log[0..] == log;
    TwoNapShift(Initial, log, 0, g);
  }

  lemma SecondShift(log: seq<Record>, g: nat, h: nat, tg: seq<nat>)
    requires g != h && h <= U32_MAX
    requires |log| == 17 && OneNap(log, 5, h, 40, 50)
    ensures Run(State(map[g := tg], 30, g), log[5..]) == Run(State(map[g := tg, h := AddNap(NoSleep(), 40, 50)], 40, h), log[8..])
  {
    OneNapShift(State(map[g := tg], 30, g), log, 5, h);
  }

  lemma MiddleShifts(log: seq<Record>, g: nat, h: nat, tg: seq<nat>, th: seq<nat>)
    requires g != h && g <= U32_MAX && h <= U32_MAX
    requires |log| == 17 && OneNap(log, 8, g, 24, 29) && OneNap(log, 11, h, 36, 46)
    ensures Run(State(map[g := tg, h := th], 40, h), log[8..])
      == Run(State(map[g := AddNap(tg, 24, 29), h := AddNap(th, 36, 46)], 36, h), log[14..])
  {
    var ug := AddNap(tg, 24, 29);
    ReplaceFirst(g, h, tg, th, ug);
    OneNapShift(State(map[g := tg, h := th], 40, h), log, 8, g);
    UpdateTwice(map[g := ug], h, th, AddNap(th, 36, 46));
    OneNapShift(State(map[g := ug, h := th], 24, g), log, 11, h);
  }

  lemma LastShift(log: seq<Record>, g: nat, h: nat, tg: seq<nat>, th: seq<nat>)
    requires g != h && h <= U32_MAX
    requires |log| == 17 && OneNap(log, 14, h, 45, 55)
    ensures Run(State(map[g := tg, h := th], 36, h), log[14..])
      == Some(State(map[g := tg, h := AddNap(th, 45, 55)], 45, h))
  {
    assert log[17..] == [];
    UpdateTwice(map[g := tg], h, th, AddNap(th, 45, 55));
    OneNapShift(State(map[g := tg, h := th], 36, h), log, 14, h);
  }

  /** The loop over a log of the example's shape, whatever its two ids. */
  lemma ShapeRun(log: seq<Record>, g: nat, h: nat)
    requires g != h && g <= U32_MAX && h <= U32_MAX
    requires ShapeOf(log, g, h)
    ensures Run(Initial, log) == Some(State(map[g := TenCounts(), h := NinetyNineCounts()], 45, h))
  {
    var tg := AddNap(AddNap(NoSleep(), 5, 25), 30, 55);
    var th := AddNap(NoSleep(), 40, 50);
    FirstShift(log, g);
    SecondShift(log, g, h, tg);
    MiddleShifts(log, g, h, tg, th);
    LastShift(log, g, h, AddNap(tg, 24, 29), AddNap(th, 36, 46));
  }

  /** The minute-by-minute counts of three naps. */
  lemma ThreeNaps(a1: nat, w1: nat, a2: nat, w2: nat, a3: nat, w3: nat, k: nat)
    requires k < MinutesPerHour
    ensures var c := AddNap(AddNap(AddNap(NoSleep(), a1, w1), a2, w2), a3, w3);
      |c| == MinutesPerHour
      && c[k] == (if a1 <= k < w1 then 1 else 0) + (if a2 <= k < w2 then 1 else 0) + (if a3 <= k < w3 then 1 else 0)
  {
  }

  /** The total of three naps within the hour. */
  lemma ThreeNapsTotal(a1: nat, w1: nat, a2: nat, w2: nat, a3: nat, w3: nat)
    requires a1 < w1 <= MinutesPerHour && a2 < w2 <= MinutesPerHour && a3 < w3 <= MinutesPerHour
    ensures Sum(AddNap(AddNap(AddNap(NoSleep(), a1, w1), a2, w2), a3, w3)) == (w1 - a1) + (w2 - a2) + (w3 - a3)
  {
    var z := NoSleep();
    SumAddNap(z, a1, w1);
    SumAddNap(AddNap(z, a1, w1), a2, w2);
    SumAddNap(AddNap(AddNap(z, a1, w1), a2, w2), a3, w3);
  }

  /** Guard 10 slept 50 minutes, most often (twice) in minute 24. */
  lemma TenSummary()
    ensures Summarize(TenCounts()) == Summary(50, 24, 2)
  {
    var c := TenCounts();
    ThreeNapsTotal(5, 25, 30, 55, 24, 29);
    forall k | 0 <= k < |c|
      ensures c[k] <= (if k == 24 then 2 else 1)
    {
      ThreeNaps(5, 25, 30, 55, 24, 29, k);
    }
    ThreeNaps(5, 25, 30, 55, 24, 29, 24);
    var r := Summarize(c);
    assert c[24] <= r.count;
  }

  /** Guard 99 slept 30 minutes, most often (three times) in minute 45. */
  lemma NinetyNineSummary()
    ensures Summarize(NinetyNineCounts()) == Summary(30, 45, 3)
  {
    var c := NinetyNineCounts();
    ThreeNapsTotal(40, 50, 36, 46, 45, 55);
    forall k | 0 <= k < |c|
      ensures c[k] <= (if k == 45 then 3 else 2)
    {
      ThreeNaps(40, 50, 36, 46, 45, 55, k);
    }
    ThreeNaps(40, 50, 36, 46, 45, 55, 45);
    var r := Summarize(c);
    assert c[45] <= r.count;
  }

  /** Summarising a two-entry tracker entry by entry. */
  lemma SummarizeBoth(g: nat, h: nat, a: seq<nat>, b: seq<nat>)
    requires g != h && |a| > 0 && |b| > 0
    ensures SummarizeAll(map[g := a, h := b]) == map[g := Summarize(a), h := Summarize(b)]
  {
  }

  /** The summaries after a run that ends with the example's two entries. */
  lemma ShapeShifts(log: seq<Record>, g: nat, h: nat)
    requires g != h
    requires Run(Initial, log) == Some(State(map[g := TenCounts(), h := NinetyNineCounts()], 45, h))
    ensures DetermineShifts(log) == Some(map[g := Summary(50, 24, 2), h := Summary(30, 45, 3)])
  {
    TenSummary();
    NinetyNineSummary();
    SummarizeBoth(g, h, TenCounts(), NinetyNineCounts());
  }

  /** The summaries of any log shaped like the example. */
  lemma ShapeSummaries(log: seq<Record>, g: nat, h: nat)
    requires g != h && g <= U32_MAX && h <= U32_MAX
    requires ShapeOf(log, g, h)
    ensures DetermineShifts(log) == Some(map[g := Summary(50, 24, 2), h := Summary(30, 45, 3)])
  {
    ShapeRun(log, g, h);
    ShapeShifts(log, g, h);
  }

  const ExampleSummaries: map<nat, Summary> := map[10 := Summary(50, 24, 2), 99 := Summary(30, 45, 3)]

  /** The example log is in strictly ascending order and has the example's
      shape, with guards 10 and 99. */
  lemma ExampleLogFacts(log: seq<Record>)
    requires log == ExampleLog
    ensures StrictlyAscending(log)
    ensures ShapeOf(log, 10, 99)
  {
    ExampleLogAscending(log);
    ExampleLogShape(log);
  }

  lemma ExampleLogAscending(log: seq<Record>)
    requires log == ExampleLog
    ensures StrictlyAscending(log)
  {
    forall i | 0 <= i < |log| - 1
      ensures Before(log[i].time, log[i + 1].time)
    {
      var t := log[i].time;
      var u := log[i + 1].time;
      assert t.year == u.year == 1518 && t.month == u.month == 11;
      assert t.day < u.day || (t.day == u.day && (t.hour < u.hour || (t.hour == u.hour && t.minute < u.minute)));
    }
    AdjacentAscending(log);
  }

  lemma ExampleLogShape(log: seq<Record>)
    requires log == ExampleLog
    ensures ShapeOf(log, 10, 99)
  {
    GuardTen(log[0].message);
    GuardNinetyNine(log[5].message);
    GuardTen(log[8].message);
    GuardNinetyNine(log[11].message);
    GuardNinetyNine(log[14].message);
  }

  /** A log with the example's records, ordered and summarised: guard 10
      slept 50 minutes, most often in minute 24 (twice); guard 99 slept 30
      minutes, most often in minute 45 (three times). */
  lemma ExampleShifts(log: seq<Record>)
    requires StrictlyAscending(log) && ShapeOf(log, 10, 99)
    ensures DetermineShifts(OrderRecords(log)) == Some(ExampleSummaries)
  {
    OrderRecordsOfAscending(log);
    ShapeSummaries(log, 10, 99);
  }

  /** Both strategies on the example summaries, whatever the map's order:
      guard 10 sleeps most in total (10 * 24), guard 99 most in one minute
      (99 * 45). */
  lemma ExampleStrategies(order: seq<nat>)
    requires Enumerates(order, ExampleSummaries)
    ensures Strategy1(ExampleSummaries, order) == 240
    ensures Strategy2(ExampleSummaries, order) == 4455
  {
    var shifts := ExampleSummaries;
    assert 10 in shifts && 99 in shifts;
    assert forall id :: id in shifts ==> id == 10 || id == 99;
    var r1 := Strategy1(shifts, order);
    var g :| g in shifts && r1 == g * shifts[g].minute
      && forall other :: other in shifts ==> shifts[other].total <= shifts[g].total;
    assert shifts[10].total <= shifts[g].total;
    var r2 := Strategy2(shifts, order);
    var h :| h in shifts && r2 == h * shifts[h].minute
      && forall other :: other in shifts ==> shifts[other].count <= shifts[h].count;
    assert shifts[99].count <= shifts[h].count;
  }
}
