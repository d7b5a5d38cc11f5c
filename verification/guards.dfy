/** Day 4: the guards' sleep log. Records are put in time order, a small
    state machine turns "Guard #n begins shift", "falls asleep" and "wakes
    up" lines into per-minute sleep counts for every guard, and two
    strategies pick a guard and a minute. */
module Guards {
  import opened Wrappers
  import opened Numbers
  import Text
  import Sorting

  /** A minute of the hour, what `Timelike::minute` returns. */
  type Minute = m: nat | m < 60

  /** A timestamp, ordered chronologically; only its minute is read by the
      state machine. */
  datatype Stamp = Stamp(year: nat, month: nat, day: nat, hour: nat, minute: Minute)

  /** One line of the log, already split into its timestamp and message. */
  datatype Record = Record(time: Stamp, message: string)

  /** Chronological order: year, then month, day, hour and minute. */
  predicate StampLe(a: Stamp, b: Stamp) {
    if a.year != b.year then a.year < b.year
    else if a.month != b.month then a.month < b.month
    else if a.day != b.day then a.day < b.day
    else if a.hour != b.hour then a.hour < b.hour
    else a.minute <= b.minute
  }

  lemma StampLeAntisymmetric(a: Stamp, b: Stamp)
    requires StampLe(a, b) && StampLe(b, a)
    ensures a == b
  {
  }

  predicate EarlierFirst(a: Record, b: Record) {
    StampLe(a.time, b.time)
  }

  predicate LaterFirst(a: Record, b: Record) {
    StampLe(b.time, a.time)
  }

  lemma OrdersArePreorders()
    ensures Sorting.TotalPreorder(EarlierFirst)
    ensures Sorting.TotalPreorder(LaterFirst)
  {
  }

  /** Every record strictly before the next one: no two share a timestamp. */
  predicate StrictlyAscending(records: seq<Record>) {
    forall i, j :: 0 <= i < j < |records| ==> StampLe(records[i].time, records[j].time) && records[i].time != records[j].time
  }

  /** `order_records`: `sort` under the ordering of `Schedule`, which puts
      later records first, then `reverse`. The result is the records in
      ascending time order. */
  function OrderRecords(records: seq<Record>): (r: seq<Record>)
    ensures |r| == |records|
    ensures multiset(r) == multiset(records)
    ensures Sorting.SortedBy(r, EarlierFirst)
  {
    OrdersArePreorders();
    var latestFirst := Sorting.InsertionSort(records, LaterFirst);
    var r := Sorting.Reverse(latestFirst);
    assert Sorting.SortedBy(r, EarlierFirst) by {
      forall i, j | 0 <= i < j < |r|
        ensures EarlierFirst(r[i], r[j])
      {
        assert LaterFirst(latestFirst[|r| - 1 - j], latestFirst[|r| - 1 - i]);
      }
    }
    r
  }

  /** Of the orderings of a log whose timestamps are all distinct, only one
      is ascending. */
  lemma {:induction false} AscendingUnique(a: seq<Record>, b: seq<Record>)
    requires multiset(a) == multiset(b)
    requires StrictlyAscending(a)
    requires Sorting.SortedBy(b, EarlierFirst)
    ensures a == b
    decreases |a|
  {
    assert |a| == |multiset(a)| == |multiset(b)| == |b|;
    if |a| > 0 {
      FirstIsEarliest(a, b);
      SameTails(a, b);
      assert StrictlyAscending(a[1..]);
      assert Sorting.SortedBy(b[1..], EarlierFirst);
      AscendingUnique(a[1..], b[1..]);
    }
  }

  /** Removing the same first element leaves the same multiset. */
  lemma SameTails<T>(a: seq<T>, b: seq<T>)
    requires multiset(a) == multiset(b) && |a| > 0 && |b| > 0 && a[0] == b[0]
    ensures multiset(a[1..]) == multiset(b[1..])
  {
    assert a == [a[0]] + a[1..] && b == [b[0]] + b[1..];
    assert multiset(a[1..]) == multiset(a) - multiset{a[0]};
    assert multiset(b[1..]) == multiset(b) - multiset{b[0]};
  }

  /** The first record of a sorted list is no later than any other. */
  lemma SortedFirstLe(b: seq<Record>, i: nat)
    requires Sorting.SortedBy(b, EarlierFirst) && i < |b|
    ensures StampLe(b[0].time, b[i].time)
  {
    if i > 0 {
      assert EarlierFirst(b[0], b[i]);
    }
  }

  /** The first record of a strictly ascending list is earlier than any other. */
  lemma AscendingFirstBefore(a: seq<Record>, j: nat)
    requires StrictlyAscending(a) && j < |a|
    ensures StampLe(a[0].time, a[j].time)
    ensures j > 0 ==> a[0].time != a[j].time
  {
  }

  /** Both orderings start with the earliest record. */
  lemma FirstIsEarliest(a: seq<Record>, b: seq<Record>)
    requires multiset(a) == multiset(b) && |a| > 0
    requires StrictlyAscending(a)
    requires Sorting.SortedBy(b, EarlierFirst)
    ensures a[0] == b[0]
  {
    assert a[0] in multiset(b) && b[0] in multiset(a);
    var i :| 0 <= i < |b| && b[i] == a[0];
    var j :| 0 <= j < |a| && a[j] == b[0];
    SortedFirstLe(b, i);
    AscendingFirstBefore(a, j);
    StampLeAntisymmetric(a[0].time, b[0].time);
  }

  /** A log already in strictly ascending order comes back unchanged. */
  lemma OrderRecordsOfAscending(records: seq<Record>)
    requires StrictlyAscending(records)
    ensures OrderRecords(records) == records
  {
    AscendingUnique(records, OrderRecords(records));
  }

  /** The message that opens guard `id`'s shift. */
  function GuardLine(id: nat): string {
    "Guard #" + Decimal(id) + " begins shift"
  }

  /** The id of a "Guard #n begins shift" message: the text after the first
      '#' and before the character preceding the first "begins", read as a
      `u32`. A missing '#' or "begins", an underflowing `end - 1`, a reversed
      slice, a cut inside the multi-byte character before "begins" or a text
      that is not a `u32` all panic in the source and give None here. */
  function ParseGuardId(msg: string): (r: Option<nat>)
    ensures r.Some? ==> r.value <= U32_MAX
    ensures r.Some? ==> Text.Contains(msg, "#") && Text.Contains(msg, "begins")
  {
    match (Text.Find(msg, "#"), Text.Find(msg, "begins"))
    case (Some(i), Some(j)) =>
      if j == 0 || i + 1 > j - 1 || !Text.IsAscii(msg[j - 1]) then None else ParseU32(msg[i + 1..j - 1])
    case _ => None
  }

  /** `i` is the leftmost occurrence of `pat` in `s`. */
  predicate FirstAt(s: string, pat: string, i: nat) {
    Text.MatchesAt(s, pat, i) && forall k :: 0 <= k < i ==> !Text.MatchesAt(s, pat, k)
  }

  /** Which id a message yields, in terms of where its first '#' and its
      first "begins" are: the `u32` written strictly between the '#' and the
      character just before "begins", and nothing when that span is reversed
      or when the cut falls inside a multi-byte character. */
  lemma ParseGuardIdAt(msg: string, i: nat, j: nat)
    ensures FirstAt(msg, "#", i) && FirstAt(msg, "begins", j) ==>
      ParseGuardId(msg) == (if i + 2 <= j && Text.IsAscii(msg[j - 1]) then ParseU32(msg[i + 1..j - 1]) else None)
  {
    if FirstAt(msg, "#", i) && FirstAt(msg, "begins", j) {
      Text.FindLeftmost(msg, "#", i);
      Text.FindLeftmost(msg, "begins", j);
      assert (Text.Find(msg, "#"), Text.Find(msg, "begins")) == (Some(i), Some(j));
      assert (j == 0 || i + 1 > j - 1) <==> j < i + 2;
    }
  }

  /** A message without '#' or without "begins" yields no id. */
  lemma ParseGuardIdMissing(msg: string)
    ensures (forall k :: 0 <= k <= |msg| ==> !Text.MatchesAt(msg, "#", k)) ==> ParseGuardId(msg).None?
    ensures (forall k :: 0 <= k <= |msg| ==> !Text.MatchesAt(msg, "begins", k)) ==> ParseGuardId(msg).None?
  {
    if ParseGuardId(msg).Some? {
      assert Text.Contains(msg, "#") && Text.Contains(msg, "begins");
    }
  }

  /** The part of a guard line before " begins shift". */
  lemma GuardLineHead(id: nat)
    ensures var head := "Guard #" + Decimal(id);
      && GuardLine(id) == head + " begins shift"
      && (forall j :: 0 <= j < |head| ==> head[j] != 'b')
      && (forall j :: 0 <= j < 6 ==> head[j] != '#')
      && head[6] == '#'
      && head[7..] == Decimal(id)
  {
    var d := Decimal(id);
    var head := "Guard #" + d;
    DecimalDigits(id);
    forall j | 7 <= j < |head|
      ensures head[j] != 'b'
    {
      assert head[j] == d[j - 7];
    }
  }

  /** The only "begins" in a guard line is the one after the number. */
  lemma FindBegins(id: nat)
    ensures Text.Find(GuardLine(id), "begins") == Some(|Decimal(id)| + 8)
  {
    var head := "Guard #" + Decimal(id);
    var s := GuardLine(id);
    GuardLineHead(id);
    var k := |head| + 1;
    assert s[k..k + 6] == " begins shift"[1..7] == "begins";
    assert Text.MatchesAt(s, "begins", k);
    assert s[|head|] == ' ';
    Text.NoMatchWithoutFirst(s, "begins", k);
    Text.FindLeftmost(s, "begins", k);
  }

  /** Reading back the id of a rendered guard line gives the id. */
  lemma ParseGuardLine(id: nat)
    requires id <= U32_MAX
    ensures ParseGuardId(GuardLine(id)) == Some(id)
    ensures Text.Contains(GuardLine(id), "Guard")
  {
    var d := Decimal(id);
    var s := GuardLine(id);
    GuardLineHead(id);
    FindBegins(id);
    assert Text.MatchesAt(s, "#", 6);
    Text.NoMatchWithoutFirst(s, "#", 6);
    Text.FindLeftmost(s, "#", 6);
    assert s[|d| + 7] == ' ';
    assert s[7..|d| + 7] == d;
    ParseU32Decimal(id);
    assert Text.MatchesAt(s, "Guard", 0);
  }

  /** A message the source panics on: it mentions "Guard" but carries no
      readable id. */
  predicate Malformed(msg: string) {
    Text.Contains(msg, "Guard") && ParseGuardId(msg).None?
  }

  /** The id a message names, if it is a well-formed guard line. */
  function LineIds(msg: string): set<nat> {
    if Text.Contains(msg, "Guard") && ParseGuardId(msg).Some? then {ParseGuardId(msg).value} else {}
  }

  /** The ids of the guard lines of a log, in any order. */
  function GuardIds(records: seq<Record>): set<nat> {
    if |records| == 0 then {} else LineIds(records[0].message) + GuardIds(records[1..])
  }

  // ---------------------------------------------------------------------
  // Per-minute sleep counts

  const MinutesPerHour: nat := 60

  /** The counts of a guard who has not slept yet. */
  function NoSleep(): (r: seq<nat>)
    ensures Hourly(r)
    ensures forall k :: 0 <= k < |r| ==> r[k] == 0
  {
    seq(MinutesPerHour, _ => 0)
  }

  /** One count per minute of the midnight hour. The source keeps only the
      minutes slept at least once; a minute absent there counts 0 here. */
  predicate Hourly(counts: seq<nat>) {
    |counts| == MinutesPerHour
  }

  /** One nap from `start` up to, but not including, `end`: each of those
      minutes counts once more. An `end` not after `start` adds nothing. */
  function AddNap(counts: seq<nat>, start: nat, end: nat): (r: seq<nat>)
    ensures |r| == |counts|
    ensures forall m :: 0 <= m < |r| ==> r[m] == counts[m] + (if start <= m < end then 1 else 0)
  {
    seq(|counts|, m requires 0 <= m < |counts| => counts[m] + (if start <= m < end then 1 else 0))
  }

  /** Total of all counts, `value.values().sum()`: no count exceeds it, and
      it is zero exactly when every count is. */
  function Sum(counts: seq<nat>): (r: nat)
    ensures forall k :: 0 <= k < |counts| ==> counts[k] <= r
    ensures r == 0 <==> forall k :: 0 <= k < |counts| ==> counts[k] == 0
  {
    if |counts| == 0 then 0
    else
      var init := counts[..|counts| - 1];
      assert forall k :: 0 <= k < |counts| - 1 ==> counts[k] == init[k];
      Sum(init) + counts[|counts| - 1]
  }

  /** How many of the minutes below `n` fall in `[start, end)`. */
  function Hits(start: nat, end: nat, n: nat): nat {
    if n == 0 then 0 else Hits(start, end, n - 1) + (if start <= n - 1 < end then 1 else 0)
  }

  lemma {:induction false} HitsSpan(start: nat, end: nat, n: nat)
    requires end <= n
    ensures Hits(start, end, n) == if start < end then end - start else 0
  {
    if n > 0 {
      if end <= n - 1 {
        HitsSpan(start, end, n - 1);
      } else {
        assert end == n;
        if start < end {
          HitsUpTo(start, n - 1);
        } else {
          HitsNone(start, end, n - 1);
        }
      }
    }
  }

  lemma {:induction false} HitsUpTo(start: nat, n: nat)
    requires start <= n
    ensures Hits(start, n + 1, n) == n - start
  {
    if n > start {
      HitsUpTo(start, n - 1);
      HitsSameBelow(start, n, n + 1, n - 1);
    } else {
      HitsNone(start, n + 1, n);
    }
  }

  /** Minutes below `n` do not see where a range ending at or beyond `n` ends. */
  lemma {:induction false} HitsSameBelow(start: nat, e1: nat, e2: nat, n: nat)
    requires n <= e1 && n <= e2
    ensures Hits(start, e1, n) == Hits(start, e2, n)
  {
    if n > 0 {
      HitsSameBelow(start, e1, e2, n - 1);
    }
  }

  lemma {:induction false} HitsNone(start: nat, end: nat, n: nat)
    requires n <= start
    ensures Hits(start, end, n) == 0
  {
    if n > 0 {
      HitsNone(start, end, n - 1);
    }
  }

  /** A nap adds its length to the total. */
  lemma {:induction false} SumAddNap(counts: seq<nat>, start: nat, end: nat)
    requires end <= |counts|
    ensures Sum(AddNap(counts, start, end)) == Sum(counts) + (if start < end then end - start else 0)
  {
    SumAddNapHits(counts, start, end);
    HitsSpan(start, end, |counts|);
  }

  lemma {:induction false} SumAddNapHits(counts: seq<nat>, start: nat, end: nat)
    ensures Sum(AddNap(counts, start, end)) == Sum(counts) + Hits(start, end, |counts|)
    decreases |counts|
  {
    if |counts| > 0 {
      var n := |counts|;
      var init := counts[..n - 1];
      assert AddNap(counts, start, end)[..n - 1] == AddNap(init, start, end);
      SumAddNapHits(init, start, end);
    }
  }

  /** The lowest minute with the greatest count. The source takes whichever
      greatest entry `max_by` meets last in the map's order; the lowest one is
      one such choice. */
  function MostCommon(counts: seq<nat>): (m: nat)
    requires |counts| > 0
    ensures m < |counts|
    ensures forall k :: 0 <= k < |counts| ==> counts[k] <= counts[m]
    ensures forall k :: 0 <= k < m ==> counts[k] < counts[m]
  {
    var n := |counts|;
    if n == 1 then 0
    else
      var m := MostCommon(counts[..n - 1]);
      assert forall k :: 0 <= k < n - 1 ==> counts[k] == counts[..n - 1][k];
      if counts[m] < counts[n - 1] then n - 1 else m
  }

  /** What the source stores per guard: (total minutes asleep, most common
      minute, how often the guard slept in it). */
  datatype Summary = Summary(total: nat, minute: nat, count: nat)

  function Summarize(counts: seq<nat>): (r: Summary)
    requires |counts| > 0
    ensures r.total == Sum(counts)
    ensures r.minute < |counts| && r.count == counts[r.minute]
    ensures forall k :: 0 <= k < |counts| ==> counts[k] <= r.count
    ensures forall k :: 0 <= k < r.minute ==> counts[k] < r.count
    ensures r.count <= r.total
    ensures r.count == 0 ==> r == Summary(0, 0, 0)
  {
    var m := MostCommon(counts);
    assert m > 0 ==> counts[0] < counts[m];
    Summary(Sum(counts), m, counts[m])
  }

  // ---------------------------------------------------------------------
  // The state machine of `determine_shifts`

  /** The loop state: sleep counts per guard id seen so far, the minute of the
      last "falls asleep" and the id of the last guard line. */
  datatype State = State(tracker: map<nat, seq<nat>>, start: nat, lastId: nat)

  const Initial: State := State(map[], 0, 0)

  predicate WellFormed(st: State) {
    forall id :: id in st.tracker ==> Hourly(st.tracker[id])
  }

  /** One record. A guard line makes its guard current and gives it an empty
      entry if it has none; "falls asleep" remembers the minute; "wakes up"
      adds the nap to the current guard's entry, if that guard has one; any
      other message changes nothing. */
  function Step(st: State, rec: Record): (r: Option<State>)
    ensures r.None? <==> Malformed(rec.message)
    ensures r.Some? && WellFormed(st) ==> WellFormed(r.value)
    ensures r.Some? ==> r.value.tracker.Keys == st.tracker.Keys + LineIds(rec.message)
    ensures r.Some? ==> forall id :: id in st.tracker && id != st.lastId ==> r.value.tracker[id] == st.tracker[id]
  {
    var msg := rec.message;
    if Text.Contains(msg, "Guard") then
      var parsed := ParseGuardId(msg);
      if parsed.None? then None
      else
        var id := parsed.value;
        Some(State(if id in st.tracker then st.tracker else st.tracker[id := NoSleep()], st.start, id))
    else if msg == "falls asleep" then
      Some(State(st.tracker, rec.time.minute, st.lastId))
    else if msg == "wakes up" && st.lastId in st.tracker then
      Some(State(st.tracker[st.lastId := AddNap(st.tracker[st.lastId], st.start, rec.time.minute)], st.start, st.lastId))
    else
      Some(st)
  }

  /** A message without a 'G' is no guard line. */
  lemma NotGuardLine(msg: string)
    requires forall j :: 0 <= j < |msg| ==> msg[j] != 'G'
    ensures !Text.Contains(msg, "Guard")
  {
    Text.NoMatchWithoutFirst(msg, "Guard", |msg| + 1);
  }

  /** A guard line makes its guard current, gives it an empty entry when it
      has none, and keeps the entry it has otherwise. */
  lemma BeginShift(st: State, rec: Record, id: nat)
    requires rec.message == GuardLine(id) && id <= U32_MAX
    ensures Step(st, rec).Some?
    ensures var next := Step(st, rec).value;
      && next.lastId == id && next.start == st.start
      && next.tracker == (if id in st.tracker then st.tracker else st.tracker[id := NoSleep()])
  {
    ParseGuardLine(id);
  }

  /** "falls asleep" only remembers the minute. */
  lemma FallAsleep(st: State, rec: Record)
    requires rec.message == "falls asleep"
    ensures Step(st, rec) == Some(State(st.tracker, rec.time.minute, st.lastId))
  {
    NotGuardLine(rec.message);
  }

  /** "wakes up" adds the nap since the remembered minute to the current
      guard's total, and leaves every other entry alone; it is ignored when
      the current guard has no entry. */
  lemma WakeUp(st: State, rec: Record)
    requires rec.message == "wakes up"
    requires WellFormed(st)
    ensures Step(st, rec).Some?
    ensures st.lastId !in st.tracker ==> Step(st, rec) == Some(st)
    ensures st.lastId in st.tracker ==>
      var next := Step(st, rec).value;
      && next.start == st.start && next.lastId == st.lastId
      && next.tracker.Keys == st.tracker.Keys
      && (forall m :: 0 <= m < MinutesPerHour ==>
            next.tracker[st.lastId][m] == st.tracker[st.lastId][m] + (if st.start <= m < rec.time.minute then 1 else 0))
      && Sum(next.tracker[st.lastId]) == Sum(st.tracker[st.lastId]) + (if st.start < rec.time.minute then rec.time.minute - st.start else 0)
  {
    NotGuardLine(rec.message);
    if st.lastId in st.tracker {
      SumAddNap(st.tracker[st.lastId], st.start, rec.time.minute);
    }
  }

  /** The loop over the sorted records; the first malformed guard line stops
      it. */
  function Run(st: State, records: seq<Record>): (r: Option<State>)
    ensures r.None? <==> exists i :: 0 <= i < |records| && Malformed(records[i].message)
    ensures r.Some? && WellFormed(st) ==> WellFormed(r.value)
    decreases |records|
  {
    if |records| == 0 then Some(st)
    else
      var step := Step(st, records[0]);
      if step.None? then None
      else
        var rest := Run(step.value, records[1..]);
        assert forall i :: 1 <= i < |records| ==> records[i] == records[1..][i - 1];
        rest
  }

  /** The loop from position `k` is one step, then the loop from `k + 1`. */
  lemma RunAt(st: State, records: seq<Record>, k: nat)
    requires k < |records| && Step(st, records[k]).Some?
    ensures Run(st, records[k..]) == Run(Step(st, records[k]).value, records[k + 1..])
  {
    assert records[k..][0] == records[k] && records[k..][1..] == records[k + 1..];
  }

  /** The guards with an entry after the loop: those before it and those
      whose guard line it read. */
  lemma {:induction false} RunKeys(st: State, records: seq<Record>)
    requires Run(st, records).Some?
    ensures Run(st, records).value.tracker.Keys == st.tracker.Keys + GuardIds(records)
    decreases |records|
  {
    if |records| > 0 {
      var next := Step(st, records[0]).value;
      RunKeys(next, records[1..]);
    }
  }

  /** Running over two logs one after the other is running over both. */
  lemma {:induction false} RunAppend(st: State, a: seq<Record>, b: seq<Record>)
    ensures Run(st, a).None? ==> Run(st, a + b).None?
    ensures Run(st, a).Some? ==> Run(st, a + b) == Run(Run(st, a).value, b)
    decreases |a|
  {
    if |a| > 0 {
      assert (a + b)[0] == a[0] && (a + b)[1..] == a[1..] + b;
      var step := Step(st, a[0]);
      if step.Some? {
        RunAppend(step.value, a[1..], b);
        assert Run(st, a) == Run(step.value, a[1..]);
        assert Run(st, a + b) == Run(step.value, a[1..] + b);
      }
    } else {
      assert a + b == b;
    }
  }

  // ---------------------------------------------------------------------
  // The counts the loop reaches, defined over the log alone

  /** The guard on duty after `log`: the id of its last well-formed guard
      line, if any. */
  function OnDuty(log: seq<Record>): Option<nat> {
    if |log| == 0 then None
    else
      var msg := log[|log| - 1].message;
      if Text.Contains(msg, "Guard") && ParseGuardId(msg).Some? then ParseGuardId(msg)
      else OnDuty(log[..|log| - 1])
  }

  /** The minute of the last "falls asleep" of `log`, 0 before any. */
  function Remembered(log: seq<Record>): nat {
    if |log| == 0 then 0
    else if log[|log| - 1].message == "falls asleep" then log[|log| - 1].time.minute
    else Remembered(log[..|log| - 1])
  }

  /** How often guard `id` slept in minute `m` over `log`: the "wakes up"
      records read while `id` is on duty whose nap, from the remembered
      minute up to the record's own minute, covers `m`. */
  function Naps(log: seq<Record>, id: nat, m: nat): nat {
    if |log| == 0 then 0
    else
      var before := log[..|log| - 1];
      var rec := log[|log| - 1];
      Naps(before, id, m)
        + (if rec.message == "wakes up" && OnDuty(before) == Some(id) && Remembered(before) <= m < rec.time.minute then 1 else 0)
  }

  function NapCounts(log: seq<Record>, id: nat): seq<nat> {
    seq(MinutesPerHour, m requires 0 <= m < MinutesPerHour => Naps(log, id, m))
  }

  /** `st` is the loop state after reading `log` from the initial state. */
  ghost predicate Tracks(st: State, log: seq<Record>) {
    && WellFormed(st)
    && st.start == Remembered(log)
    && (OnDuty(log).None? ==> st.lastId == 0 && st.tracker == map[])
    && (OnDuty(log).Some? ==> st.lastId == OnDuty(log).value && st.lastId in st.tracker)
    && (forall id :: id in st.tracker ==> st.tracker[id] == NapCounts(log, id))
    && (forall id :: id !in st.tracker ==> NapCounts(log, id) == NoSleep())
  }

  /** How the log functions change when one record is appended. */
  lemma Snoc(before: seq<Record>, rec: Record)
    ensures var log := before + [rec]; var msg := rec.message;
      && OnDuty(log) == (if Text.Contains(msg, "Guard") && ParseGuardId(msg).Some? then ParseGuardId(msg) else OnDuty(before))
      && Remembered(log) == (if msg == "falls asleep" then rec.time.minute else Remembered(before))
      && forall id: nat, m: nat ::
           Naps(log, id, m) == Naps(before, id, m) + (if msg == "wakes up" && OnDuty(before) == Some(id) && Remembered(before) <= m < rec.time.minute then 1 else 0)
  {
    var log := before + [rec];
    assert log[..|log| - 1] == before && log[|log| - 1] == rec;
  }

  /** Equal naps minute by minute give equal counts. */
  lemma SameCounts(before: seq<Record>, log: seq<Record>)
    requires forall id: nat, m: nat :: Naps(log, id, m) == Naps(before, id, m)
    ensures forall id :: NapCounts(log, id) == NapCounts(before, id)
  {
    forall id ensures NapCounts(log, id) == NapCounts(before, id) {
      assert forall m :: 0 <= m < MinutesPerHour ==> NapCounts(log, id)[m] == NapCounts(before, id)[m];
    }
  }

  /** The state keeps matching when the counts and the guard on duty stay as
      they were and the remembered minute becomes `start`. */
  lemma KeepTracks(st: State, before: seq<Record>, log: seq<Record>, start: nat)
    requires Tracks(st, before)
    requires OnDuty(log) == OnDuty(before) && Remembered(log) == start
    requires forall id :: NapCounts(log, id) == NapCounts(before, id)
    ensures Tracks(State(st.tracker, start, st.lastId), log)
  {
  }

  /** Registering the guard of a guard line keeps the state matching. */
  lemma RegisterTracks(st: State, before: seq<Record>, log: seq<Record>, id: nat)
    requires Tracks(st, before)
    requires OnDuty(log) == Some(id) && Remembered(log) == Remembered(before)
    requires forall i :: NapCounts(log, i) == NapCounts(before, i)
    ensures Tracks(State(if id in st.tracker then st.tracker else st.tracker[id := NoSleep()], st.start, id), log)
  {
  }

  /** The counts of the guard on duty after its nap. */
  lemma NapOnDuty(counts: seq<nat>, before: seq<Record>, log: seq<Record>, id: nat, start: nat, end: nat)
    requires counts == NapCounts(before, id)
    requires forall m: nat :: Naps(log, id, m) == Naps(before, id, m) + (if start <= m < end then 1 else 0)
    ensures AddNap(counts, start, end) == NapCounts(log, id)
  {
    forall m | 0 <= m < MinutesPerHour ensures AddNap(counts, start, end)[m] == NapCounts(log, id)[m] {
      assert counts[m] == Naps(before, id, m);
    }
  }

  /** The counts of a guard not on duty stay as they were. */
  lemma NapOffDuty(before: seq<Record>, log: seq<Record>, id: nat)
    requires forall m: nat :: Naps(log, id, m) == Naps(before, id, m)
    ensures NapCounts(log, id) == NapCounts(before, id)
  {
    assert forall m :: 0 <= m < MinutesPerHour ==> NapCounts(log, id)[m] == NapCounts(before, id)[m];
  }

  /** A nap changes the counts of the guard on duty by `AddNap`, and no
      other guard's counts. */
  lemma NapCountsAfter(st: State, before: seq<Record>, log: seq<Record>, end: nat)
    requires Tracks(st, before) && st.lastId in st.tracker
    requires forall id: nat, m: nat ::
      Naps(log, id, m) == Naps(before, id, m) + (if OnDuty(before) == Some(id) && Remembered(before) <= m < end then 1 else 0)
    ensures AddNap(st.tracker[st.lastId], st.start, end) == NapCounts(log, st.lastId)
    ensures forall i :: i != st.lastId ==> NapCounts(log, i) == NapCounts(before, i)
  {
    var id := st.lastId;
    NapOnDuty(st.tracker[id], before, log, id, st.start, end);
    forall i | i != id ensures NapCounts(log, i) == NapCounts(before, i) {
      NapOffDuty(before, log, i);
    }
  }

  /** Adding the nap to the guard on duty keeps the state matching. */
  lemma NapTracks(st: State, before: seq<Record>, log: seq<Record>, end: nat)
    requires Tracks(st, before) && st.lastId in st.tracker
    requires OnDuty(log) == OnDuty(before) && Remembered(log) == Remembered(before)
    requires AddNap(st.tracker[st.lastId], st.start, end) == NapCounts(log, st.lastId)
    requires forall i :: i != st.lastId ==> NapCounts(log, i) == NapCounts(before, i)
    ensures Tracks(State(st.tracker[st.lastId := AddNap(st.tracker[st.lastId], st.start, end)], st.start, st.lastId), log)
  {
  }

  /** A message naming a guard is neither "falls asleep" nor "wakes up". */
  lemma GuardMessage(msg: string)
    requires Text.Contains(msg, "Guard")
    ensures msg != "falls asleep" && msg != "wakes up"
  {
    NotGuardLine("falls asleep");
    NotGuardLine("wakes up");
  }

  /** A guard line makes its guard the one on duty; no count moves. */
  lemma GuardTracks(st: State, before: seq<Record>, rec: Record)
    requires Tracks(st, before)
    requires Text.Contains(rec.message, "Guard") && ParseGuardId(rec.message).Some?
    ensures Step(st, rec).Some? && Tracks(Step(st, rec).value, before + [rec])
  {
    var id := ParseGuardId(rec.message).value;
    GuardMessage(rec.message);
    Snoc(before, rec);
    SameCounts(before, before + [rec]);
    RegisterTracks(st, before, before + [rec], id);
  }

  /** "falls asleep" sets the remembered minute; no count moves. */
  lemma AsleepTracks(st: State, before: seq<Record>, rec: Record)
    requires Tracks(st, before)
    requires rec.message == "falls asleep"
    ensures Step(st, rec).Some? && Tracks(Step(st, rec).value, before + [rec])
  {
    FallAsleep(st, rec);
    NotGuardLine(rec.message);
    Snoc(before, rec);
    SameCounts(before, before + [rec]);
    KeepTracks(st, before, before + [rec], rec.time.minute);
  }

  /** "wakes up" adds one nap to the guard on duty, if there is one. */
  lemma WakeTracks(st: State, before: seq<Record>, rec: Record)
    requires Tracks(st, before)
    requires rec.message == "wakes up"
    ensures Step(st, rec).Some? && Tracks(Step(st, rec).value, before + [rec])
  {
    NotGuardLine(rec.message);
    Snoc(before, rec);
    if st.lastId in st.tracker {
      NapCountsAfter(st, before, before + [rec], rec.time.minute);
      NapTracks(st, before, before + [rec], rec.time.minute);
    } else {
      SameCounts(before, before + [rec]);
      KeepTracks(st, before, before + [rec], st.start);
    }
  }

  /** Any other well-formed message changes nothing. */
  lemma OtherTracks(st: State, before: seq<Record>, rec: Record)
    requires Tracks(st, before)
    requires !Text.Contains(rec.message, "Guard") && rec.message != "falls asleep" && rec.message != "wakes up"
    ensures Step(st, rec) == Some(st) && Tracks(st, before + [rec])
  {
    Snoc(before, rec);
    SameCounts(before, before + [rec]);
    KeepTracks(st, before, before + [rec], st.start);
  }

  /** One step keeps the state in line with the log read so far. */
  lemma StepTracks(st: State, before: seq<Record>, rec: Record)
    ensures Tracks(st, before) && Step(st, rec).Some? ==> Tracks(Step(st, rec).value, before + [rec])
  {
    var msg := rec.message;
    if !Tracks(st, before) || Step(st, rec).None? {
    } else if Text.Contains(msg, "Guard") {
      GuardTracks(st, before, rec);
    } else if msg == "falls asleep" {
      AsleepTracks(st, before, rec);
    } else if msg == "wakes up" {
      WakeTracks(st, before, rec);
    } else {
      OtherTracks(st, before, rec);
    }
  }

  /** From the initial state, the loop reaches exactly the counts `Naps`
      describes: each guard's count for minute `m` is the number of its naps
      covering `m`, and a guard with no guard line has none. */
  lemma {:induction false} RunTracks(log: seq<Record>)
    ensures Run(Initial, log).Some? ==> Tracks(Run(Initial, log).value, log)
    decreases |log|
  {
    if |log| == 0 {
      forall id ensures NapCounts(log, id) == NoSleep() {
        assert forall m :: 0 <= m < MinutesPerHour ==> NapCounts(log, id)[m] == NoSleep()[m];
      }
    } else if Run(Initial, log).Some? {
      var before := log[..|log| - 1];
      var rec := log[|log| - 1];
      assert log == before + [rec];
      RunAppend(Initial, before, [rec]);
      RunTracks(before);
      var st := Run(Initial, before).value;
      assert [rec][0] == rec && [rec][1..] == [];
      StepTracks(st, before, rec);
    }
  }

  /** The summary of every entry. */
  function SummarizeAll(tracker: map<nat, seq<nat>>): (r: map<nat, Summary>)
    requires forall id :: id in tracker ==> |tracker[id]| > 0
    ensures r.Keys == tracker.Keys
    ensures forall id :: id in r ==> r[id] == Summarize(tracker[id])
  {
    map id | id in tracker :: Summarize(tracker[id])
  }

  /** `determine_shifts`: the summary of every guard who appears in the log,
      including those who never slept. */
  function DetermineShifts(records: seq<Record>): (r: Option<map<nat, Summary>>)
    ensures r.None? <==> exists i :: 0 <= i < |records| && Malformed(records[i].message)
    ensures r.Some? ==> r.value.Keys == GuardIds(records)
    ensures r.Some? ==> forall id :: id in r.value ==> r.value[id] == Summarize(NapCounts(records, id))
  {
    match Run(Initial, records)
    case None => None
    case Some(st) =>
      RunKeys(Initial, records);
      RunTracks(records);
      Some(SummarizeAll(st.tracker))
  }

  // ---------------------------------------------------------------------
  // Strategies

  /** The scan state of both strategies: the best score met so far, and the
      guard and minute it came with. */
  datatype Leading = Leading(score: nat, guard: nat, minute: nat)

  /** `order` lists the keys of the map, each once: one iteration order of
      the source's `HashMap`. */
  predicate Enumerates(order: seq<nat>, shifts: map<nat, Summary>) {
    (forall id :: id in shifts ==> id in order)
    && (forall k :: 0 <= k < |order| ==> order[k] in shifts)
    && (forall i, j :: 0 <= i < j < |order| ==> order[i] != order[j])
  }

  /** The scan over the map in `order`: a guard replaces the leader only
      with a strictly greater score, starting from score 0 and guard 0. */
  function Leader(order: seq<nat>, shifts: map<nat, Summary>, score: Summary -> nat): (r: Leading)
    requires forall k :: 0 <= k < |order| ==> order[k] in shifts
    ensures forall k :: 0 <= k < |order| ==> score(shifts[order[k]]) <= r.score
    ensures r.score == 0 ==> r.guard == 0 && r.minute == 0
    ensures r.score > 0 ==> r.guard in order && score(shifts[r.guard]) == r.score && shifts[r.guard].minute == r.minute
    decreases |order|
  {
    var n := |order|;
    if n == 0 then Leading(0, 0, 0)
    else
      var prev := Leader(order[..n - 1], shifts, score);
      var id := order[n - 1];
      assert forall k :: 0 <= k < n - 1 ==> order[k] == order[..n - 1][k];
      if prev.score < score(shifts[id]) then Leading(score(shifts[id]), id, shifts[id].minute) else prev
  }

  /** The product a strategy returns: the leading guard's id times its
      minute, or 0 when every score is 0. */
  function Choose(shifts: map<nat, Summary>, order: seq<nat>, score: Summary -> nat): (r: nat)
    requires Enumerates(order, shifts)
    ensures (forall id :: id in shifts ==> score(shifts[id]) == 0) ==> r == 0
    ensures (exists id :: id in shifts && score(shifts[id]) > 0) ==>
      exists id :: id in shifts && r == id * shifts[id].minute
        && forall other :: other in shifts ==> score(shifts[other]) <= score(shifts[id])
  {
    var lead := Leader(order, shifts, score);
    lead.guard * lead.minute
  }

  /** `calculate_strategy_1`: the guard asleep the most minutes in total,
      times that guard's most common minute. */
  function Strategy1(shifts: map<nat, Summary>, order: seq<nat>): (r: nat)
    requires Enumerates(order, shifts)
    ensures (forall id :: id in shifts ==> shifts[id].total == 0) ==> r == 0
    ensures (exists id :: id in shifts && shifts[id].total > 0) ==>
      exists id :: id in shifts && r == id * shifts[id].minute
        && forall other :: other in shifts ==> shifts[other].total <= shifts[id].total
  {
    Choose(shifts, order, (s: Summary) => s.total)
  }

  /** `calculate_strategy_2`: the guard most often asleep in a single minute,
      times that minute. */
  function Strategy2(shifts: map<nat, Summary>, order: seq<nat>): (r: nat)
    requires Enumerates(order, shifts)
    ensures (forall id :: id in shifts ==> shifts[id].count == 0) ==> r == 0
    ensures (exists id :: id in shifts && shifts[id].count > 0) ==>
      exists id :: id in shifts && r == id * shifts[id].minute
        && forall other :: other in shifts ==> shifts[other].count <= shifts[id].count
  {
    Choose(shifts, order, (s: Summary) => s.count)
  }
}
