# Advent of Code 2018, days 1–6, in Dafny

This project models the six puzzle solvers of a Rust Advent of Code 2018
repository and proves properties of the model. Each solver is a pure
function over parsed strings or integers:

- **Day 1, frequency step.** One change line `"+n"` or `"-n"` is applied to the
  running frequency.
- **Day 2, box-ID checksum.** The model records whether some letter of an ID
  occurs exactly twice or exactly three times. The checksum is the number of
  IDs with a doubled letter times the number with a tripled letter.
- **Day 3, fabric claims.** Claim lines `#id @ x,y: wxh` are split at every
  delimiter and their numeric tokens kept. A per-square-inch count of covering
  claims is built, and the inches claimed more than once are counted.
- **Day 4, guard sleep log.** Records are put in time order. A small state
  machine runs over the "Guard #n begins shift", "falls asleep" and
  "wakes up" lines. It yields per-minute sleep counts and a summary per guard:
  (total, most common minute, its count). Two arg-max strategies then pick a
  guard and a minute.
- **Day 5, polymer reduction.** The leftmost adjacent pair made of the same
  letter in opposite cases is deleted, again and again, until none is left.
- **Day 6, Manhattan grid partition.** The model covers:
  - the taxicab distance;
  - the bounding box of the seeds;
  - giving each cell of `[0, xMax] × [0, yMax]` to its uniquely nearest seed;
  - removing every region that touches the border of the box;
  - parsing `"x, y"` lines.

  The nearest-seed scan starts from a hard-coded distance of 1000, and the
  model keeps this. As a result, a cell is dropped when a seed lies exactly
  1000 away and none is nearer. When every seed is farther than 1000, the
  cell goes to seed 0.

Layout: one module per solver. Days 2 to 6 each have a companion module of
worked examples taken from the repository's unit tests. Day 1's two tests are
the lemma `Frequency.Examples` inside `Frequency` itself:

| modules | day |
|---|---|
| `Frequency` | 1 |
| `Inventory`, `InventoryExamples` | 2 |
| `Fabric`, `FabricExamples` | 3 |
| `Guards`, `GuardsExamples` | 4 |
| `Polymer`, `PolymerExamples` | 5 |
| `Coordinates`, `CoordinatesExamples` | 6 |

There are also shared helper modules:
- `Wrappers`: `Option`, and mapping a partial function over a list.
- `Numbers`: Rust's `str::parse` for `u32` and `i32`, and decimal rendering.
- `Text`: find, split at delimiter characters, split at a separator string.
- `Sorting`: a stable insertion sort and reversal.

Where the Rust code panics (an `unwrap`, an out-of-range index or slice, a
byte slice that would cut a multi-byte character), the model returns `None`. Where a caller must supply something structural, such
as a non-empty seed list or a two-character unit, the model has a `requires`
clause. Integers are unbounded. `HashMap` iteration order is either
quantified away or passed as an explicit key order.

## Model

| member | source | states |
|---|---|---|
| Frequency.ParseFrequencyChange | src/day_1/mod.rs:1-11 | defined exactly for a non-empty line whose first character is a single byte and whose remainder parses as `i32`; '+' adds the amount, '-' subtracts it, any other first character yields 0 rather than the old value |
| Frequency.IncreaseThenDecrease | src/day_1/mod.rs:5-8 | applying `"-n"` after `"+n"` restores the original value |
| Frequency.Examples | src/day_1/mod.rs:17-31 | `"+1"` on 0 gives 1 and `"-4"` on 0 gives -4 |
| Inventory.Tally | src/day_2/candidate.rs:8-21 | each component is 0 or 1, and is 1 exactly when the corresponding flag is set |
| Inventory.ListCombinations | src/day_2/mod.rs:5-25 | for any order of scanning the count map, the first flag is set iff some character occurs exactly twice and the second iff some character occurs exactly three times |
| Inventory.Totals | src/day_2/mod.rs:31-36 | the two running sums are the number of IDs with a doubled letter and the number with a tripled letter |
| Inventory.CalculateChecksum | src/day_2/mod.rs:27-39 | the checksum is (#IDs with a doubled letter) × (#IDs with a tripled letter); an empty list gives 0 |
| InventoryExamples.NeitherExample | src/day_2/mod.rs:54-65 | "abcdef" sets neither flag |
| InventoryExamples.BothExample | src/day_2/mod.rs:67-78 | "bababc" sets both flags |
| InventoryExamples.TwoOnlyExample | src/day_2/mod.rs:80-91 | "abbcde" sets only the doubled flag |
| InventoryExamples.ThreeOnlyExample | src/day_2/mod.rs:93-104 | "abcccd" sets only the tripled flag |
| InventoryExamples.TwoCountedTwiceExample | src/day_2/mod.rs:106-117 | two doubled letters in "aabcdd" still set the flag once |
| InventoryExamples.ThreeCountedTwiceExample | src/day_2/mod.rs:119-130 | two tripled letters in "ababab" still set the flag once, and no doubled flag |
| InventoryExamples.TwoOnlyExample2 | src/day_2/mod.rs:132-145 | "abcdee", from the seven-ID list, sets only the doubled flag |
| InventoryExamples.ChecksumExample | src/day_2/mod.rs:132-145 | the seven-ID list has checksum 12 |
| Fabric.ParsedNumbers | src/day_3/rectangle.rs:11-14 | each kept number is at most `u32::MAX`, and there are no more of them than tokens |
| Fabric.ParsedNumbersKept | src/day_3/rectangle.rs:11-14 | the kept numbers are the `u32` values of the tokens at some strictly increasing positions, and every token at another position fails to parse |
| Fabric.ClaimNumbersKept | src/day_3/rectangle.rs:11-14 | the numbers of a claim line are the values of exactly those pieces between delimiters that parse as `u32`, in line order |
| Fabric.ParseRectangle | src/day_3/rectangle.rs:10-22 | a claim results iff at least five numbers are found, and then its fields are the first five numbers in order |
| Fabric.ParseRender | src/day_3/rectangle.rs:10-22 | parsing the text `#id @ x,y: wxh` of any claim whose fields fit in `u32` gives that claim back |
| Fabric.CoverColumn | src/day_3/mod.rs:14-16 | the inner loop adds an entry for, and counts once more, exactly the inches of column x from y1 up to y1 + height |
| Fabric.CoverColumns | src/day_3/mod.rs:13-17 | the middle loop counts once more exactly the inches of the claim from column x on |
| Fabric.AddRectangle | src/day_3/mod.rs:12-18 | one claim adds an entry for, and counts once more, exactly the inches of its half-open box |
| Fabric.Coverage | src/day_3/mod.rs:12-18 | the map has an entry for an inch iff some claim covers it, the entry is the number of claims covering it, and every entry is at least 1 |
| Fabric.CoverageKeys | src/day_3/mod.rs:12-18 | the map's keys are exactly the union of the inches of all claims |
| Fabric.ClaimArea | src/day_3/mod.rs:13-14 | a claim covers `width * height` inches |
| Fabric.EmptyClaimAddsNothing | src/day_3/mod.rs:13-14 | a claim of zero width or height leaves the map unchanged |
| Fabric.ParseAll | src/day_3/mod.rs:8 | the lines parse together iff each parses, and then the claims are the lines' claims in order |
| Fabric.ParseAllOfParsed | src/day_3/mod.rs:8 | lines that each parse to a claim parse together to exactly those claims |
| Fabric.MapRectangles | src/day_3/mod.rs:6-21 | defined iff every line parses, and then each inch's count is the number of claims covering it |
| Fabric.CountOverlap | src/day_3/mod.rs:23-33 | for any order of visiting the map, the result is the number of inches with a count above 1, never more than the number of entries |
| Fabric.OverlapMeansTwoClaims | src/day_3/mod.rs:23-33 | an inch is counted iff two or more claims cover it |
| FabricExamples.ParseExample | src/day_3/rectangle.rs:29-39 | "#123 @ 3,2: 5x4" parses to id 123, corner (3, 2), size 5 × 4 |
| FabricExamples.ExampleLinesParse | src/day_3/mod.rs:53-57 | the three test lines parse to the three test claims |
| FabricExamples.ExampleCoverageSize | src/day_3/mod.rs:58-60 | the three test claims cover 32 inches |
| FabricExamples.ExampleSharedCounts | src/day_3/mod.rs:61-64 | inches (3,3), (3,4), (4,3) and (4,4) are each covered by two claims |
| FabricExamples.ExampleOverlap | src/day_3/mod.rs:67-77 | the test claims overlap on 4 inches |
| FabricExamples.CoverageExample | src/day_3/mod.rs:51-77 | starting from the test lines, the map has 32 entries, the four shared inches count 2, and the overlap is 4 |
| Guards.OrderRecords | src/day_4/mod.rs:7-12 | sorting latest-first and then reversing gives a permutation of the records in ascending time order |
| Guards.AscendingUnique | src/day_4/mod.rs:7-12 | when no two records share a timestamp, the ascending order is unique |
| Guards.OrderRecordsOfAscending | src/day_4/mod.rs:7-12 | a log already strictly in time order comes back unchanged |
| Guards.ParseGuardId | src/day_4/mod.rs:27-30 | an id is read only from text holding '#' and "begins", and fits in `u32` |
| Guards.ParseGuardIdAt | src/day_4/mod.rs:27-30 | with the first '#' at i and the first "begins" at j, the id is the `u32` value of the text from i + 1 up to j - 1, and nothing when that span is reversed, when the character before "begins" is multi-byte, or when '#' or "begins" is missing |
| Guards.ParseGuardIdMissing | src/day_4/mod.rs:27-28 | a message with no '#' or no "begins" yields no id, as the source's `unwrap` panics |
| Guards.ParseGuardLine | src/day_4/mod.rs:26-30 | reading "Guard #n begins shift" gives back n for every `u32` n |
| Guards.NoSleep | src/day_4/mod.rs:31 | a new guard's entry has a zero count for each of the 60 minutes |
| Guards.AddNap | src/day_4/mod.rs:43-47 | a nap [s, e) adds one to the count of every minute m with s ≤ m < e and leaves the other minutes alone |
| Guards.Sum | src/day_4/mod.rs:59 | no minute's count exceeds the total, and the total is 0 iff every count is 0 |
| Guards.SumAddNap | src/day_4/mod.rs:43-47 | a nap [s, e) adds e - s to the guard's total, or nothing when e ≤ s |
| Guards.MostCommon | src/day_4/mod.rs:55-58 | the chosen minute has a maximal count (the lowest such minute) |
| Guards.Summarize | src/day_4/mod.rs:54-61 | the summary holds the total, a minute with maximal count and that count; the count never exceeds the total; a guard who never slept gets (0, 0, 0) |
| Guards.Step | src/day_4/mod.rs:22-50 | fails exactly on a "Guard" line without a readable id; adds an entry exactly for a new guard id; only the current guard's counts can change |
| Guards.BeginShift | src/day_4/mod.rs:26-32 | a guard line makes that guard current and creates an empty entry for it, keeping an existing one |
| Guards.FallAsleep | src/day_4/mod.rs:35-38 | "falls asleep" only remembers the minute |
| Guards.WakeUp | src/day_4/mod.rs:40-49 | "wakes up" adds one to each minute of the current guard from the remembered minute up to the record's minute, so its total grows by the nap's length; other guards, the remembered minute and the current guard are unchanged; it does nothing when that guard has no entry |
| Guards.Run | src/day_4/mod.rs:22-50 | the loop fails iff some record is a malformed guard line, and keeps one count per minute for every guard |
| Guards.RunKeys | src/day_4/mod.rs:22-50 | after the loop there is an entry for exactly the guards named in the log, whether they slept or not |
| Guards.RunAppend | src/day_4/mod.rs:22-50 | running over two logs in turn is running over their concatenation |
| Guards.GuardTracks | src/day_4/mod.rs:26-32 | after a guard line, that guard is on duty and every count still matches the log |
| Guards.AsleepTracks | src/day_4/mod.rs:35-38 | after "falls asleep", the remembered minute is that record's and every count still matches the log |
| Guards.WakeTracks | src/day_4/mod.rs:40-49 | after "wakes up", the guard on duty has the new nap counted and every count matches the log |
| Guards.OtherTracks | src/day_4/mod.rs:22-50 | any other message changes nothing |
| Guards.StepTracks | src/day_4/mod.rs:22-50 | one step from a state that matches the log read so far matches the log with the record added |
| Guards.RunTracks | src/day_4/mod.rs:15-50 | from the initial state, the count of guard g for minute m is the number of "wakes up" records read while g is on duty whose nap, from the last "falls asleep" minute up to the record's minute, covers m; guards never named have no entry |
| Guards.SummarizeAll | src/day_4/mod.rs:54-62 | every entry gets its summary (total, a most common minute, its count), and no other key does |
| Guards.DetermineShifts | src/day_4/mod.rs:15-65 | defined iff no guard line is malformed; then it has a summary for exactly the guards named in the log, and each is the summary of that guard's naps as counted over the log |
| Guards.Leader | src/day_4/mod.rs:72-78 | a scan in any key order ends with a maximal score; a zero score comes with guard 0 and minute 0, and a positive one with a guard that has that score and its minute |
| Guards.Choose | src/day_4/mod.rs:67-97 | the product is 0 when every score is 0, and otherwise id × minute of some guard with the greatest score |
| Guards.Strategy1 | src/day_4/mod.rs:67-81 | the result is id × most common minute for some guard with the greatest total, or 0 when nobody slept |
| Guards.Strategy2 | src/day_4/mod.rs:83-97 | the result is id × minute for some guard with the greatest single-minute count, or 0 when nobody slept |
| GuardsExamples.OrderExample | src/day_4/mod.rs:128-152 | the three test records come out as June 5, June 27, November 10 |
| GuardsExamples.TenSummary | src/day_4/mod.rs:180 | guard 10's naps sum to (50, 24, 2) |
| GuardsExamples.NinetyNineSummary | src/day_4/mod.rs:181 | guard 99's naps sum to (30, 45, 3) |
| GuardsExamples.ExampleShifts | src/day_4/mod.rs:154-184 | ordering and scanning the test log yields 10 → (50, 24, 2) and 99 → (30, 45, 3) |
| GuardsExamples.ExampleStrategies | src/day_4/mod.rs:186-242 | for every iteration order, strategy 1 gives 240 and strategy 2 gives 4455 on those summaries |
| Polymer.CheckUnit | src/day_5/mod.rs:3-10 | a two-character unit passes iff it is one letter in both cases, in either order |
| Polymer.CheckUnitWindow | src/day_5/mod.rs:20-21 | the window at i passes iff units i and i + 1 react |
| Polymer.FirstReactionFrom | src/day_5/mod.rs:19-27 | the inner loop from `from` stops at a reacting pair with none before it, or finds none and the polymer is inert |
| Polymer.FirstReaction | src/day_5/mod.rs:18-27 | finds the leftmost reacting pair, and finds none iff no adjacent pair reacts |
| Polymer.FirstReactionIsLeftmost | src/day_5/mod.rs:19-24 | a reacting pair with none before it is the one found |
| Polymer.React | src/day_5/mod.rs:22 | removing the pair at i shortens the polymer by 2, keeps the units before i, and shifts those after the pair down by 2 |
| Polymer.ProcessPolymer | src/day_5/mod.rs:12-35 | the result has no reacting pair, is no longer than the input, has the same length parity, and an inert polymer comes back unchanged |
| Polymer.ProcessPolymerStep | src/day_5/mod.rs:15-32 | each pass of the outer loop removes the leftmost reacting pair and carries on from there |
| Polymer.ProcessPolymerIdempotent | src/day_5/mod.rs:29-31 | reducing a reduced polymer changes nothing |
| Polymer.ProcessPolymerShrinks | src/day_5/mod.rs:21-23 | a polymer with a reacting pair shrinks by at least 2 |
| Polymer.ReactKeepsCharge | src/day_5/mod.rs:22 | a reaction removes one upper- and one lower-case unit of the same letter |
| Polymer.ProcessPolymerKeepsCharge | src/day_5/mod.rs:12-35 | for every letter, reduction keeps the number of upper-case units minus lower-case units |
| Polymer.ProcessPolymerLoop | src/day_5/mod.rs:12-35 | the nested loop, with its break and `changed` flag, computes the reduction and ends with an inert polymer |
| PolymerExamples.CheckUnitReactingExamples | src/day_5/mod.rs:52-59 | "aA" and "Aa" react |
| PolymerExamples.CheckUnitInertExamples | src/day_5/mod.rs:61-71 | "AA", "aa" and "Ab" do not react |
| PolymerExamples.CollapseExample | src/day_5/mod.rs:75-76 | "abBA" reduces to the empty polymer |
| PolymerExamples.InertExamples | src/day_5/mod.rs:78-82 | "abAB" and "aabAAB" come back unchanged |
| PolymerExamples.LongExample | src/day_5/mod.rs:84-85 | "dabAcCaCBAcCcaDA" reduces to "dabCBAcaDA" |
| Coordinates.Distance | src/day_6/mod.rs:5-7 | the distance is non-negative, zero iff the points coincide, and at least each coordinate difference |
| Coordinates.DistanceSymmetric | src/day_6/mod.rs:5-7 | the distance is symmetric |
| Coordinates.DistanceTriangle | src/day_6/mod.rs:5-7 | the distance obeys the triangle inequality |
| Coordinates.Bounds | src/day_6/mod.rs:9-22 | for a non-empty seed list, the corner is the greatest x and the greatest y, each attained by some seed |
| Coordinates.Visit | src/day_6/mod.rs:37-45 | one seed at distance d: the new lowest distance is the smaller of the old one and d; the index moves to the seed exactly when d is strictly smaller; the tie flag is set by an equal distance, kept past a larger one and cleared by a smaller one |
| Coordinates.Scan | src/day_6/mod.rs:31-46 | the best distance is at most 1000 and at most every seed's distance; below 1000 it belongs to the recorded seed and every earlier seed is strictly farther; at 1000 the index stays 0 |
| Coordinates.ScanTie | src/day_6/mod.rs:31-46 | the scan ends tied iff another seed shares the final best distance, or some seed lies exactly at the sentinel when none is nearer |
| Coordinates.ScanFindsUnique | src/day_6/mod.rs:31-46 | a seed strictly nearest and nearer than 1000 is the untied result |
| Coordinates.ScanUntied | src/day_6/mod.rs:31-46 | an untied scan names the unique nearest seed or, when every seed is beyond 1000, seed 0 |
| Coordinates.Nearest | src/day_6/mod.rs:31-52 | a cell goes to seed i exactly when i is the unique nearest seed below 1000, or to seed 0 when every seed lies beyond 1000 |
| Coordinates.TieDropped | src/day_6/mod.rs:37-49 | two seeds sharing the least distance, at most 1000, drop the cell |
| Coordinates.SentinelDropped | src/day_6/mod.rs:31-49 | with no seed nearer than 1000, a seed at exactly 1000 drops the cell |
| Coordinates.Column | src/day_6/mod.rs:30 | column x holds each cell (x, 0..yMax) once |
| Coordinates.Cells | src/day_6/mod.rs:29-30 | the two loops visit each cell of `[0, xMax] × [0, yMax]` exactly once |
| Coordinates.Select | src/day_6/mod.rs:48-52 | seed i's list holds exactly the visited cells given to seed i |
| Coordinates.SelectDistinct | src/day_6/mod.rs:48-52 | a list built from distinct cells holds each cell once |
| Coordinates.Allot | src/day_6/mod.rs:48-52 | a seed has an entry iff some visited cell is given to it, and the entry is that seed's cells in visiting order |
| Coordinates.ClosestPoints | src/day_6/mod.rs:24-57 | each listed cell lies in the box and goes to its seed; every cell of the box that goes to a seed is listed there; lists are non-empty and hold each cell once |
| Coordinates.RegionsDisjoint | src/day_6/mod.rs:29-52 | no cell lies in two regions |
| Coordinates.RemoveEdgeLocations | src/day_6/mod.rs:59-76 | the keys kept are a subset, the kept lists are unchanged, and a key is kept iff none of its cells has x = 0, y = 0, x = xMax or y = yMax |
| Coordinates.RemoveEdgeLocationsIdempotent | src/day_6/mod.rs:59-76 | removing edge regions twice is removing them once |
| Coordinates.InteriorRegions | src/day_6/mod.rs:66-71 | every cell of a region kept after edge removal lies strictly inside the box |
| Coordinates.ParsePoint | src/day_6/mod.rs:78-84 | a point results iff splitting at ", " gives at least two pieces and the first two parse as `i32`, and then its coordinates are those two values |
| Coordinates.ParsePointNeedsSeparator | src/day_6/mod.rs:79-81 | a line without ", " is rejected, as indexing the second piece panics |
| Coordinates.ParseRender | src/day_6/mod.rs:78-84 | parsing the text "x, y" of a point with `i32` coordinates gives the point back |
| CoordinatesExamples.DistanceExamples | src/day_6/mod.rs:111-121 | (1,1)–(5,0) and (5,5)–(5,0) are both 5 apart |
| CoordinatesExamples.SentinelExamples | src/day_6/mod.rs:31-49 | a lone seed 1000 away drops the cell; one 1001 away takes it as index 0; a seed 1001 away followed by one 1000 away drops it |
| CoordinatesExamples.ExampleClosestPoints | src/day_6/mod.rs:123-131 | for the six test seeds, seed 3 owns 9 cells and seed 4 owns 17 |
| CoordinatesExamples.ExampleRemoval | src/day_6/mod.rs:133-146 | for the six test seeds, edge removal keeps exactly keys 3 and 4 |
| CoordinatesExamples.ParseExample | src/day_6/mod.rs:148-153 | "46, 246" parses to (46, 246) |

## Left out

- The `part_1`/`part_2` functions of every day and `src/common/mod.rs`. They do file reading, `expect` on I/O and printing. This includes day 6's choice of the largest remaining region (src/day_6/mod.rs:97-101), which only feeds the printed answer.
- `Schedule::new` in `src/day_4/guard.rs` and the chrono date parsing behind it. A record is an abstract timestamp with year, month, day, hour and minute fields plus a message. The `Ord` implementation of `Schedule` is not part of this model: sorting is taken to be by timestamp, latest first, as the test's ascending result after `reverse` shows.
- Guards.OrderRecords: records with equal timestamps keep an order of their own; if `Schedule`'s ordering also compared messages, such records could come out differently.
- Fabric.ParsedNumbers: its own contract gives only bounds. Which tokens are kept, and in which order, is stated by Fabric.ParsedNumbersKept.
- Guards.Run: its own contract holds from any start state and covers only failure and the per-minute shape. The counts it reaches from the initial state are stated by Guards.RunTracks.
- Guards.MostCommon: picks the lowest of the minutes with the greatest count. The source's `max_by` returns the greatest entry it meets last in `HashMap` order, which is unspecified. So both pick a minute with maximal count, but not always the same one.
- Guards.Summarize: the summary's minute is the lowest maximal minute, for the same reason as MostCommon.
- `HashMap` iteration order in the strategies is an explicit `order` parameter. It may be any enumeration of the keys, and the contracts hold for all of them.
- Inventory.ListCombinations and Fabric.CountOverlap visit the map's keys in an arbitrary order chosen by the verifier. The contracts hold whatever that order is.
- Frequency.ParseFrequencyChange: does not model `i32` overflow of `value + change` or `value - change`; the sum is unbounded.
- Inventory.CalculateChecksum: does not model `i32` overflow of the counts or their product.
- Fabric.CoverColumns: does not model `u32` overflow of `x1 + width` or `y1 + height`, nor of a per-inch count.
- Guards.Strategy1: does not model `u32` overflow of the product of guard id and minute; Guards.Strategy2 likewise.
- Guards.Summarize: the total is unbounded rather than a `u32` sum.
- Coordinates.Distance: does not model `i32` overflow of the coordinate differences or their sum.
- Polymer.CheckUnit: the contract speaks only of two-character units, the only ones the reduction passes. Case is judged on ASCII letters only. For a reacting pair this agrees with Rust's Unicode `is_uppercase`/`is_lowercase`, since equality under `to_ascii_lowercase` of an upper- and a lower-case character forces both to be ASCII letters.
- `replace_range` in day 5 works on byte offsets, while the model indexes characters. The two agree on ASCII polymers, and non-ASCII text is not modelled.
- Parsing of numbers follows Rust's `str::parse` for `u32` and `i32`: an optional sign, then decimal digits, within range. Its error kinds are collapsed into `None`.
