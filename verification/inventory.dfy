/** Day 2: box IDs, the letters repeated exactly twice or three times, and
    the checksum of a list of IDs. */
module Inventory {

  /** `candidate::Box`: whether some letter of an ID appears exactly two
      times, and whether some letter appears exactly three times. */
  datatype Box = Box(hasTwo: bool, hasThree: bool)

  /** Some character of `s` occurs exactly `k` times in `s`. */
  predicate SomeLetterTimes(s: string, k: nat) {
    exists i :: 0 <= i < |s| && multiset(s)[s[i]] == k
  }

  /** The flags `list_combinations` is meant to report for an ID. */
  function Combinations(s: string): Box {
    Box(SomeLetterTimes(s, 2), SomeLetterTimes(s, 3))
  }

  /** `Box::count`: each flag as 0 or 1, for summing. */
  function Tally(b: Box): (r: (int, int))
    ensures r.0 == 0 || r.0 == 1
    ensures r.1 == 0 || r.1 == 1
    ensures r.0 == 1 <==> b.hasTwo
    ensures r.1 == 1 <==> b.hasThree
  {
    (if b.hasTwo then 1 else 0, if b.hasThree then 1 else 0)
  }

  /** `list_combinations`: count every character in a map, then scan the
      map's values in whatever order it yields them; a value of 2 sets the
      first flag and a value of 3 the second, any number of times. */
  method ListCombinations(s: string) returns (b: Box)
    ensures b.hasTwo <==> SomeLetterTimes(s, 2)
    ensures b.hasThree <==> SomeLetterTimes(s, 3)
  {
    var counts: map<char, nat> := map[];
    var i := 0;
    while i < |s|
      invariant 0 <= i <= |s|
      invariant forall c :: c in counts <==> multiset(s[..i])[c] > 0
      invariant forall c :: c in counts ==> counts[c] == multiset(s[..i])[c]
    {
      assert s[..i + 1] == s[..i] + [s[i]];
      counts := counts[s[i] := (if s[i] in counts then counts[s[i]] else 0) + 1];
      i := i + 1;
    }
    assert s[..i] == s;
    var hasTwo, hasThree := false, false;
    var pending := counts.Keys;
    while pending != {}
      invariant pending <= counts.Keys
      invariant hasTwo <==> exists c :: c in counts && c !in pending && counts[c] == 2
      invariant hasThree <==> exists c :: c in counts && c !in pending && counts[c] == 3
      decreases pending
    {
      var c :| c in pending;
      if counts[c] == 2 {
        hasTwo := true;
      } else if counts[c] == 3 {
        hasThree := true;
      }
      pending := pending - {c};
    }
    b := Box(hasTwo, hasThree);
    CountedLetters(s, counts, 2);
    CountedLetters(s, counts, 3);
  }

  lemma CountedLetters(s: string, counts: map<char, nat>, k: nat)
    requires k > 0
    requires forall c :: c in counts <==> multiset(s)[c] > 0
    requires forall c :: c in counts ==> counts[c] == multiset(s)[c]
    ensures SomeLetterTimes(s, k) <==> exists c :: c in counts && counts[c] == k
  {
    if c :| c in counts && counts[c] == k {
      assert c in multiset(s);
      var i :| 0 <= i < |s| && s[i] == c;
    }
  }

  /** Number of IDs in `lines` whose box has the given flag. */
  function Flagged(lines: seq<string>, three: bool): set<nat> {
    set i: nat | i < |lines| && HasFlag(lines[i], three)
  }

  predicate HasFlag(line: string, three: bool) {
    if three then Combinations(line).hasThree else Combinations(line).hasTwo
  }

  /** The two running sums of `calculate_checksum`'s loop. */
  function Totals(lines: seq<string>): (t: (int, int))
    ensures t.0 == |Flagged(lines, false)|
    ensures t.1 == |Flagged(lines, true)|
  {
    if |lines| == 0 then (0, 0)
    else
      var n := |lines| - 1;
      var before := Totals(lines[..n]);
      var step := Tally(Combinations(lines[n]));
      assert step.0 == (if HasFlag(lines[n], false) then 1 else 0);
      assert step.1 == (if HasFlag(lines[n], true) then 1 else 0);
      FlaggedStep(lines, false);
      FlaggedStep(lines, true);
      (before.0 + step.0, before.1 + step.1)
  }

  lemma FlaggedStep(lines: seq<string>, three: bool)
    requires |lines| > 0
    ensures var n := |lines| - 1;
            |Flagged(lines, three)| == |Flagged(lines[..n], three)| + (if HasFlag(lines[n], three) then 1 else 0)
  {
    var n := |lines| - 1;
    var before := Flagged(lines[..n], three);
    var extra: set<nat> := if HasFlag(lines[n], three) then {n} else {};
    forall i: nat
      ensures i in Flagged(lines, three) <==> i in before + extra
    {
      if i < n {
        assert lines[..n][i] == lines[i];
      }
    }
    assert Flagged(lines, three) == before + extra;
  }

  /** `calculate_checksum`: the number of IDs with a doubled letter times the
      number with a tripled letter. */
  function CalculateChecksum(lines: seq<string>): (r: int)
    ensures r == |Flagged(lines, false)| * |Flagged(lines, true)|
    ensures |lines| == 0 ==> r == 0
  {
    var t := Totals(lines);
    t.0 * t.1
  }
}
