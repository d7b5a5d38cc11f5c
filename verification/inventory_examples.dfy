/** The source's test cases for day 2, proved of the model. */
module InventoryExamples {
  import opened Inventory

  /** Occurrences of `c` in `s[from..]`, counted position by position. */
  function OccursFrom(s: string, c: char, from: nat): nat
    requires from <= |s|
    decreases |s| - from
  {
    if from == |s| then 0 else (if s[from] == c then 1 else 0) + OccursFrom(s, c, from + 1)
  }

  lemma {:induction false} OccursFromIsMultiplicity(s: string, c: char, from: nat)
    requires from <= |s|
    ensures OccursFrom(s, c, from) == multiset(s[from..])[c]
    decreases |s| - from
  {
    if from < |s| {
      OccursFromIsMultiplicity(s, c, from + 1);
      assert s[from..] == [s[from]] + s[from + 1..];
    }
  }

  /** Some position at or after `from` holds a letter occurring `k` times. */
  function AnyTimesFrom(s: string, k: nat, from: nat): bool
    requires from <= |s|
    decreases |s| - from
  {
    from < |s| && (OccursFrom(s, s[from], 0) == k || AnyTimesFrom(s, k, from + 1))
  }

  lemma {:induction false} AnyTimesFromMeaning(s: string, k: nat, from: nat)
    requires from <= |s|
    ensures AnyTimesFrom(s, k, from) <==> exists i :: from <= i < |s| && multiset(s)[s[i]] == k
    decreases |s| - from
  {
    assert s[0..] == s;
    if from < |s| {
      OccursFromIsMultiplicity(s, s[from], 0);
      AnyTimesFromMeaning(s, k, from + 1);
    }
  }

  /** Both flags of an ID, evaluated letter by letter. */
  lemma Evaluate(s: string)
    ensures Combinations(s) == Box(AnyTimesFrom(s, 2, 0), AnyTimesFrom(s, 3, 0))
  {
    AnyTimesFromMeaning(s, 2, 0);
    AnyTimesFromMeaning(s, 3, 0);
  }

  lemma NeitherExample(s: string)
    requires s == "abcdef"
    ensures Combinations(s) == Box(false, false)
  {
    Evaluate(s);
  }

  lemma BothExample(s: string)
    requires s == "bababc"
    ensures Combinations(s) == Box(true, true)
  {
    Evaluate(s);
  }

  lemma TwoOnlyExample(s: string)
    requires s == "abbcde"
    ensures Combinations(s) == Box(true, false)
  {
    Evaluate(s);
  }

  lemma TwoOnlyExample2(s: string)
    requires s == "abcdee"
    ensures Combinations(s) == Box(true, false)
  {
    Evaluate(s);
  }

  lemma ThreeOnlyExample(s: string)
    requires s == "abcccd"
    ensures Combinations(s) == Box(false, true)
  {
    Evaluate(s);
  }

  /** Two letters occurring twice set the first flag once. */
  lemma TwoCountedTwiceExample(s: string)
    requires s == "aabcdd"
    ensures Combinations(s) == Box(true, false)
  {
    Evaluate(s);
  }

  /** Two letters occurring three times set the second flag once. */
  lemma ThreeCountedTwiceExample(s: string)
    requires s == "ababab"
    ensures Combinations(s) == Box(false, true)
  {
    Evaluate(s);
  }

  /** The seven IDs of the source's checksum test and their boxes. */
  const ExampleIds: seq<string> := ["abcdef", "bababc", "abbcde", "abcccd", "aabcdd", "abcdee", "ababab"]
  const ExampleBoxes: seq<Box> := [Box(false, false), Box(true, true), Box(true, false), Box(false, true),
                                   Box(true, false), Box(true, false), Box(false, true)]

  lemma ExampleBoxesComputed()
    ensures forall i :: 0 <= i < |ExampleIds| ==> Combinations(ExampleIds[i]) == ExampleBoxes[i]
  {
    forall i | 0 <= i < |ExampleIds|
      ensures Combinations(ExampleIds[i]) == ExampleBoxes[i]
    {
      if i == 0 {
        NeitherExample(ExampleIds[0]);
      } else if i == 1 {
        BothExample(ExampleIds[1]);
      } else if i == 2 {
        TwoOnlyExample(ExampleIds[2]);
      } else if i == 3 {
        ThreeOnlyExample(ExampleIds[3]);
      } else if i == 4 {
        TwoCountedTwiceExample(ExampleIds[4]);
      } else if i == 5 {
        TwoOnlyExample2(ExampleIds[5]);
      } else {
        ThreeCountedTwiceExample(ExampleIds[6]);
      }
    }
  }

  /** The checksum read off boxes already computed for the IDs. */
  lemma ChecksumFromBoxes(lines: seq<string>, boxes: seq<Box>)
    requires |boxes| == |lines|
    requires forall i :: 0 <= i < |lines| ==> Combinations(lines[i]) == boxes[i]
    ensures CalculateChecksum(lines)
            == |set i: nat | i < |boxes| && boxes[i].hasTwo| * |set i: nat | i < |boxes| && boxes[i].hasThree|
  {
    assert Flagged(lines, false) == set i: nat | i < |boxes| && boxes[i].hasTwo;
    assert Flagged(lines, true) == set i: nat | i < |boxes| && boxes[i].hasThree;
  }

  lemma ExampleTwos()
    ensures |set i: nat | i < |ExampleBoxes| && ExampleBoxes[i].hasTwo| == 4
  {
    assert (set i: nat | i < |ExampleBoxes| && ExampleBoxes[i].hasTwo) == {1, 2, 4, 5};
  }

  lemma ExampleThrees()
    ensures |set i: nat | i < |ExampleBoxes| && ExampleBoxes[i].hasThree| == 3
  {
    assert (set i: nat | i < |ExampleBoxes| && ExampleBoxes[i].hasThree) == {1, 3, 6};
  }

  /** Four IDs with a doubled letter and three with a tripled one give 12. */
  lemma ChecksumExample()
    ensures CalculateChecksum(ExampleIds) == 12
  {
    ExampleBoxesComputed();
    ChecksumFromBoxes(ExampleIds, ExampleBoxes);
    ExampleTwos();
    ExampleThrees();
  }
}
