/** The source's test cases for day 5, proved of the model. */
module PolymerExamples {
  import opened Wrappers
  import opened Polymer

  /** The source's `check_unit` test: a letter next to its other case reacts. */
  lemma CheckUnitReactingExamples(unit: string)
    requires unit == "aA" || unit == "Aa"
    ensures CheckUnit(unit)
  {
    assert Reacts(unit[0], unit[1]);
  }

  /** The source's `check_unit` test: equal units and different letters do not. */
  lemma CheckUnitInertExamples(unit: string)
    requires unit == "AA" || unit == "aa" || unit == "Ab"
    ensures !CheckUnit(unit)
  {
    assert !Reacts(unit[0], unit[1]);
  }

  /** Polymers with no reacting neighbours come back unchanged. */
  lemma InertExamples(s: string)
    requires s == "abAB" || s == "aabAAB"
    ensures ProcessPolymer(s) == s
  {
    assert Inert(s);
  }

  lemma CollapseReacts1(s: string)
    requires s == "abBA"
    ensures ProcessPolymer(s) == ProcessPolymer(React(s, 1)) && React(s, 1) == "aA"
  {
    ProcessPolymerStep(s, 1);
  }

  lemma CollapseReacts2(s: string)
    requires s == "aA"
    ensures ProcessPolymer(s) == ProcessPolymer(React(s, 0)) && React(s, 0) == ""
  {
    ProcessPolymerStep(s, 0);
  }

  /** A polymer that reacts away entirely. */
  lemma CollapseExample(s: string)
    requires s == "abBA"
    ensures ProcessPolymer(s) == ""
  {
    CollapseReacts1(s);
    CollapseReacts2(React(s, 1));
    assert Inert("");
  }

  lemma LongExampleReacts1(s: string)
    requires s == "dabAcCaCBAcCcaDA"
    ensures ProcessPolymer(s) == ProcessPolymer(React(s, 4))
  {
    ProcessPolymerStep(s, 4);
  }

  lemma LongExampleRemoves1(s: string)
    requires s == "dabAcCaCBAcCcaDA"
    ensures React(s, 4) == "dabAaCBAcCcaDA"
  {
  }

  lemma LongExampleReacts2(s: string)
    requires s == "dabAaCBAcCcaDA"
    ensures ProcessPolymer(s) == ProcessPolymer(React(s, 3))
  {
    ProcessPolymerStep(s, 3);
  }

  lemma LongExampleRemoves2(s: string)
    requires s == "dabAaCBAcCcaDA"
    ensures React(s, 3) == "dabCBAcCcaDA"
  {
  }

  lemma LongExampleReacts3(s: string)
    requires s == "dabCBAcCcaDA"
    ensures ProcessPolymer(s) == ProcessPolymer(React(s, 6))
  {
    ProcessPolymerStep(s, 6);
  }

  lemma LongExampleRemoves3(s: string)
    requires s == "dabCBAcCcaDA"
    ensures React(s, 6) == "dabCBAcaDA"
  {
  }

  lemma LongExampleInert(s: string)
    requires s == "dabCBAcaDA"
    ensures ProcessPolymer(s) == s
  {
    LongExampleIsInert(s);
  }

  lemma LongExampleIsInert(s: string)
    requires s == "dabCBAcaDA"
    ensures Inert(s)
  {
    forall i | 0 <= i < |s| - 1
      ensures !Reacts(s[i], s[i + 1])
    {
      assert i in {0, 1, 2, 3, 4, 5, 6, 7, 8};
    }
  }

  /** Three reactions, each at the leftmost reacting pair, then an inert polymer. */
  lemma LongExample(s: string)
    requires s == "dabAcCaCBAcCcaDA"
    ensures ProcessPolymer(s) == "dabCBAcaDA"
  {
    LongExampleReacts1(s);
    LongExampleRemoves1(s);
    var s1 := React(s, 4);
    LongExampleReacts2(s1);
    LongExampleRemoves2(s1);
    var s2 := React(s1, 3);
    LongExampleReacts3(s2);
    LongExampleRemoves3(s2);
    LongExampleInert(React(s2, 6));
  }
}
