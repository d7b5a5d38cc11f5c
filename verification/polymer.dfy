/** Day 5: a polymer is a string of units; two adjacent units that are the
    same letter in opposite case react and both disappear. */
module Polymer {
  import opened Wrappers
  import Sorting

  predicate IsUpper(c: char) {
    'A' <= c <= 'Z'
  }

  predicate IsLower(c: char) {
    'a' <= c <= 'z'
  }

  /** `char::to_ascii_lowercase`: upper-case ASCII letters to lower case,
      every other character unchanged. */
  function ToAsciiLower(c: char): char {
    if IsUpper(c) then (c as int + 32) as char else c
  }

  /** The reaction rule: the same letter, once in each case, in either order. */
  predicate Reacts(a: char, b: char) {
    (IsUpper(a) && IsLower(b) && ToAsciiLower(a) == b) || (IsLower(a) && IsUpper(b) && ToAsciiLower(b) == a)
  }

  /** Ordering of `sort_unstable` on characters: by code point. */
  function CharLe(a: char, b: char): bool {
    a <= b
  }

  lemma CharLeTotalPreorder()
    ensures Sorting.TotalPreorder(CharLe)
  {
  }

  /** `check_unit`: sort the unit's characters and test whether the two
      smallest are an upper-case letter followed by its lower-case form. */
  function CheckUnit(unit: string): (r: bool)
    requires |unit| >= 2
    ensures |unit| == 2 ==> (r <==> Reacts(unit[0], unit[1]))
  {
    CharLeTotalPreorder();
    var chars := Sorting.InsertionSort(unit, CharLe);
    SortedPair(unit, chars);
    IsUpper(chars[0]) && IsLower(chars[1]) && ToAsciiLower(chars[0]) == ToAsciiLower(chars[1])
  }

  /** The sorted form of a pair holds the same two characters, smaller first. */
  lemma SortedPair(unit: string, chars: string)
    requires multiset(chars) == multiset(unit) && |chars| == |unit|
    requires Sorting.SortedBy(chars, CharLe)
    ensures |unit| == 2 ==>
              (chars[0] == unit[0] && chars[1] == unit[1]) || (chars[0] == unit[1] && chars[1] == unit[0])
  {
    if |unit| == 2 {
      assert unit == [unit[0], unit[1]];
      assert chars == [chars[0], chars[1]];
      assert chars[0] in multiset(unit);
      assert chars[1] in multiset(unit);
      assert CharLe(chars[0], chars[1]);
    }
  }

  /** `check_unit` on a two-unit window of a polymer is the reaction rule. */
  lemma CheckUnitWindow(s: string, i: nat)
    requires i + 1 < |s|
    ensures CheckUnit(s[i..i + 2]) <==> Reacts(s[i], s[i + 1])
  {
    var u := s[i..i + 2];
    assert u[0] == s[i] && u[1] == s[i + 1];
  }

  /** No two adjacent units react. */
  predicate Inert(s: string) {
    forall i :: 0 <= i < |s| - 1 ==> !Reacts(s[i], s[i + 1])
  }

  /** The inner `for` loop of `process_polymer`: the first position, from
      `from` on, whose two-unit window passes `check_unit`. */
  function FirstReactionFrom(s: string, from: nat): (r: Option<nat>)
    requires forall j :: 0 <= j < from && j + 1 < |s| ==> !Reacts(s[j], s[j + 1])
    ensures r.Some? ==> from <= r.value && r.value + 1 < |s| && Reacts(s[r.value], s[r.value + 1])
    ensures r.Some? ==> forall j :: 0 <= j < r.value ==> !Reacts(s[j], s[j + 1])
    ensures r.None? ==> Inert(s)
    decreases |s| - from
  {
    if from + 1 >= |s| then None
    else
      CheckUnitWindow(s, from);
      if CheckUnit(s[from..from + 2]) then
        assert Reacts(s[from], s[from + 1]);
        Some(from)
    else FirstReactionFrom(s, from + 1)
  }

  /** The leftmost reacting pair of `s`, if any. */
  function FirstReaction(s: string): (r: Option<nat>)
    ensures r.Some? ==> r.value + 1 < |s| && Reacts(s[r.value], s[r.value + 1])
    ensures r.Some? ==> forall j :: 0 <= j < r.value ==> !Reacts(s[j], s[j + 1])
    ensures r.None? <==> Inert(s)
  {
    FirstReactionFrom(s, 0)
  }

  /** A reacting pair with none before it is the one `FirstReaction` finds. */
  lemma FirstReactionIsLeftmost(s: string, i: nat)
    requires i + 1 < |s| && Reacts(s[i], s[i + 1])
    requires forall j :: 0 <= j < i ==> !Reacts(s[j], s[j + 1])
    ensures FirstReaction(s) == Some(i)
  {
    assert !Inert(s);
  }

  /** A pass of the outer loop: reduction carries on from the polymer with
      its leftmost reacting pair removed. */
  lemma ProcessPolymerStep(s: string, i: nat)
    requires i + 1 < |s| && Reacts(s[i], s[i + 1])
    requires forall j :: 0 <= j < i ==> !Reacts(s[j], s[j + 1])
    ensures ProcessPolymer(s) == ProcessPolymer(React(s, i))
  {
    FirstReactionIsLeftmost(s, i);
  }

  /** One pass of the outer loop: delete the leftmost reacting pair. */
  function React(s: string, i: nat): (r: string)
    requires i + 1 < |s|
    ensures |r| == |s| - 2
    ensures forall k :: 0 <= k < i ==> r[k] == s[k]
    ensures forall k :: i <= k < |r| ==> r[k] == s[k + 2]
  {
    s[..i] + s[i + 2..]
  }

  /** `process_polymer`: react the leftmost pair until none is left. The
      result is inert, no longer than the input, of the same parity, and an
      inert polymer comes back unchanged. */
  function ProcessPolymer(s: string): (r: string)
    ensures Inert(r)
    ensures |r| <= |s|
    ensures |r| % 2 == |s| % 2
    ensures Inert(s) ==> r == s
    decreases |s|
  {
    match FirstReaction(s)
    case None => s
    case Some(i) =>
      assert !Inert(s);
      var t := React(s, i);
      assert |t| % 2 == |s| % 2 by { TwoShorter(|s|); }
      ProcessPolymer(t)
  }

  lemma TwoShorter(n: nat)
    requires n >= 2
    ensures (n - 2) % 2 == n % 2
  {
  }

  /** Reducing twice is reducing once. */
  lemma ProcessPolymerIdempotent(s: string)
    ensures ProcessPolymer(ProcessPolymer(s)) == ProcessPolymer(s)
  {
  }

  /** A polymer that still has a reacting pair gets strictly shorter. */
  lemma ProcessPolymerShrinks(s: string)
    requires !Inert(s)
    ensures |ProcessPolymer(s)| <= |s| - 2
  {
    var i := FirstReaction(s).value;
    assert ProcessPolymer(s) == ProcessPolymer(React(s, i));
  }

  /** Units of letter `upper` in upper case minus those in lower case. */
  function Charge(s: string, upper: char): int
    requires IsUpper(upper)
  {
    multiset(s)[upper] as int - multiset(s)[ToAsciiLower(upper)] as int
  }

  /** A reaction removes one unit of each case of a single letter. */
  lemma ReactKeepsCharge(s: string, i: nat, upper: char)
    requires i + 1 < |s| && Reacts(s[i], s[i + 1])
    requires IsUpper(upper)
    ensures Charge(React(s, i), upper) == Charge(s, upper)
  {
    var a, b := s[i], s[i + 1];
    assert s == s[..i] + [a, b] + s[i + 2..];
    assert React(s, i) == s[..i] + s[i + 2..];
    var m, m' := multiset(s), multiset(React(s, i));
    assert m == m' + multiset{a, b};
    var lower := ToAsciiLower(upper);
    assert IsLower(lower);
    if IsUpper(a) {
      assert m[upper] == m'[upper] + (if a == upper then 1 else 0);
      assert m[lower] == m'[lower] + (if b == lower then 1 else 0);
      assert a == upper <==> b == lower;
    } else {
      assert m[upper] == m'[upper] + (if b == upper then 1 else 0);
      assert m[lower] == m'[lower] + (if a == lower then 1 else 0);
      assert b == upper <==> a == lower;
    }
  }

  /** Reduction preserves, for every letter, the excess of upper-case over
      lower-case units. */
  lemma {:induction false} ProcessPolymerKeepsCharge(s: string, upper: char)
    requires IsUpper(upper)
    ensures Charge(ProcessPolymer(s), upper) == Charge(s, upper)
    decreases |s|
  {
    match FirstReaction(s)
    case None =>
    case Some(i) =>
      ReactKeepsCharge(s, i, upper);
      ProcessPolymerKeepsCharge(React(s, i), upper);
  }

  /** The loop of `process_polymer` as written, over a mutable string. */
  method ProcessPolymerLoop(polymer: string) returns (result: string)
    ensures result == ProcessPolymer(polymer)
    ensures Inert(result)
  {
    result := polymer;
    while true
      invariant ProcessPolymer(result) == ProcessPolymer(polymer)
      decreases |result|
    {
      var changed := false;
      if |result| > 0 {
        var i := 0;
        while i < |result| - 1
          invariant 0 <= i <= |result| - 1
          invariant forall j :: 0 <= j < i ==> !Reacts(result[j], result[j + 1])
          invariant !changed
        {
          CheckUnitWindow(result, i);
          if CheckUnit(result[i..i + 2]) {
            FirstReactionIsLeftmost(result, i);
            result := result[..i] + result[i + 2..];
            changed := true;
            break;
          }
          i := i + 1;
        }
      }
      if !changed {
        assert Inert(result);
        return;
      }
    }
  }
}
