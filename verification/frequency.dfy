/** Day 1: one frequency change `"+n"` or `"-n"` applied to the running value. */
module Frequency {
  import opened Wrappers
  import opened Numbers
  import Text

  /** A change line the source can process without panicking: a one-byte
      first character to slice off, and a remainder `str::parse::<i32>`
      accepts. */
  predicate WellFormed(line: string) {
    |line| > 0 && Text.IsAscii(line[0]) && ParseI32(line[1..]).Some?
  }

  /** `parse_frequency_change`: `None` where the source panics (empty line,
      a multi-byte first character that `&input[..1]` cuts, unparsable
      amount); any other leading character than '+' or '-' yields 0 rather
      than the unchanged value. */
  function ParseFrequencyChange(line: string, value: int): (r: Option<int>)
    ensures r.Some? <==> WellFormed(line)
    ensures WellFormed(line) && line[0] == '+' ==> r == Some(value + ParseI32(line[1..]).value)
    ensures WellFormed(line) && line[0] == '-' ==> r == Some(value - ParseI32(line[1..]).value)
    ensures WellFormed(line) && line[0] != '+' && line[0] != '-' ==> r == Some(0)
  {
    if |line| == 0 || !Text.IsAscii(line[0]) then None
    else
      match ParseI32(line[1..])
      case None => None
      case Some(change) =>
        if line[0] == '+' then Some(value + change)
        else if line[0] == '-' then Some(value - change)
        else Some(0)
  }

  /** Undoing a change: `"-n"` after `"+n"` restores the original value. */
  lemma IncreaseThenDecrease(amount: string, value: int)
    requires ParseI32(amount).Some?
    ensures ParseFrequencyChange("+" + amount, value).Some?
    ensures ParseFrequencyChange("-" + amount, ParseFrequencyChange("+" + amount, value).value) == Some(value)
  {
    assert ("+" + amount)[1..] == amount;
    assert ("-" + amount)[1..] == amount;
  }

  /** The two cases of the source's tests. */
  lemma Examples()
    ensures ParseFrequencyChange("+1", 0) == Some(1)
    ensures ParseFrequencyChange("-4", 0) == Some(-4)
  {
    assert "+1"[1..] == "1";
    assert "-4"[1..] == "4";
  }
}
