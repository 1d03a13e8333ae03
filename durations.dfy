/**
 * The duration rules shared by both editor versions: the per-frame edit
 * `Math.max(minimum, parseInt(text) || 100)`, whose minimum is 10 in the
 * multi-select editor and 50 in the single-drag one, and the apply-to-all rule
 * `Math.max(10, parseInt(text) || 10)`.
 */
module Durations {
  import opened Common
  import opened JsParse

  /** Duration given to a newly added frame, in milliseconds. */
  const InitialDuration: int := 300
  /** Per-frame edit: value used when the text parses to `NaN` or zero. */
  const EditFallback: int := 100
  /** Apply-to-all: floor and fallback. */
  const ApplyAllMinimum: int := 10
  /** Per-frame edit floor of the multi-select editor. */
  const MultiSelectMinimum: int := 10
  /** Per-frame edit floor of the single-drag editor. */
  const SingleDragMinimum: int := 50

  /** The duration a per-frame edit stores for the text typed into the field. */
  function EditedDuration(minimum: int, text: string): (d: int)
    ensures d >= minimum
    ensures d == minimum || d == EditFallback || (ParseInt(text) == Some(d) && d != 0)
  {
    Max(minimum, OrElse(ParseInt(text), EditFallback))
  }

  /** The duration "apply to all" stores in every frame. */
  function AppliedDuration(text: string): (d: int)
    ensures d >= ApplyAllMinimum
    ensures d == ApplyAllMinimum || (ParseInt(text) == Some(d) && d != 0)
  {
    Max(ApplyAllMinimum, OrElse(ParseInt(text), ApplyAllMinimum))
  }

  /** A typed nonzero integer `n` is stored as `max(minimum, n)`. */
  lemma EditedDurationOfInteger(minimum: int, n: int, rest: string)
    requires n != 0
    requires rest == [] || (!IsDigit(rest[0], 10) && rest[0] != 'x' && rest[0] != 'X')
    ensures EditedDuration(minimum, IntToString(n) + rest) == Max(minimum, n)
  {
    ParseIntOfIntToString(n, rest);
  }

  /** A typed zero is not clamped to the minimum: it falls back to 100 first. */
  lemma EditedDurationOfZero(minimum: int, rest: string)
    requires rest == [] || (!IsDigit(rest[0], 10) && rest[0] != 'x' && rest[0] != 'X')
    ensures EditedDuration(minimum, IntToString(0) + rest) == Max(minimum, EditFallback)
  {
    ParseIntOfIntToString(0, rest);
  }

  /** Text without digits falls back to 100 (then the floor). */
  lemma EditedDurationOfNonNumeric(minimum: int, text: string)
    requires forall i :: 0 <= i < |text| ==> !IsDigit(text[i], 10)
    ensures EditedDuration(minimum, text) == Max(minimum, EditFallback)
  {
    ParseIntOfNonNumeric(text);
  }

  /** Apply-to-all stores `max(10, n)` for every typed integer, zero included. */
  lemma AppliedDurationOfInteger(n: int, rest: string)
    requires rest == [] || (!IsDigit(rest[0], 10) && rest[0] != 'x' && rest[0] != 'X')
    ensures AppliedDuration(IntToString(n) + rest) == Max(ApplyAllMinimum, n)
  {
    ParseIntOfIntToString(n, rest);
  }

  /** Apply-to-all stores 10 for text without digits. */
  lemma AppliedDurationOfNonNumeric(text: string)
    requires forall i :: 0 <= i < |text| ==> !IsDigit(text[i], 10)
    ensures AppliedDuration(text) == ApplyAllMinimum
  {
    ParseIntOfNonNumeric(text);
  }

  /** The edit rule on -5 with the multi-select floor of 10. */
  lemma EditedDurationExampleNegative()
    ensures EditedDuration(MultiSelectMinimum, "-5") == 10
  {
    assert IntToString(-5) + "" == "-5" by { assert NatToDigits(5) == "5"; }
    EditedDurationOfInteger(MultiSelectMinimum, -5, "");
  }

  /** The edit rule on 0 with the multi-select floor of 10. */
  lemma EditedDurationExampleZero()
    ensures EditedDuration(MultiSelectMinimum, "0") == 100
  {
    assert IntToString(0) + "" == "0" by { assert NatToDigits(0) == "0"; }
    EditedDurationOfZero(MultiSelectMinimum, "");
  }

  /** The edit rule on 37 and `37.5` for the floor of 10, and on 37 for the floor of 50. */
  lemma EditedDurationExamplesLarge()
    ensures EditedDuration(MultiSelectMinimum, "37") == 37
    ensures EditedDuration(MultiSelectMinimum, "37.5") == 37
    ensures EditedDuration(SingleDragMinimum, "37") == 50
  {
    assert IntToString(37) == "37" by {
      assert NatToDigits(3) == "3";
      assert NatToDigits(37) == NatToDigits(3) + "7";
    }
    assert IntToString(37) + "" == "37";
    assert IntToString(37) + ".5" == "37.5";
    EditedDurationOfInteger(MultiSelectMinimum, 37, "");
    EditedDurationOfInteger(MultiSelectMinimum, 37, ".5");
    EditedDurationOfInteger(SingleDragMinimum, 37, "");
  }
}
