/** The age argument of `generations prune --older-than`. */
module Durations {
  import opened Wrappers
  import Decimal

  const U64_MAX: nat := 0xffff_ffff_ffff_ffff

  function Scale(unit: char): Option<nat> {
    if unit == 'd' then Some(86_400)
    else if unit == 'h' then Some(3_600)
    else if unit == 'm' then Some(60)
    else if unit == 's' then Some(1)
    else None
  }

  /** `duration_seconds`: a count and a unit, in 64 bits. */
  function Seconds(raw: string): Option<nat> {
    if |raw| < 2 then None
    else
      var digits, scale := raw[..|raw| - 1], Scale(raw[|raw| - 1]);
      if scale.None? || !Decimal.AllDigits(digits) then None
      else if Decimal.Value(digits) > U64_MAX then None
      else if Decimal.Value(digits) * scale.value > U64_MAX then None
      else Some(Decimal.Value(digits) * scale.value)
  }

  /** Every count that fits is accepted in every unit, and read as what it says. */
  lemma SecondsOfPrint(count: nat, unit: char)
    requires Scale(unit).Some?
    ensures Seconds(Decimal.Print(count) + [unit])
            == if count * Scale(unit).value <= U64_MAX then Some(count * Scale(unit).value) else None
  {
    Decimal.ValueOfPrint(count);
    var raw := Decimal.Print(count) + [unit];
    assert raw[..|raw| - 1] == Decimal.Print(count);
  }

  /** The seconds of each unit: a day, an hour, a minute and a second. */
  lemma UnitsInSeconds(count: nat, unit: char, seconds: nat)
    requires (unit, seconds) in {('d', 86_400), ('h', 3_600), ('m', 60), ('s', 1)}
    ensures Seconds(Decimal.Print(count) + [unit])
            == if count * seconds <= 0xffff_ffff_ffff_ffff then Some(count * seconds) else None
  {
    assert Scale(unit) == Some(seconds);
    hide Seconds, Decimal.Print, Scale;
    SecondsOfPrint(count, unit);
  }

  /** Whatever is accepted is a count, perhaps with leading zeros, and a unit, and is read as what that
      says. A bare number in particular has no unit and no age. */
  lemma AcceptedIsACountAndAUnit(raw: string)
    ensures Seconds(raw).Some? ==>
              exists count: nat, unit, seconds: nat ::
                && (unit, seconds) in {('d', 86_400), ('h', 3_600), ('m', 60), ('s', 1)}
                && raw == Decimal.Padded(count, |raw| - 1) + [unit] && Seconds(raw) == Some(count * seconds)
    ensures Decimal.AllDigits(raw) ==> Seconds(raw).None?
  {
    if Seconds(raw).Some? {
      var digits, unit := raw[..|raw| - 1], raw[|raw| - 1];
      Decimal.PaddedOfValue(digits);
      assert raw == digits + [unit];
      assert (unit, Scale(unit).value) in {('d', 86_400), ('h', 3_600), ('m', 60), ('s', 1)};
    }
    if |raw| >= 2 && Decimal.AllDigits(raw) {
      assert Decimal.IsDigit(raw[|raw| - 1]);
    }
  }
}
