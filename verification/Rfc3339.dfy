/** `built_at`: the RFC 3339 UTC printer and the parser that accepts only what it prints.

    A text is given as its bytes, one `char` a byte; a multi-byte character holds no digit and no separator. */
module Rfc3339 {
  import opened Wrappers
  import Decimal
  import opened CivilCalendar

  const DAY: nat := 86400

  /** 10000-01-01T00:00:00Z, the first instant whose year needs five digits. */
  const END_OF_YEAR_9999: nat := 253402300800

  function DayOf(seconds: nat): nat { seconds / DAY }
  function HourOf(seconds: nat): nat { seconds % DAY / 3600 }
  function MinuteOf(seconds: nat): nat { seconds % DAY % 3600 / 60 }
  function SecondOf(seconds: nat): nat { seconds % DAY % 60 }

  function Print(seconds: nat): string {
    var d := CivilFromDays(DayOf(seconds));
    DaysRoundTrip(DayOf(seconds));
    DaysFromEpochAreLate(DayOf(seconds));
    Assemble(Decimal.Padded(d.year, 4), Decimal.Padded(d.month, 2), Decimal.Padded(d.day, 2),
             Decimal.Padded(HourOf(seconds), 2), Decimal.Padded(MinuteOf(seconds), 2),
             Decimal.Padded(SecondOf(seconds), 2))
  }

  function Assemble(year: string, month: string, day: string, hour: string, minute: string, second: string): string {
    year + "-" + month + "-" + day + "T" + hour + ":" + minute + ":" + second + "Z"
  }

  /** One fixed-width field of digits. */
  function Field(text: string, from: nat, to: nat): Option<nat>
    requires from <= to <= |text|
  {
    if Decimal.AllDigits(text[from..to]) then Some(Decimal.Value(text[from..to])) else None
  }

  predicate HasSeparators(text: string) {
    |text| == 20 && text[4] == '-' && text[7] == '-' && text[10] == 'T'
    && text[13] == ':' && text[16] == ':' && text[19] == 'Z'
  }

  function Parse(text: string): Option<nat> {
    if !HasSeparators(text) then None
    else match (Field(text, 0, 4), Field(text, 5, 7), Field(text, 8, 10),
                Field(text, 11, 13), Field(text, 14, 16), Field(text, 17, 19))
      case (Some(year), Some(month), Some(day), Some(hour), Some(minute), Some(second)) =>
        if !(1 <= month <= 12) || !(1 <= day <= 31) then None
        else if hour > 23 || minute > 59 || second > 59 then None
        else
          var days := DaysFromCivil(year, month, day);
          if CivilFromDays(days) != Date(year, month, day) then None
          else
            var total := days * 86400 + hour * 3600 + minute * 60 + second;
            if total < 0 then None else Some(total)
      case _ => None
  }

  /** From the epoch on, years are at least 1970, so the printer never meets a negative year. */
  lemma DaysFromEpochAreLate(days: nat)
    ensures CivilFromDays(days).year >= 1970
  {
    DateOrderIsDayOrder(0, days);
    CivilFromDaysIsTheCalendar(0);
  }

  lemma YearFitsFourDigits(seconds: nat)
    ensures CivilFromDays(DayOf(seconds)).year < 10000 <==> seconds < END_OF_YEAR_9999
  {
    var last := Date(9999, 12, 31);
    assert DaysOf(last) == 2932896;
    DateRoundTrip(last);
    TomorrowIsTheNextDay(last);
    DateRoundTrip(Tomorrow(last));
    DateOrderIsDayOrder(DayOf(seconds), 2932897);
    DateOrderIsDayOrder(2932896, DayOf(seconds));
    DaysRoundTrip(DayOf(seconds));
    hide CivilFromDays, DaysFromCivil;
  }

  lemma TwoDigits(n: nat)
    requires n < 100
    ensures |Decimal.Padded(n, 2)| == 2 && Decimal.AllDigits(Decimal.Padded(n, 2))
    ensures Decimal.Value(Decimal.Padded(n, 2)) == n
  {
    assert Decimal.Power10(2) == 100;
    Decimal.PaddedWidth(n, 2);
    Decimal.ValueOfPadded(n, 2);
  }

  lemma FourDigits(n: nat)
    ensures |Decimal.Padded(n, 4)| == 4 <==> n < 10000
    ensures |Decimal.Padded(n, 4)| >= 4
    ensures Decimal.AllDigits(Decimal.Padded(n, 4)) && Decimal.Value(Decimal.Padded(n, 4)) == n
  {
    assert Decimal.Power10(4) == 10 * Decimal.Power10(3) == 100 * Decimal.Power10(2) == 10000;
    Decimal.PaddedWidth(n, 4);
    Decimal.ValueOfPadded(n, 4);
  }

  lemma FieldsOfAssembled(y: string, mo: string, d: string, h: string, mi: string, s: string)
    requires |y| == 4 && |mo| == |d| == |h| == |mi| == |s| == 2
    ensures var t := Assemble(y, mo, d, h, mi, s);
            HasSeparators(t) && t[0..4] == y && t[5..7] == mo && t[8..10] == d
            && t[11..13] == h && t[14..16] == mi && t[17..19] == s
  {
  }

  lemma AssembledOfFields(t: string)
    requires HasSeparators(t)
    ensures t == Assemble(t[0..4], t[5..7], t[8..10], t[11..13], t[14..16], t[17..19])
  {
  }

  lemma ClockRoundTrip(seconds: nat)
    ensures HourOf(seconds) <= 23 && MinuteOf(seconds) <= 59 && SecondOf(seconds) <= 59
    ensures DayOf(seconds) * 86400 + HourOf(seconds) * 3600 + MinuteOf(seconds) * 60 + SecondOf(seconds) == seconds
  {
    var s := seconds % DAY;
    assert s % 60 == s % 3600 % 60;
  }

  ghost predicate IsField(s: string, width: nat, value: nat) {
    |s| == width && Decimal.AllDigits(s) && Decimal.Value(s) == value
  }

  lemma ParseAssembled(y: string, mo: string, d: string, h: string, mi: string, s: string,
                       date: Date, hour: nat, minute: nat, second: nat)
    requires 0 <= date.year && IsDate(date) && IsField(y, 4, date.year)
    requires IsField(mo, 2, date.month) && IsField(d, 2, date.day)
    requires IsField(h, 2, hour) && IsField(mi, 2, minute) && IsField(s, 2, second)
    requires hour <= 23 && minute <= 59 && second <= 59
    requires 0 <= DaysOf(date)
    ensures Parse(Assemble(y, mo, d, h, mi, s))
         == Some(DaysOf(date) * 86400 + hour * 3600 + minute * 60 + second)
  {
    hide CivilFromDays, DaysFromCivil, IsLeap, Decimal.Value, Assemble;
    FieldsOfAssembled(y, mo, d, h, mi, s);
    DateRoundTrip(date);
  }

  lemma DateFields(d: Date)
    requires IsDate(d) && 0 <= d.year
    ensures IsField(Decimal.Padded(d.month, 2), 2, d.month) && IsField(Decimal.Padded(d.day, 2), 2, d.day)
    ensures if d.year < 10000 then IsField(Decimal.Padded(d.year, 4), 4, d.year) else |Decimal.Padded(d.year, 4)| > 4
  {
    hide Decimal.Padded, Decimal.Value, IsLeap;
    FourDigits(d.year);
    TwoDigits(d.month);
    TwoDigits(d.day);
  }

  lemma ClockFields(seconds: nat)
    ensures IsField(Decimal.Padded(HourOf(seconds), 2), 2, HourOf(seconds))
    ensures IsField(Decimal.Padded(MinuteOf(seconds), 2), 2, MinuteOf(seconds))
    ensures IsField(Decimal.Padded(SecondOf(seconds), 2), 2, SecondOf(seconds))
  {
    hide Decimal.Padded, Decimal.Value, DayOf, HourOf, MinuteOf, SecondOf;
    ClockRoundTrip(seconds);
    TwoDigits(HourOf(seconds));
    TwoDigits(MinuteOf(seconds));
    TwoDigits(SecondOf(seconds));
  }

  /** Reading back what was printed gives the instant, exactly while the year has four digits. */
  lemma ParseOfPrint(seconds: nat)
    ensures Parse(Print(seconds)) == if seconds < END_OF_YEAR_9999 then Some(seconds) else None
  {
    hide CivilFromDays, DaysFromCivil, IsDate, Decimal.Padded, Decimal.Value, Decimal.AllDigits,
         Parse, Assemble, DayOf, HourOf, MinuteOf, SecondOf;
    var d := CivilFromDays(DayOf(seconds));
    YearFitsFourDigits(seconds);
    DaysRoundTrip(DayOf(seconds));
    DaysFromEpochAreLate(DayOf(seconds));
    DateFields(d);
    ClockFields(seconds);
    ClockRoundTrip(seconds);
    var y, mo, dd := Decimal.Padded(d.year, 4), Decimal.Padded(d.month, 2), Decimal.Padded(d.day, 2);
    var h, mi := Decimal.Padded(HourOf(seconds), 2), Decimal.Padded(MinuteOf(seconds), 2);
    var s := Decimal.Padded(SecondOf(seconds), 2);
    assert Print(seconds) == Assemble(y, mo, dd, h, mi, s);
    if seconds < END_OF_YEAR_9999 {
      ParseAssembled(y, mo, dd, h, mi, s, d, HourOf(seconds), MinuteOf(seconds), SecondOf(seconds));
    } else {
      LongTextsAreRefused(y, mo, dd, h, mi, s);
    }
  }

  lemma LongTextsAreRefused(y: string, mo: string, d: string, h: string, mi: string, s: string)
    requires |y| > 4 && |mo| == |d| == |h| == |mi| == |s| == 2
    ensures Parse(Assemble(y, mo, d, h, mi, s)) == None
  {
  }

  /** Whatever is accepted is exactly what the printer writes for it: no other spelling and no non-date is read. */
  lemma PrintOfParse(text: string)
    requires Parse(text).Some?
    ensures Print(Parse(text).value) == text && Parse(text).value < END_OF_YEAR_9999
  {
    AssembledOfFields(text);
    var year, month, day := Field(text, 0, 4).value, Field(text, 5, 7).value, Field(text, 8, 10).value;
    var hour, minute, second := Field(text, 11, 13).value, Field(text, 14, 16).value, Field(text, 17, 19).value;
    var days := DaysFromCivil(year, month, day);
    var seconds := Parse(text).value;
    hide CivilFromDays, DaysFromCivil;
    SplitInstant(days, hour, minute, second, seconds);
    Decimal.PaddedOfValue(text[0..4]);
    Decimal.PaddedOfValue(text[5..7]);
    Decimal.PaddedOfValue(text[8..10]);
    Decimal.PaddedOfValue(text[11..13]);
    Decimal.PaddedOfValue(text[14..16]);
    Decimal.PaddedOfValue(text[17..19]);
    FourDigits(year);
    YearFitsFourDigits(seconds);
  }

  lemma SplitInstant(days: int, hour: nat, minute: nat, second: nat, total: nat)
    requires hour <= 23 && minute <= 59 && second <= 59
    requires total == days * 86400 + hour * 3600 + minute * 60 + second
    ensures DayOf(total) == days && HourOf(total) == hour
    ensures MinuteOf(total) == minute && SecondOf(total) == second
  {
    DivisionIsUnique(total, DAY, days, hour * 3600 + minute * 60 + second);
  }

  /** The accepted texts are the printed ones, one text an instant. */
  lemma AcceptedAreThePrinted(text: string)
    ensures Parse(text).Some? <==> exists s: nat | s < END_OF_YEAR_9999 :: text == Print(s)
  {
    if Parse(text).Some? {
      PrintOfParse(text);
    } else if exists s: nat | s < END_OF_YEAR_9999 :: text == Print(s) {
      var s: nat :| s < END_OF_YEAR_9999 && text == Print(s);
      ParseOfPrint(s);
    }
  }

  /** A field-wise plausible text that names no calendar date is refused, never normalised. */
  lemma NonDatesAreRefused(text: string)
    requires Parse(text).Some?
    ensures Field(text, 0, 4).Some? && Field(text, 5, 7).Some? && Field(text, 8, 10).Some?
    ensures IsDate(Date(Field(text, 0, 4).value, Field(text, 5, 7).value, Field(text, 8, 10).value))
  {
    RoundTripsExactlyDates(Date(Field(text, 0, 4).value, Field(text, 5, 7).value, Field(text, 8, 10).value));
  }

  /** The form of a printed instant: the calendar date of its day and the clock of the seconds left, each
      field in its place between the separators. */
  lemma PrintedForm(seconds: nat)
    requires seconds < END_OF_YEAR_9999
    ensures var t, date := Print(seconds), CivilFromDays(seconds / 86_400);
            && |t| == 20 && t[4] == t[7] == '-' && t[10] == 'T' && t[13] == t[16] == ':' && t[19] == 'Z'
            && IsField(t[0..4], 4, date.year) && IsField(t[5..7], 2, date.month) && IsField(t[8..10], 2, date.day)
            && IsField(t[11..13], 2, seconds % 86_400 / 3_600) && IsField(t[14..16], 2, seconds % 3_600 / 60)
            && IsField(t[17..19], 2, seconds % 60)
  {
    var date := CivilFromDays(DayOf(seconds));
    DaysRoundTrip(DayOf(seconds));
    DaysFromEpochAreLate(DayOf(seconds));
    YearFitsFourDigits(seconds);
    hide CivilFromDays, Decimal.Padded, Decimal.Value, HourOf, MinuteOf, SecondOf;
    FourDigits(date.year);
    TwoDigits(date.month);
    TwoDigits(date.day);
    ClockFields(seconds);
    ClockSeconds(seconds);
    var y, mo, d := Decimal.Padded(date.year, 4), Decimal.Padded(date.month, 2), Decimal.Padded(date.day, 2);
    var h, mi := Decimal.Padded(HourOf(seconds), 2), Decimal.Padded(MinuteOf(seconds), 2);
    var s := Decimal.Padded(SecondOf(seconds), 2);
    assert Print(seconds) == Assemble(y, mo, d, h, mi, s);
    hide Print, Assemble;
    FieldsOfAssembled(y, mo, d, h, mi, s);
  }

  lemma ClockSeconds(seconds: nat)
    ensures HourOf(seconds) == seconds % 86_400 / 3_600 && MinuteOf(seconds) == seconds % 3_600 / 60
    ensures SecondOf(seconds) == seconds % 60
  {
    var days, rest := seconds / 86_400, seconds % 86_400;
    RemainderOfHour(seconds, 24 * days + rest / 3_600, rest % 3_600);
    RemainderOfMinute(seconds, 1_440 * days + rest / 60, rest % 60);
  }

  lemma RemainderOfHour(n: nat, hours: nat, rest: nat)
    requires n == 3_600 * hours + rest && rest < 3_600
    ensures n % 3_600 == rest
  {
  }

  lemma RemainderOfMinute(n: nat, minutes: nat, rest: nat)
    requires n == 60 * minutes + rest && rest < 60
    ensures n % 60 == rest
  {
  }
}
