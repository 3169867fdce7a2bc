/** Budget dates as text: printing, parsing, and the order of printed dates. */
module DateText {
  import opened Machine
  import opened Wrappers
  import opened StringOrder
  import opened TextParts
  import opened Decimal
  import opened CivilDates

  /** A year printed in at least four characters, the sign counted. */
  function FormatYear(y: int): string {
    if y >= 0 then Padded(y, 4) else ['-'] + Padded(-y, 3)
  }

  function FormatDate(d: Date): string
    requires Valid(d)
  {
    FormatYear(d.year) + (['-'] + (Padded(d.month, 2) + (['-'] + Padded(d.day, 2))))
  }

  function FormatUtcDay(day: I64): string {
    CivilIsValid(day);
    FormatDate(CivilFromDays(day))
  }

  /** Digits, with an optional plus sign before at least one digit, and at most `max`. */
  function ParseUnsigned(s: string, max: nat): Option<nat> {
    var digits := if |s| > 1 && s[0] == '+' then s[1..] else s;
    if digits != [] && AllDigits(digits) && Value(digits) <= max then Some(Value(digits)) else None
  }

  function ParseI32(s: string): Option<I32> {
    if |s| > 1 && s[0] == '-' then
      var digits := s[1..];
      if AllDigits(digits) && 0 - Value(digits) >= I32_MIN then Some(0 - Value(digits)) else None
    else
      match ParseUnsigned(s, I32_MAX)
      case None => None
      case Some(n) => Some(n)
  }

  /** The three numbers of a date, whether or not there is such a day. */
  function ParseFields(date: string): (fields: Option<Date>)
    ensures fields.Some? ==> I32_MIN <= fields.value.year <= I32_MAX
  {
    match SplitOnce(date, '-')
    case None => None
    case Some((year, suffix)) =>
      match SplitOnce(suffix, '-')
      case None => None
      case Some((month, day)) =>
        var y, m, d := ParseI32(year), ParseUnsigned(month, U32_MAX), ParseUnsigned(day, U32_MAX);
        if y.Some? && m.Some? && d.Some? then Some(Date(y.value, m.value, d.value)) else None
  }

  function ParseUtcDay(date: string): Option<int> {
    match ParseFields(date)
    case None => None
    case Some(d) => DaysFromCivil(d.year, d.month, d.day)
  }

  // ---------------------------------------------------------------- parsing undoes printing

  lemma ParsePadded(n: nat, width: nat, max: nat)
    ensures ParseUnsigned(Padded(n, width), max) == if n <= max then Some(n) else None
  {
    PaddedValue(n, width);
  }

  lemma FieldsOf(year: string, month: string, day: string)
    requires '-' !in year && '-' !in month
    ensures ParseFields(year + (['-'] + (month + (['-'] + day)))) ==
            var y, m, d := ParseI32(year), ParseUnsigned(month, U32_MAX), ParseUnsigned(day, U32_MAX);
            if y.Some? && m.Some? && d.Some? then Some(Date(y.value, m.value, d.value)) else None
  {
    SplitAtFirst(year, month + (['-'] + day), '-');
    SplitAtFirst(month, day, '-');
  }

  lemma NoFieldsAfterSign(rest: string)
    ensures ParseFields(['-'] + rest).None?
  {
    assert SplitOnce(['-'] + rest, '-') == Some(([], rest));
    assert ParseI32([]).None?;
  }

  lemma ParseNegative(d: Date)
    requires Valid(d) && d.year < 0
    ensures ParseFields(FormatDate(d)).None?
  {
    var tail := ['-'] + (Padded(d.month, 2) + (['-'] + Padded(d.day, 2)));
    SignFirst(Padded(-d.year, 3), tail);
    NoFieldsAfterSign(Padded(-d.year, 3) + tail);
  }

  lemma SignFirst(year: string, tail: string)
    ensures ['-'] + year + tail == ['-'] + (year + tail)
  {
  }

  lemma PaddedHasNoSign(n: nat, width: nat)
    ensures '-' !in Padded(n, width)
  {
  }

  lemma ParseYear(y: nat)
    ensures ParseI32(Padded(y, 4)) == if y <= I32_MAX then Some(y) else None
  {
    PaddedHasNoSign(y, 4);
    ParsePadded(y, 4, I32_MAX);
  }

  lemma ParseFormatDate(d: Date)
    requires Valid(d)
    ensures ParseFields(FormatDate(d)) == if 0 <= d.year <= I32_MAX then Some(d) else None
  {
    if d.year < 0 {
      ParseNegative(d);
    } else {
      var year, month, day := Padded(d.year, 4), Padded(d.month, 2), Padded(d.day, 2);
      PaddedHasNoSign(d.year, 4);
      PaddedHasNoSign(d.month, 2);
      FieldsOf(year, month, day);
      ParseYear(d.year);
      ParsePadded(d.month, 2, U32_MAX);
      ParsePadded(d.day, 2, U32_MAX);
    }
  }

  /** Parsing undoes printing exactly for the years the parser can represent. */
  lemma ParseUndoesFormat(day: I64)
    ensures ParseUtcDay(FormatUtcDay(day)) == if 0 <= CivilFromDays(day).year <= I32_MAX then Some(day) else None
  {
    CivilFromDaysCorrect(day);
    ParseFormatDate(CivilFromDays(day));
  }

  // ---------------------------------------------------------------- text order

  /** Printed dates are ordered as the dates are, when their years take equally many characters. */
  lemma FormatDateOrder(x: Date, y: Date)
    requires Valid(x) && Valid(y) && 0 <= x.year && 0 <= y.year
    requires |Padded(x.year, 4)| == |Padded(y.year, 4)| && Before(x, y)
    ensures Less(FormatDate(x), FormatDate(y))
  {
    var dx, dy := Padded(x.day, 2), Padded(y.day, 2);
    var mx, my := Padded(x.month, 2) + (['-'] + dx), Padded(y.month, 2) + (['-'] + dy);
    PaddedOrder(x.year, y.year, 4);
    assert Pow10(2) == 100;
    PaddedLength(x.month, 2);
    PaddedLength(y.month, 2);
    PaddedLength(x.day, 2);
    PaddedLength(y.day, 2);
    PaddedOrder(x.month, y.month, 2);
    PaddedOrder(x.day, y.day, 2);
    if x.year < y.year {
      DifferentHeads(Padded(x.year, 4), Padded(y.year, 4), ['-'] + mx, ['-'] + my);
    } else {
      CommonPrefix(Padded(x.year, 4), ['-'] + mx, ['-'] + my);
      CommonPrefix(['-'], mx, my);
      if x.month < y.month {
        DifferentHeads(Padded(x.month, 2), Padded(y.month, 2), ['-'] + dx, ['-'] + dy);
      } else {
        CommonPrefix(Padded(x.month, 2), ['-'] + dx, ['-'] + dy);
        CommonPrefix(['-'], dx, dy);
      }
    }
  }

  function YearWidth(day: I64): nat {
    |FormatYear(CivilFromDays(day).year)|
  }

  /** Text order of printed days is day order, when their years take equally many characters. */
  lemma FormatOrder(a: I64, b: I64)
    requires a <= I64_MAX - EPOCH_SHIFT && b <= I64_MAX - EPOCH_SHIFT
    requires 0 <= CivilFromDays(a).year && 0 <= CivilFromDays(b).year && YearWidth(a) == YearWidth(b)
    ensures Less(FormatUtcDay(a), FormatUtcDay(b)) <==> a < b
  {
    CivilIsValid(a);
    CivilIsValid(b);
    Trichotomy(FormatUtcDay(a), FormatUtcDay(b));
    if a < b {
      DatesFollowDays(a, b);
      FormatDateOrder(CivilFromDays(a), CivilFromDays(b));
    } else if b < a {
      DatesFollowDays(b, a);
      FormatDateOrder(CivilFromDays(b), CivilFromDays(a));
    }
  }
}
