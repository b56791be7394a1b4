/**
 * `format_date`: a store key, the text `str(datetime.now())` gave when the
 * message was written (`YYYY-MM-DD HH:MM:SS`, followed by `.ffffff` unless
 * the microseconds are zero), is read back with `datetime.fromisoformat`
 * and printed with `strftime("%b %d, %Y %H:%M:%S")`. Only that key shape
 * is modelled; `None` stands for `fromisoformat` raising on it.
 */
module Dates {
  import opened Wrappers
  import opened Digits

  datatype DateTime = DateTime(
    year: nat, month: nat, day: nat,
    hour: nat, minute: nat, second: nat, microsecond: nat)

  predicate IsLeapYear(year: nat)
  {
    year % 4 == 0 && (year % 100 != 0 || year % 400 == 0)
  }

  function DaysInMonth(year: nat, month: nat): nat
    requires 1 <= month <= 12
  {
    if month == 2 then (if IsLeapYear(year) then 29 else 28)
    else if month == 4 || month == 6 || month == 9 || month == 11 then 30
    else 31
  }

  /** The ranges `datetime` enforces on its fields. */
  predicate Valid(dt: DateTime)
  {
    && 1 <= dt.year <= 9999
    && 1 <= dt.month <= 12
    && 1 <= dt.day <= DaysInMonth(dt.year, dt.month)
    && dt.hour < 24 && dt.minute < 60 && dt.second < 60
    && dt.microsecond < 1000000
  }

  /** `%b` in the C locale. */
  function MonthAbbr(month: nat): (s: string)
    requires 1 <= month <= 12
    ensures |s| == 3
  {
    ["Jan", "Feb", "Mar", "Apr", "May", "Jun",
     "Jul", "Aug", "Sep", "Oct", "Nov", "Dec"][month - 1]
  }

  /** `str(dt)`: the timestamp key `write_message` stores a message under. */
  function Key(dt: DateTime): string
  {
    Pad(dt.year, 4) + "-" + Pad(dt.month, 2) + "-" + Pad(dt.day, 2) + " "
    + Pad(dt.hour, 2) + ":" + Pad(dt.minute, 2) + ":" + Pad(dt.second, 2)
    + (if dt.microsecond == 0 then "" else "." + Pad(dt.microsecond, 6))
  }

  /** The key layout: digits and separators in place, with or without six fraction digits. */
  predicate KeyShape(s: string)
  {
    && (|s| == 19 || |s| == 26)
    && AllDigits(s[0..4]) && s[4] == '-' && AllDigits(s[5..7]) && s[7] == '-'
    && AllDigits(s[8..10]) && s[10] == ' '
    && AllDigits(s[11..13]) && s[13] == ':' && AllDigits(s[14..16]) && s[16] == ':'
    && AllDigits(s[17..19])
    && (|s| == 26 ==> s[19] == '.' && AllDigits(s[20..26]))
  }

  /** `datetime.fromisoformat` on a text of the key layout: None when a field is out of range. */
  function ParseKey(s: string): (r: Option<DateTime>)
    ensures r.Some? ==> Valid(r.value) && KeyShape(s)
  {
    if !KeyShape(s) then None
    else
      var dt := DateTime(
        Value(s[0..4]), Value(s[5..7]), Value(s[8..10]),
        Value(s[11..13]), Value(s[14..16]), Value(s[17..19]),
        if |s| == 26 then Value(s[20..26]) else 0);
      if Valid(dt) then Some(dt) else None
  }

  /** `dt.strftime("%b %d, %Y %H:%M:%S")`. */
  function Strftime(dt: DateTime): string
    requires Valid(dt)
  {
    MonthAbbr(dt.month) + " " + Pad(dt.day, 2) + ", " + Pad(dt.year, 4) + " "
    + Pad(dt.hour, 2) + ":" + Pad(dt.minute, 2) + ":" + Pad(dt.second, 2)
  }

  /** `format_date(key)`; None when `fromisoformat` raises. */
  function FormatDate(key: string): Option<string>
  {
    match ParseKey(key)
    case None => None
    case Some(dt) => Some(Strftime(dt))
  }

  /** The pieces of a key, at the positions the key layout gives them. */
  lemma KeySlices(dt: DateTime)
    ensures |Key(dt)| == if dt.microsecond == 0 then 19 else 26
    ensures Key(dt)[0..4] == Pad(dt.year, 4) && Key(dt)[5..7] == Pad(dt.month, 2)
    ensures Key(dt)[8..10] == Pad(dt.day, 2) && Key(dt)[11..13] == Pad(dt.hour, 2)
    ensures Key(dt)[14..16] == Pad(dt.minute, 2) && Key(dt)[17..19] == Pad(dt.second, 2)
    ensures Key(dt)[4] == '-' && Key(dt)[7] == '-' && Key(dt)[10] == ' '
    ensures Key(dt)[13] == ':' && Key(dt)[16] == ':'
    ensures dt.microsecond != 0 ==> Key(dt)[19] == '.' && Key(dt)[20..26] == Pad(dt.microsecond, 6)
  {
    var p3 := Pad(dt.year, 4) + "-" + Pad(dt.month, 2) + "-";
    assert p3[0..4] == Pad(dt.year, 4) && p3[5..7] == Pad(dt.month, 2);
    var p6 := p3 + Pad(dt.day, 2) + " " + Pad(dt.hour, 2) + ":";
    assert p6[0..8] == p3 && p6[8..10] == Pad(dt.day, 2) && p6[11..13] == Pad(dt.hour, 2);
    var p9 := p6 + Pad(dt.minute, 2) + ":" + Pad(dt.second, 2);
    assert p9[0..14] == p6 && p9[14..16] == Pad(dt.minute, 2) && p9[17..19] == Pad(dt.second, 2);
    var tail := if dt.microsecond == 0 then "" else "." + Pad(dt.microsecond, 6);
    assert Key(dt) == p9 + tail;
    assert (p9 + tail)[0..19] == p9;
  }

  /**
   * `format_date` can read back every key the store writes:
   * `fromisoformat(str(dt)) == dt` for every valid date-time.
   */
  lemma KeyRoundTrip(dt: DateTime)
    requires Valid(dt)
    ensures ParseKey(Key(dt)) == Some(dt)
    ensures FormatDate(Key(dt)) == Some(Strftime(dt))
  {
    KeySlices(dt);
    ValueOfPad(dt.year, 4);
    ValueOfPad(dt.month, 2);
    ValueOfPad(dt.day, 2);
    ValueOfPad(dt.hour, 2);
    ValueOfPad(dt.minute, 2);
    ValueOfPad(dt.second, 2);
    if dt.microsecond != 0 {
      ValueOfPad(dt.microsecond, 6);
    }
  }

  /**
   * The formatted date of a key, in terms of the key's own text: the month
   * number becomes its abbreviation, the day, year and clock digits are
   * copied as they stand, and the fraction is dropped.
   */
  lemma FormatDateText(key: string)
    requires ParseKey(key).Some?
    ensures FormatDate(key) == Some(MonthAbbr(Value(key[5..7])) + " " + key[8..10] + ", "
                                    + key[0..4] + " " + key[11..19])
  {
    var dt := ParseKey(key).value;
    assert dt.year == Value(key[0..4]) && dt.month == Value(key[5..7]) && dt.day == Value(key[8..10]);
    assert dt.hour == Value(key[11..13]) && dt.minute == Value(key[14..16]) && dt.second == Value(key[17..19]);
    PadOfValue(key[0..4]);
    PadOfValue(key[8..10]);
    PadOfValue(key[11..13]);
    PadOfValue(key[14..16]);
    PadOfValue(key[17..19]);
    var clock := Pad(dt.hour, 2) + ":" + Pad(dt.minute, 2) + ":" + Pad(dt.second, 2);
    assert clock == key[11..19] by {
      assert key[11..19] == key[11..13] + key[13..14] + key[14..16] + key[16..17] + key[17..19];
    }
    assert Strftime(dt) == MonthAbbr(dt.month) + " " + Pad(dt.day, 2) + ", " + Pad(dt.year, 4) + " " + clock;
  }

  /** Fractional seconds never reach the output. */
  lemma FormatDropsFraction(key: string, fraction: string)
    requires ParseKey(key).Some? && |key| == 19
    requires |fraction| == 6 && AllDigits(fraction)
    ensures FormatDate(key + "." + fraction) == FormatDate(key)
  {
    var long := key + "." + fraction;
    assert long[0..19] == key && long[20..26] == fraction;
    assert forall i, j :: 0 <= i <= j <= 19 ==> long[i..j] == key[i..j];
    var dt := ParseKey(key).value;
    assert ParseKey(long) == Some(dt.(microsecond := Value(fraction)));
  }

  /** The padded fields of the first second of 2023. */
  lemma ExamplePads()
    ensures Pad(2023, 4) == "2023" && Pad(1, 2) == "01" && Pad(0, 2) == "00"
  {
  }

  /** The key and display text of the first second of 2023, assembled from its padded fields. */
  lemma ExampleTexts(year: string, one: string, zero: string)
    requires year == "2023" && one == "01" && zero == "00"
    ensures year + "-" + one + "-" + one + " " + zero + ":" + zero + ":" + zero + "" == "2023-01-01 00:00:00"
    ensures "Jan" + " " + one + ", " + year + " " + zero + ":" + zero + ":" + zero == "Jan 01, 2023 00:00:00"
  {
  }

  /** The key of the first second of 2023 with a zero fraction appended. */
  lemma ExampleKeyText(key: string, fraction: string)
    requires key == "2023-01-01 00:00:00" && fraction == "000000"
    ensures key + "." + fraction == "2023-01-01 00:00:00.000000"
  {
  }

  /** The first second of 2023: the key the store writes for it, and how it is shown. */
  lemma KeyExample()
    ensures Key(DateTime(2023, 1, 1, 0, 0, 0, 0)) == "2023-01-01 00:00:00"
    ensures Strftime(DateTime(2023, 1, 1, 0, 0, 0, 0)) == "Jan 01, 2023 00:00:00"
  {
    var dt := DateTime(2023, 1, 1, 0, 0, 0, 0);
    ExamplePads();
    var year, one, zero := Pad(2023, 4), Pad(1, 2), Pad(0, 2);
    assert Key(dt) == year + "-" + one + "-" + one + " " + zero + ":" + zero + ":" + zero + "";
    assert Strftime(dt) == MonthAbbr(1) + " " + one + ", " + year + " " + zero + ":" + zero + ":" + zero;
    ExampleTexts(year, one, zero);
  }

  /** The same instant written with a zero fraction is shown as `Jan 01, 2023 00:00:00`. */
  lemma FormatDateExample()
    ensures FormatDate("2023-01-01 00:00:00.000000") == Some("Jan 01, 2023 00:00:00")
  {
    var dt := DateTime(2023, 1, 1, 0, 0, 0, 0);
    KeyExample();
    KeyRoundTrip(dt);
    var fraction := "000000";
    assert AllDigits(fraction);
    FormatDropsFraction(Key(dt), fraction);
    ExampleKeyText(Key(dt), fraction);
  }
}
