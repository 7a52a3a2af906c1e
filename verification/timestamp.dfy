/**
 * `today`: renders the broken-down local time as `YYYY/MM/DD hh:mm:ss`. The clock itself
 * (`time`, `localtime`) is outside the model; the `struct tm` fields arrive as plain numbers.
 */
module Timestamp {
  import opened CText

  /** The `struct tm` fields `today` reads; `year` is years since 1900, `mon` counts from 0. */
  datatype Tm = Tm(year: int, mon: int, mday: int, hour: int, min: int, sec: int)

  /**
   * The ranges `localtime` produces, and the one `today`'s own buffer `y[5]` demands:
   * the printed year takes at most four characters (`YearFits`).
   */
  predicate ValidTm(t: Tm) {
    && 0 <= t.mon <= 11
    && 1 <= t.mday <= 31
    && 0 <= t.hour <= 23
    && 0 <= t.min <= 59
    && 0 <= t.sec <= 60
    && -999 <= 1900 + t.year <= 9999
  }

  /** The year range of `ValidTm` is exactly the years whose `%d` text fits `y[5]` with its NUL. */
  lemma YearFits(t: Tm)
    ensures -999 <= 1900 + t.year <= 9999 <==> |DecimalString(1900 + t.year)| <= 4
  {
    DecimalStringLength(1900 + t.year, 4);
    assert Pow10(3) == 1000 && Pow10(4) == 10000;
  }

  /** `sprintf("%02d")` of a field below 100. */
  function Pad2(n: nat): (s: string)
    requires n < 100
    ensures |s| == 2 && AllDigits(s) && DigitsValue(s) == n
  {
    NatStringLength(n, 2);
    assert Pow10(2) == 100;
    ZeroPad(n, 2)
  }

  /** Hours, minutes and seconds as `hh:mm:ss`. */
  function Clock(t: Tm): (s: string)
    requires ValidTm(t)
    ensures |s| == 8 && s[2] == ':' && s[5] == ':'
    ensures AllDigits(s[0..2]) && DigitsValue(s[0..2]) == t.hour
    ensures AllDigits(s[3..5]) && DigitsValue(s[3..5]) == t.min
    ensures AllDigits(s[6..8]) && DigitsValue(s[6..8]) == t.sec
    ensures Plain(s)
  {
    var s := Pad2(t.hour) + ":" + Pad2(t.min) + ":" + Pad2(t.sec);
    DigitsArePlain(Pad2(t.hour));
    DigitsArePlain(Pad2(t.min));
    DigitsArePlain(Pad2(t.sec));
    PlainConcat(Pad2(t.hour), ":");
    PlainConcat(Pad2(t.hour) + ":", Pad2(t.min));
    PlainConcat(Pad2(t.hour) + ":" + Pad2(t.min), ":");
    PlainConcat(Pad2(t.hour) + ":" + Pad2(t.min) + ":", Pad2(t.sec));
    assert s[0..2] == Pad2(t.hour);
    assert s[3..5] == Pad2(t.min);
    assert s[6..8] == Pad2(t.sec);
    s
  }

  /** Month and day as `MM/DD`; the month is printed one-based. */
  function Date(t: Tm): (s: string)
    requires ValidTm(t)
    ensures |s| == 5 && s[2] == '/'
    ensures AllDigits(s[0..2]) && DigitsValue(s[0..2]) == t.mon + 1
    ensures AllDigits(s[3..5]) && DigitsValue(s[3..5]) == t.mday
    ensures Plain(s)
  {
    var s := Pad2(t.mon + 1) + "/" + Pad2(t.mday);
    DigitsArePlain(Pad2(t.mon + 1));
    DigitsArePlain(Pad2(t.mday));
    PlainConcat(Pad2(t.mon + 1), "/");
    PlainConcat(Pad2(t.mon + 1) + "/", Pad2(t.mday));
    assert s[0..2] == Pad2(t.mon + 1);
    assert s[3..5] == Pad2(t.mday);
    s
  }

  /**
   * `today`: the year as `%d` of `1900 + tm_year` (not padded), then `/MM/DD hh:mm:ss`.
   * Reading the result back field by field gives the time it was made from.
   */
  function Today(t: Tm): (s: string)
    requires ValidTm(t)
    ensures |s| == |DecimalString(1900 + t.year)| + 15
    ensures FieldsAt(s, |DecimalString(1900 + t.year)|, t)
    ensures s[..|DecimalString(1900 + t.year)|] == DecimalString(1900 + t.year)
    ensures Plain(s)
  {
    var year := DecimalString(1900 + t.year);
    var tail := "/" + Date(t) + " " + Clock(t);
    TodayFields(t, year, tail);
    year + tail
  }

  /** `s` holds, from offset `y` on, `/MM/DD hh:mm:ss` for the month, day and clock of `t`. */
  predicate FieldsAt(s: string, y: nat, t: Tm) {
    && |s| == y + 15
    && s[y] == '/' && s[y + 3] == '/' && s[y + 6] == ' ' && s[y + 9] == ':' && s[y + 12] == ':'
    && AllDigits(s[y + 1..y + 3]) && DigitsValue(s[y + 1..y + 3]) == t.mon + 1
    && AllDigits(s[y + 4..y + 6]) && DigitsValue(s[y + 4..y + 6]) == t.mday
    && AllDigits(s[y + 7..y + 9]) && DigitsValue(s[y + 7..y + 9]) == t.hour
    && AllDigits(s[y + 10..y + 12]) && DigitsValue(s[y + 10..y + 12]) == t.min
    && AllDigits(s[y + 13..y + 15]) && DigitsValue(s[y + 13..y + 15]) == t.sec
  }

  lemma TailFields(t: Tm, tail: string)
    requires ValidTm(t)
    requires tail == "/" + Date(t) + " " + Clock(t)
    ensures FieldsAt(tail, 0, t)
  {
    var date, clock := Date(t), Clock(t);
    assert tail[1..3] == date[0..2];
    assert tail[4..6] == date[3..5];
    assert tail[7..9] == clock[0..2];
    assert tail[10..12] == clock[3..5];
    assert tail[13..15] == clock[6..8];
  }

  lemma TailPlain(t: Tm, tail: string)
    requires ValidTm(t)
    requires tail == "/" + Date(t) + " " + Clock(t)
    ensures Plain(tail)
  {
    var date, clock := Date(t), Clock(t);
    PlainConcat("/", date);
    PlainConcat("/" + date, " ");
    PlainConcat("/" + date + " ", clock);
  }

  lemma FieldsShift(year: string, tail: string, t: Tm)
    requires FieldsAt(tail, 0, t)
    ensures FieldsAt(year + tail, |year|, t)
  {
    var s, y := year + tail, |year|;
    assert s[y + 1..y + 3] == tail[1..3];
    assert s[y + 4..y + 6] == tail[4..6];
    assert s[y + 7..y + 9] == tail[7..9];
    assert s[y + 10..y + 12] == tail[10..12];
    assert s[y + 13..y + 15] == tail[13..15];
  }

  lemma TodayFields(t: Tm, year: string, tail: string)
    requires ValidTm(t)
    requires year == DecimalString(1900 + t.year)
    requires tail == "/" + Date(t) + " " + Clock(t)
    ensures FieldsAt(year + tail, |year|, t)
    ensures Plain(year + tail)
  {
    TailFields(t, tail);
    TailPlain(t, tail);
    FieldsShift(year, tail, t);
    DecimalStringIsPlain(1900 + t.year);
    PlainConcat(year, tail);
  }

  /** `atoi` of a timestamp reads its year: the text stops at the first `/`. */
  lemma TodayYearReadsBack(t: Tm)
    requires ValidTm(t)
    ensures Atoi(Today(t)) == 1900 + t.year
  {
    var year := DecimalString(1900 + t.year);
    var tail := "/" + Date(t) + " " + Clock(t);
    assert Today(t) == year + tail;
    AtoiDecimalRoundTrip(1900 + t.year, tail);
  }

  /** For four-digit years the timestamp is 19 characters with its separators at fixed places. */
  lemma TodayFixedWidth(t: Tm)
    requires ValidTm(t) && 1000 <= 1900 + t.year <= 9999
    ensures var s := Today(t);
      && |s| == 19
      && s[4] == '/' && s[7] == '/' && s[10] == ' ' && s[13] == ':' && s[16] == ':'
      && AllDigits(s[..4]) && DigitsValue(s[..4]) == 1900 + t.year
  {
    var n := 1900 + t.year;
    NatStringLength(n, 4);
    NatStringLength(n, 3);
    assert Pow10(3) == 1000 && Pow10(4) == 10000;
    var s := Today(t);
    assert s[..4] == DecimalString(n);
  }
}
