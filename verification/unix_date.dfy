/** The launch-date column: a Unix timestamp rendered as the UTC calendar
    date `YYYY-MM-DD`, or the empty string when there is no timestamp or it
    cannot be converted. */
module UnixDate {
  import opened Wrappers
  import opened Json
  import opened Calendar
  import opened Decimal

  const SecondsPerDay := 86400
  /** 0001-01-01T00:00:00Z, the first instant of the earliest year a Python `datetime` holds. */
  const MinTimestamp := -62135596800
  /** 9999-12-31T23:59:59Z, the last second of the latest year a Python `datetime` holds. */
  const MaxTimestamp := 253402300799

  /** Timestamps whose UTC date lies in years 1 through 9999; any other one
      makes `datetime.utcfromtimestamp` raise. */
  predicate InRange(ts: int) {
    MinTimestamp <= ts <= MaxTimestamp
  }

  /** The seconds a scalar stands for when handed to `utcfromtimestamp`:
      an integer is itself, a boolean is Python's 0 or 1 (`bool` is an `int`
      subclass), and anything else raises a `TypeError`. */
  function Seconds(v: Scalar): Option<int> {
    match v
    case Int(i) => Some(i)
    case Bool(b) => Some(if b then 1 else 0)
    case _ => None
  }

  /** `strftime("%Y-%m-%d")`: four-digit year, two-digit month and day. */
  function FormatDate(d: Date): (s: string)
    requires 0 <= d.year <= 9999 && ValidDate(d)
    ensures |s| == 10 && s[4] == '-' && s[7] == '-'
  {
    Padded(d.year, 4) + "-" + Padded(d.month, 2) + "-" + Padded(d.day, 2)
  }

  /** Reads a `YYYY-MM-DD` string back into the date it names. */
  function ParseDate(s: string): Option<Date> {
    if |s| == 10 && s[4] == '-' && s[7] == '-'
       && AllDigits(s[..4]) && AllDigits(s[5..7]) && AllDigits(s[8..])
    then
      var d := Date(Value(s[..4]), Value(s[5..7]), Value(s[8..]));
      if ValidDate(d) then Some(d) else None
    else None
  }

  /** The formatted date names the date it was made from. */
  lemma ParseFormatDate(d: Date)
    requires 0 <= d.year <= 9999 && ValidDate(d)
    ensures ParseDate(FormatDate(d)) == Some(d)
  {
    var s := FormatDate(d);
    assert s[..4] == Padded(d.year, 4);
    assert s[5..7] == Padded(d.month, 2);
    assert s[8..] == Padded(d.day, 2);
  }

  /** `unix_to_date`: `None` gives the empty string; otherwise the UTC date
      of the timestamp, or the empty string when the conversion raises. */
  function UnixToDate(ts: Option<Scalar>): (s: string)
    ensures s != "" <==> ts.Some? && Seconds(ts.value).Some? && InRange(Seconds(ts.value).value)
    ensures s != "" ==>
      && ParseDate(s).Some?
      && var d := ParseDate(s).value;
      && var t := Seconds(ts.value).value;
      && 1 <= d.year <= 9999
      && DaysFromCivil(d) * SecondsPerDay <= t < DaysFromCivil(d) * SecondsPerDay + SecondsPerDay
  {
    match ts
    case None => ""
    case Some(v) =>
      match Seconds(v)
      case None => ""
      case Some(t) =>
        if InRange(t) then
          var d := CivilFromDays(t / SecondsPerDay);
          CivilFromDaysYearRange(t / SecondsPerDay, 1, 10000);
          ParseFormatDate(d);
          FormatDate(d)
        else ""
  }

  lemma UnixToDateWithoutDate()
    ensures UnixToDate(None) == ""
    ensures UnixToDate(Some(Null)) == ""
    ensures UnixToDate(Some(Str("1577836800"))) == ""
    ensures UnixToDate(Some(Int(MaxTimestamp + 1))) == ""
    ensures UnixToDate(Some(Int(MinTimestamp - 1))) == ""
  {
  }

  /** One digit of a zero-padded field: the last digit follows the padding of the rest. */
  lemma PaddedStep(n: nat, w: nat)
    requires 0 < w && n < Pow10(w)
    ensures n / 10 < Pow10(w - 1)
    ensures Padded(n, w) == Padded(n / 10, w - 1) + [Digit(n % 10)]
  {
  }

  /** An in-range timestamp falling on day `d` is rendered as `d`. */
  lemma UnixToDateOfDay(d: Date, t: int)
    requires ValidDate(d) && 1 <= d.year <= 9999
    requires InRange(t) && DaysFromCivil(d) == t / SecondsPerDay
    ensures UnixToDate(Some(Int(t))) == FormatDate(d)
  {
    CivilFromDaysInverse(d);
  }

  lemma PaddedFirstOfMonth()
    ensures Padded(1, 2) == "01"
  {
    PaddedStep(0, 1);
    assert Padded(0, 1) == "0";
    PaddedStep(1, 2);
  }

  lemma PaddedYear1970()
    ensures Padded(1970, 4) == "1970"
  {
    PaddedStep(1, 1);
    assert Padded(1, 1) == "1";
    PaddedStep(19, 2);
    assert Padded(19, 2) == "19";
    PaddedStep(197, 3);
    assert Padded(197, 3) == "197";
    PaddedStep(1970, 4);
  }

  lemma PaddedYear2020()
    ensures Padded(2020, 4) == "2020"
  {
    PaddedStep(2, 1);
    assert Padded(2, 1) == "2";
    PaddedStep(20, 2);
    assert Padded(20, 2) == "20";
    PaddedStep(202, 3);
    assert Padded(202, 3) == "202";
    PaddedStep(2020, 4);
  }

  lemma FormatEpochDateParts()
    ensures FormatDate(Date(1970, 1, 1)) == "1970" + "-" + "01" + "-" + "01"
  {
    PaddedYear1970();
    PaddedFirstOfMonth();
  }

  lemma EpochDateText()
    ensures "1970" + "-" + "01" + "-" + "01" == "1970-01-01"
  {
  }

  lemma FormatEpochDate()
    ensures FormatDate(Date(1970, 1, 1)) == "1970-01-01"
  {
    FormatEpochDateParts();
    EpochDateText();
  }

  lemma FormatNewYear2020DateParts()
    ensures FormatDate(Date(2020, 1, 1)) == "2020" + "-" + "01" + "-" + "01"
  {
    PaddedYear2020();
    PaddedFirstOfMonth();
  }

  lemma NewYear2020DateText()
    ensures "2020" + "-" + "01" + "-" + "01" == "2020-01-01"
  {
  }

  lemma FormatNewYear2020Date()
    ensures FormatDate(Date(2020, 1, 1)) == "2020-01-01"
  {
    FormatNewYear2020DateParts();
    NewYear2020DateText();
  }

  lemma UnixToDateEpoch()
    ensures UnixToDate(Some(Int(0))) == "1970-01-01"
  {
    EpochIsDayZero();
    UnixToDateOfDay(Date(1970, 1, 1), 0);
    FormatEpochDate();
  }

  lemma UnixToDateNewYear2020()
    ensures UnixToDate(Some(Int(1577836800))) == "2020-01-01"
  {
    assert DaysFromCivil(Date(2020, 1, 1)) == 1577836800 / SecondsPerDay;
    UnixToDateOfDay(Date(2020, 1, 1), 1577836800);
    FormatNewYear2020Date();
  }
}
