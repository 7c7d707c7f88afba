/** Spreadsheet rows as the reminder core sees them: a dictionary from column
    header to cell value, plus the synthetic `_row` provenance label
    ("<sheet>:<1-based row>") that the sheet reader adds. */
module Records {
  import opened Results
  import opened Strings

  /** A cell value: a Python `str`, a `datetime` (the sheet reader yields
      timestamps for date columns), or any other object, kept as its `str()`. */
  datatype Value =
    | Str(text: string)
    | Stamp(year: nat, month: nat, day: nat, hour: nat, minute: nat, second: nat)
    | Other(repr: string)

  type Record = map<string, Value>

  /** The key under which every row carries its provenance label. */
  const RowHeader: string := "_row"

  /** `record.get(key)` */
  function Get(r: Record, key: string): (v: Option<Value>)
    ensures v.Some? <==> key in r
    ensures v.Some? ==> v.value == r[key]
  {
    if key in r then Some(r[key]) else None
  }

  /** `str(date)`: ISO form, each part zero-padded (year to 4, month and day to 2). */
  function DateText(year: nat, month: nat, day: nat): (r: string)
    ensures year <= 9999 && month <= 99 && day <= 99 ==>
              |r| == 10 && r[4] == '-' && r[7] == '-'
  {
    DateWidths(year, month, day);
    ZeroPad(year, 4) + "-" + ZeroPad(month, 2) + "-" + ZeroPad(day, 2)
  }

  lemma DateWidths(year: nat, month: nat, day: nat)
    ensures year <= 9999 ==> |NatToString(year)| <= 4
    ensures month <= 99 ==> |NatToString(month)| <= 2
    ensures day <= 99 ==> |NatToString(day)| <= 2
  {
    assert Pow10(2) == 100 && Pow10(4) == 10000;
    if year <= 9999 {
      NatToStringLength(year, 4);
    }
    if month <= 99 {
      NatToStringLength(month, 2);
    }
    if day <= 99 {
      NatToStringLength(day, 2);
    }
  }

  /** `str(datetime)` with whole seconds: the date, a space, and HH:MM:SS. */
  function StampText(v: Value): string
    requires v.Stamp?
  {
    DateText(v.year, v.month, v.day) + " "
      + ZeroPad(v.hour, 2) + ":" + ZeroPad(v.minute, 2) + ":" + ZeroPad(v.second, 2)
  }

  /** What an f-string prints for `record.get(key)`: `None` for a missing key. */
  function Show(v: Option<Value>): string {
    match v
    case None => "None"
    case Some(Str(s)) => s
    case Some(Stamp(_, _, _, _, _, _)) => StampText(v.value)
    case Some(Other(t)) => t
  }

  /** Reading `DateText` back yields the year, month and day it was built from. */
  lemma DateTextRoundTrip(year: nat, month: nat, day: nat)
    requires year <= 9999 && month <= 99 && day <= 99
    ensures var r := DateText(year, month, day);
      && AllDigits(r[0..4]) && AllDigits(r[5..7]) && AllDigits(r[8..10])
      && DigitsValue(r[0..4]) == year
      && DigitsValue(r[5..7]) == month
      && DigitsValue(r[8..10]) == day
  {
    var y := ZeroPad(year, 4);
    var m := ZeroPad(month, 2);
    var d := ZeroPad(day, 2);
    DateWidths(year, month, day);
    var r := DateText(year, month, day);
    assert r == y + "-" + m + "-" + d;
    assert r[0..4] == y && r[5..7] == m && r[8..10] == d;
    ZeroPadRoundTrip(year, 4);
    ZeroPadRoundTrip(month, 2);
    ZeroPadRoundTrip(day, 2);
  }

  /** A number below 10^width has at most `width` digits. */
  lemma {:induction false} NatToStringLength(n: nat, width: nat)
    requires width >= 1 && n < Pow10(width)
    ensures |NatToString(n)| <= width
  {
    if n >= 10 {
      NatToStringLength(n / 10, width - 1);
    }
  }
}
