/** The per-row cell builder of `_create_table` (reminders.py:338-341) and
    the cell formatter `_format` (reminders.py:291-298): each action becomes
    one row with one cell per configured table header. */
module Table {
  import opened Results
  import opened Strings
  import opened Records
  import opened Config
  import opened Validator

  /** `_format(value)`: a timestamp loses its time of day and prints as
      `YYYY-MM-DD`; anything else prints as `str(value)`, so a missing cell
      prints as `None`. */
  function Format(v: Option<Value>): (r: string)
    ensures !(v.Some? && v.value.Stamp?) ==> r == Show(v)
  {
    match v
    case Some(Stamp(year, month, day, _, _, _)) => DateText(year, month, day)
    case _ => Show(v)
  }

  /** `[_format(item.get(h)) for h in headers]` */
  function Row(item: Record, headers: seq<string>): (r: seq<string>)
    ensures |r| == |headers|
    ensures forall i | 0 <= i < |headers| :: r[i] == Format(Get(item, headers[i]))
  {
    seq(|headers|, i requires 0 <= i < |headers| => Format(Get(item, headers[i])))
  }

  /** The body of the table: one row per action, in action order. */
  function Rows(actions: seq<Record>, headers: seq<string>): (r: seq<seq<string>>)
    ensures |r| == |actions|
    ensures forall k | 0 <= k < |actions| :: r[k] == Row(actions[k], headers)
  {
    seq(|actions|, k requires 0 <= k < |actions| => Row(actions[k], headers))
  }

  /** A timestamp's cell depends on its date only, and reads back as that
      date: the time of day never reaches the table. */
  lemma FormatDate(v: Value)
    requires v.Stamp? && v.year <= 9999 && v.month <= 99 && v.day <= 99
    ensures var r := Format(Some(v));
      && |r| == 10 && r[4] == '-' && r[7] == '-'
      && DigitsValue(r[0..4]) == v.year
      && DigitsValue(r[5..7]) == v.month
      && DigitsValue(r[8..10]) == v.day
      && r == Format(Some(Stamp(v.year, v.month, v.day, 0, 0, 0)))
  {
    DateTextRoundTrip(v.year, v.month, v.day);
  }

  /** What the table prints for a timestamp is the start of what a message
      prints for it (`str(value.date())` against `str(value)`). */
  lemma FormatPrefixOfShow(v: Value)
    requires v.Stamp?
    ensures var r := Format(Some(v));
      |r| < |Show(Some(v))| && Show(Some(v))[..|r|] == r
  {
    var r := Format(Some(v));
    assert Show(Some(v)) == r + (" " + ZeroPad(v.hour, 2) + ":" + ZeroPad(v.minute, 2) + ":" + ZeroPad(v.second, 2));
  }

  /** An action that passes `validate_actions` has a real value in every
      cell of its row. */
  lemma ValidActionRow(s: Settings, action: Record)
    requires ActionReasons(s, action) == []
    ensures forall i | 0 <= i < |s.tableHeaders| ::
      s.tableHeaders[i] in action && Row(action, s.tableHeaders)[i] == Format(Some(action[s.tableHeaders[i]]))
  {
    ValidActionHasColumns(s, action);
  }

  /** A missing cell prints as `None`, exactly like a cell holding that text. */
  lemma MissingCellIsNone(item: Record, headers: seq<string>, i: nat)
    requires i < |headers| && headers[i] !in item
    ensures Row(item, headers)[i] == "None"
    ensures Row(item, headers)[i] == Row(map[headers[i] := Str("None")], headers)[i]
  {
  }
}
