/** The reminder settings: how `Reminders.update_config` folds an INI file
    into them (reminders.py:159-191) and which of them `check_config`
    requires (reminders.py:193-223). An unset setting (Python's `None`) is
    the empty string, the empty list or the empty map; reading an option
    the file lacks yields the empty string. */
module Config {
  import opened Results
  import opened Strings

  datatype Settings = Settings(
    spreadsheet: string,
    tabUser: string,
    tabAction: string,
    hdrUser: string,
    hdrEmail: string,
    hdrId: string,
    hdrDue: string,
    hdrStatus: string,
    mailServer: string,
    mailPort: string,
    mailPassword: string,
    mailFrom: string,
    mailSubject: string,
    mailCc: seq<string>,
    preamble: string,
    close: string,
    tableHeaders: seq<string>,
    tableAlign: map<string, string>)

  /** A freshly constructed `Reminders`: nothing is set. */
  const Unset: Settings :=
    Settings("", "", "", "", "", "", "", "", "", "", "", "", "", [], "", "", [], map[])

  /** A parsed INI file: (section, option) to raw text. */
  type ConfigFile = map<(string, string), string>

  const Source: string := "source"
  const Email: string := "email"
  const Message: string := "message"

  /** `SafeConfigParser.get`: the option's text, or `''` when absent. */
  function Lookup(c: ConfigFile, section: string, option: string): string {
    if (section, option) in c then c[(section, option)] else ""
  }

  /** `given or current` on strings. */
  function Override(given: string, current: string): (r: string)
    ensures r == "" <==> given == "" && current == ""
    ensures given != "" ==> r == given
    ensures given == "" ==> r == current
  {
    if given != "" then given else current
  }

  /** `[_.strip() for _ in text.split(',') if _.strip()] or current` */
  function OverrideList(text: string, current: seq<string>): (r: seq<string>)
    ensures r == [] <==> SplitTrimmed(text, ',') == [] && current == []
    ensures SplitTrimmed(text, ',') != [] ==> r == SplitTrimmed(text, ',')
    ensures SplitTrimmed(text, ',') == [] ==> r == current
  {
    var items := SplitTrimmed(text, ',');
    if items != [] then items else current
  }

  const AlignMessage: string := "The message/align option must be of the form 'header: align-value'"

  /** One `align` entry, already split on `:` with its parts trimmed and
      empty parts dropped: well formed when exactly `name` and `value` remain. */
  predicate AlignEntry(parts: seq<string>) {
    |parts| == 2
  }

  /** The loop over the `align` entries: each entry updates the map, so a
      later entry for the same header wins; the first malformed entry raises
      `ValueError`. */
  function ParseAlign(entries: seq<seq<string>>): Result<map<string, string>, string> {
    if |entries| == 0 then Success(map[])
    else
      var n := |entries| - 1;
      var m :- ParseAlign(entries[..n]);
      var e := entries[n];
      if !AlignEntry(e) then Failure(AlignMessage)
      else Success(m[e[0] := e[1]])
  }

  predicate AllAlign(entries: seq<seq<string>>) {
    forall k | 0 <= k < |entries| :: AlignEntry(entries[k])
  }

  /** Entry `i` is the last one naming `name`. */
  predicate LastFor(entries: seq<seq<string>>, name: string, i: nat)
    requires AllAlign(entries)
  {
    && i < |entries|
    && entries[i][0] == name
    && forall j | i < j < |entries| :: entries[j][0] != name
  }

  lemma ParseAlignSnoc(entries: seq<seq<string>>, e: seq<string>)
    ensures ParseAlign(entries + [e]) ==
      if ParseAlign(entries).Failure? then ParseAlign(entries)
      else if !AlignEntry(e) then Failure(AlignMessage)
      else Success(ParseAlign(entries).value[e[0] := e[1]])
  {
    assert (entries + [e])[..|entries|] == entries;
  }

  /** The align map is built exactly when every entry is well formed, and
      the only error is the one fixed message. */
  lemma {:induction false} ParseAlignOutcome(entries: seq<seq<string>>)
    ensures ParseAlign(entries).Success? <==> AllAlign(entries)
    ensures ParseAlign(entries).Failure? ==> ParseAlign(entries).error == AlignMessage
  {
    if |entries| > 0 {
      var n := |entries| - 1;
      var init := entries[..n];
      assert entries == init + [entries[n]];
      assert forall k | 0 <= k < n :: init[k] == entries[k];
      ParseAlignOutcome(init);
      ParseAlignSnoc(init, entries[n]);
    }
  }

  /** Its headers are the named ones, and each maps to the value of the
      last entry naming it. */
  lemma {:induction false} ParseAlignMap(entries: seq<seq<string>>)
    requires AllAlign(entries)
    ensures ParseAlign(entries).Success?
    ensures var m := ParseAlign(entries).value;
      && (forall name :: name in m <==> exists k | 0 <= k < |entries| :: entries[k][0] == name)
      && forall name, i: nat | LastFor(entries, name, i) :: name in m && m[name] == entries[i][1]
  {
    ParseAlignOutcome(entries);
    if |entries| > 0 {
      var n := |entries| - 1;
      var init := entries[..n];
      var e := entries[n];
      assert entries == init + [e];
      assert forall k | 0 <= k < n :: init[k] == entries[k];
      ParseAlignMap(init);
      ParseAlignSnoc(init, e);
      var m0 := ParseAlign(init).value;
      var m := ParseAlign(entries).value;
      assert m == m0[e[0] := e[1]];
      forall name, i: nat | LastFor(entries, name, i)
        ensures name in m && m[name] == entries[i][1]
      {
        if i < n {
          assert LastFor(init, name, i);
        }
      }
      forall name ensures name in m <==> exists k | 0 <= k < |entries| :: entries[k][0] == name {
        if name in m && name != e[0] {
          var k :| 0 <= k < n && init[k][0] == name;
          assert entries[k][0] == name;
        }
      }
    }
  }

  /** The `align` option's entries, each split into its parts. */
  function AlignEntries(text: string): (r: seq<seq<string>>)
    ensures |r| == |SplitTrimmed(text, ',')|
  {
    var items := SplitTrimmed(text, ',');
    seq(|items|, k requires 0 <= k < |items| => SplitTrimmed(items[k], ':'))
  }

  /** The `align` option: no entries keep the current map, otherwise the
      entries are parsed afresh. */
  function AlignOption(current: map<string, string>, c: ConfigFile): (r: Result<map<string, string>, string>)
    ensures var aligns := AlignEntries(Lookup(c, Message, "align"));
      r.Success? <==> aligns == [] || AllAlign(aligns)
    ensures r.Failure? ==> r.error == AlignMessage
    ensures var aligns := AlignEntries(Lookup(c, Message, "align"));
      r.Success? && aligns == [] ==> r.value == current
    ensures var aligns := AlignEntries(Lookup(c, Message, "align"));
      r.Success? && aligns != [] ==>
        forall name :: name in r.value <==> exists k | 0 <= k < |aligns| :: aligns[k][0] == name
    ensures var aligns := AlignEntries(Lookup(c, Message, "align"));
      r.Success? && aligns != [] ==>
        AllAlign(aligns) && forall name, i: nat | LastFor(aligns, name, i) ::
          name in r.value && r.value[name] == aligns[i][1]
  {
    var aligns := AlignEntries(Lookup(c, Message, "align"));
    ParseAlignOutcome(aligns);
    if aligns == [] then Success(current)
    else if AllAlign(aligns) then
      ParseAlignMap(aligns);
      ParseAlign(aligns)
    else ParseAlign(aligns)
  }

  /** `r` is what `given or current` promises: a value the file sets
      replaces the current one, an empty one keeps it. */
  predicate Takes(given: string, current: string, r: string) {
    (given != "" ==> r == given) && (given == "" ==> r == current)
  }

  /** The same for a comma-separated list: its non-blank stripped items
      replace the current list, and none keep it. */
  predicate TakesList(text: string, current: seq<string>, r: seq<string>) {
    var items := SplitTrimmed(text, ',');
    (items != [] ==> r == items) && (items == [] ==> r == current)
  }

  /** Every option but `align` of file `c` has been read into `t` over `s`. */
  predicate Applied(s: Settings, c: ConfigFile, t: Settings) {
    && Takes(Lookup(c, Source, "spreadsheet"), s.spreadsheet, t.spreadsheet)
    && Takes(Lookup(c, Source, "tab_users"), s.tabUser, t.tabUser)
    && Takes(Lookup(c, Source, "tab_actions"), s.tabAction, t.tabAction)
    && Takes(Lookup(c, Source, "user_id"), s.hdrUser, t.hdrUser)
    && Takes(Lookup(c, Source, "email_addr"), s.hdrEmail, t.hdrEmail)
    && Takes(Lookup(c, Source, "action_id"), s.hdrId, t.hdrId)
    && Takes(Lookup(c, Source, "action_due"), s.hdrDue, t.hdrDue)
    && Takes(Lookup(c, Source, "action_status"), s.hdrStatus, t.hdrStatus)
    && Takes(Lookup(c, Email, "server"), s.mailServer, t.mailServer)
    && Takes(Lookup(c, Email, "port"), s.mailPort, t.mailPort)
    && Takes(Lookup(c, Email, "password"), s.mailPassword, t.mailPassword)
    && Takes(Lookup(c, Email, "from"), s.mailFrom, t.mailFrom)
    && Takes(Lookup(c, Email, "subject"), s.mailSubject, t.mailSubject)
    && TakesList(Lookup(c, Email, "cc"), s.mailCc, t.mailCc)
    && Takes(Lookup(c, Message, "preamble"), s.preamble, t.preamble)
    && Takes(Lookup(c, Message, "close"), s.close, t.close)
    && TakesList(Lookup(c, Message, "columns"), s.tableHeaders, t.tableHeaders)
  }

  /** Every option but `align` applied to `s`. */
  function Merge(s: Settings, c: ConfigFile, align: map<string, string>): (r: Settings)
    ensures Applied(s, c, r) && r.tableAlign == align
    ensures Fills(s, r)
  {
    Settings(
      spreadsheet := Override(Lookup(c, Source, "spreadsheet"), s.spreadsheet),
      tabUser := Override(Lookup(c, Source, "tab_users"), s.tabUser),
      tabAction := Override(Lookup(c, Source, "tab_actions"), s.tabAction),
      hdrUser := Override(Lookup(c, Source, "user_id"), s.hdrUser),
      hdrEmail := Override(Lookup(c, Source, "email_addr"), s.hdrEmail),
      hdrId := Override(Lookup(c, Source, "action_id"), s.hdrId),
      hdrDue := Override(Lookup(c, Source, "action_due"), s.hdrDue),
      hdrStatus := Override(Lookup(c, Source, "action_status"), s.hdrStatus),
      mailServer := Override(Lookup(c, Email, "server"), s.mailServer),
      mailPort := Override(Lookup(c, Email, "port"), s.mailPort),
      mailPassword := Override(Lookup(c, Email, "password"), s.mailPassword),
      mailFrom := Override(Lookup(c, Email, "from"), s.mailFrom),
      mailSubject := Override(Lookup(c, Email, "subject"), s.mailSubject),
      mailCc := OverrideList(Lookup(c, Email, "cc"), s.mailCc),
      preamble := Override(Lookup(c, Message, "preamble"), s.preamble),
      close := Override(Lookup(c, Message, "close"), s.close),
      tableHeaders := OverrideList(Lookup(c, Message, "columns"), s.tableHeaders),
      tableAlign := align)
  }

  /** `update_config(config)`: every option the file sets overrides the
      current value, every option it leaves empty keeps it; a malformed
      `align` entry raises `ValueError`. */
  function UpdateConfig(s: Settings, c: ConfigFile): (r: Result<Settings, string>)
    ensures var aligns := AlignEntries(Lookup(c, Message, "align"));
      r.Success? <==> aligns == [] || AllAlign(aligns)
    ensures r.Failure? ==> r.error == AlignMessage
    ensures r.Success? ==> Fills(s, r.value)
    ensures var aligns := AlignEntries(Lookup(c, Message, "align"));
      r.Success? && aligns == [] ==> r.value.tableAlign == s.tableAlign
    ensures var aligns := AlignEntries(Lookup(c, Message, "align"));
      r.Success? && aligns != [] ==>
        forall name :: name in r.value.tableAlign <==> exists k | 0 <= k < |aligns| :: aligns[k][0] == name
    ensures var aligns := AlignEntries(Lookup(c, Message, "align"));
      r.Success? && aligns != [] ==>
        AllAlign(aligns) && forall name, i: nat | LastFor(aligns, name, i) ::
          name in r.value.tableAlign && r.value.tableAlign[name] == aligns[i][1]
    ensures r.Success? ==> Applied(s, c, r.value)
  {
    var align :- AlignOption(s.tableAlign, c);
    Success(Merge(s, c, align))
  }

  /** An empty file changes nothing. */
  lemma UpdateEmpty(s: Settings)
    ensures UpdateConfig(s, map[]) == Success(s)
  {
    assert Split("", ',') == [""];
    assert Strip("") == "";
    assert SplitTrimmed("", ',') == [];
  }

  /** Reading the same file twice is the same as reading it once. */
  lemma UpdateIdempotent(s: Settings, c: ConfigFile)
    requires UpdateConfig(s, c).Success?
    ensures UpdateConfig(UpdateConfig(s, c).value, c) == UpdateConfig(s, c)
  {
    var align := AlignOption(s.tableAlign, c).value;
    var t := Merge(s, c, align);
    assert UpdateConfig(s, c) == Success(t);
    assert AlignOption(t.tableAlign, c) == Success(align);
    MergeTwice(s, c, align);
  }

  /** Applying the same options twice is applying them once. */
  lemma MergeTwice(s: Settings, c: ConfigFile, align: map<string, string>)
    ensures Merge(Merge(s, c, align), c, align) == Merge(s, c, align)
  {
  }

  /** A column list written as clean comma-separated names is read back as
      exactly those names. */
  lemma ColumnsRoundTrip(s: Settings, c: ConfigFile, columns: seq<string>)
    requires columns != []
    requires forall t | t in columns :: t != "" && Strip(t) == t && ',' !in t
    requires (Message, "columns") in c && c[(Message, "columns")] == JoinWith(",", columns)
    requires UpdateConfig(s, c).Success?
    ensures UpdateConfig(s, c).value.tableHeaders == columns
  {
    SplitTrimmedJoin(columns, ',');
  }

  // ---------------------------------------------------------------------
  // check_config

  /** The number of requirements `check_config` tests. */
  const Checks: nat := 11

  /** The fixed message of each requirement, in the order they are tested. */
  function Complaint(i: nat): string
    requires i < Checks
  {
    match i
    case 0 => "Missing spreadsheet tab name for actions"
    case 1 => "Missing spreadsheet tab name for users"
    case 2 => "Missing user/action user-id field"
    case 3 => "Missing user email field"
    case 4 => "Missing action identifier field"
    case 5 => "Missing action due date field"
    case 6 => "Missing action status field"
    case 7 => "Missing mail server or port"
    case 8 => "Missing mail from address"
    case 9 => "Missing mail subject"
    case _ => "Missing message table headers"
  }

  const Catalogue: seq<string> := [
    Complaint(0), Complaint(1), Complaint(2), Complaint(3), Complaint(4), Complaint(5),
    Complaint(6), Complaint(7), Complaint(8), Complaint(9), Complaint(10)]

  /** Whether requirement `i` is unmet. */
  predicate Flag(s: Settings, i: nat)
    requires i < Checks
  {
    match i
    case 0 => s.tabAction == ""
    case 1 => s.tabUser == ""
    case 2 => s.hdrUser == ""
    case 3 => s.hdrEmail == ""
    case 4 => s.hdrId == ""
    case 5 => s.hdrDue == ""
    case 6 => s.hdrStatus == ""
    case 7 => s.mailServer == "" || s.mailPort == ""
    case 8 => s.mailFrom == ""
    case 9 => s.mailSubject == ""
    case _ => s.tableHeaders == []
  }

  /** Which requirement is unmet, in catalogue order. */
  function Flags(s: Settings): (r: seq<bool>)
    ensures |r| == Checks
    ensures forall i | 0 <= i < Checks :: r[i] == Flag(s, i)
  {
    seq(Checks, i requires 0 <= i < Checks => Flag(s, i))
  }

  /** Every required setting is present. */
  predicate Complete(s: Settings) {
    && s.tabAction != "" && s.tabUser != ""
    && s.hdrUser != "" && s.hdrEmail != "" && s.hdrId != "" && s.hdrDue != "" && s.hdrStatus != ""
    && s.mailServer != "" && s.mailPort != "" && s.mailFrom != "" && s.mailSubject != ""
    && s.tableHeaders != []
  }

  /** The messages whose flag is raised, in order. */
  function Pick(messages: seq<string>, flags: seq<bool>): (r: seq<string>)
    requires |messages| == |flags|
    ensures |r| <= |messages|
  {
    if |messages| == 0 then []
    else (if flags[0] then [messages[0]] else []) + Pick(messages[1..], flags[1..])
  }

  /** `check_config()`: the messages of the unmet requirements. */
  function CheckConfig(s: Settings): (r: seq<string>)
    ensures |r| <= |Catalogue|
    ensures forall i | 0 <= i < Checks :: Complaint(i) in r <==> Flag(s, i)
    ensures forall m | m in r :: m in Catalogue
  {
    CatalogueDistinct();
    PickMembers(Catalogue, Flags(s));
    Pick(Catalogue, Flags(s))
  }

  predicate Distinct(xs: seq<string>) {
    forall i, j | 0 <= i < j < |xs| :: xs[i] != xs[j]
  }

  lemma CatalogueDistinct()
    ensures Distinct(Catalogue)
  {
  }

  /** Where a message stands in a list. */
  function IndexIn(xs: seq<string>, m: string): (i: nat)
    requires m in xs
    ensures i < |xs| && xs[i] == m
  {
    if xs[0] == m then 0 else 1 + IndexIn(xs[1..], m)
  }

  lemma IndexInDistinct(xs: seq<string>, i: nat)
    requires Distinct(xs) && i < |xs|
    ensures IndexIn(xs, xs[i]) == i
  {
  }

  /** Picking keeps a message exactly when its flag is raised, and keeps
      nothing else. */
  lemma {:induction false} PickMembers(messages: seq<string>, flags: seq<bool>)
    requires |messages| == |flags| && Distinct(messages)
    ensures forall i | 0 <= i < |messages| :: messages[i] in Pick(messages, flags) <==> flags[i]
    ensures forall m | m in Pick(messages, flags) :: m in messages
  {
    if |messages| > 0 {
      var tail := messages[1..];
      PickMembers(tail, flags[1..]);
      var rest := Pick(tail, flags[1..]);
      assert Pick(messages, flags) == (if flags[0] then [messages[0]] else []) + rest;
      assert forall i | 0 <= i < |tail| :: tail[i] == messages[i + 1];
      assert messages[0] !in tail;
      forall i | 1 <= i < |messages| ensures messages[i] in Pick(messages, flags) <==> flags[i] {
        assert messages[i] == tail[i - 1];
      }
    }
  }

  /** Picking from distinct messages keeps them in their original order. */
  lemma {:induction false} PickOrder(messages: seq<string>, flags: seq<bool>)
    requires |messages| == |flags| && Distinct(messages)
    ensures InOrder(messages, Pick(messages, flags))
  {
    if |messages| > 0 {
      var tail := messages[1..];
      PickOrder(tail, flags[1..]);
      var rest := Pick(tail, flags[1..]);
      assert Pick(messages, flags) == (if flags[0] then [messages[0]] else []) + rest;
      OrderCons(messages, flags[0], rest);
    }
  }

  /** Every item of `ys` is in `xs`, and `ys` lists them in their order in `xs`. */
  predicate InOrder(xs: seq<string>, ys: seq<string>) {
    && (forall m | m in ys :: m in xs)
    && forall a, b | 0 <= a < b < |ys| :: IndexIn(xs, ys[a]) < IndexIn(xs, ys[b])
  }

  /** Putting the head of `xs` (or nothing) in front keeps the order. */
  lemma OrderCons(xs: seq<string>, keep: bool, rest: seq<string>)
    requires |xs| > 0 && Distinct(xs) && InOrder(xs[1..], rest)
    ensures InOrder(xs, (if keep then [xs[0]] else []) + rest)
  {
    var tail := xs[1..];
    forall i | 0 <= i < |rest| ensures rest[i] in xs && IndexIn(xs, rest[i]) == 1 + IndexIn(tail, rest[i]) {
      IndexInTail(xs, rest[i]);
    }
    if keep {
      OrderConsHead(xs, rest);
    } else {
      forall a, b | 0 <= a < b < |rest| ensures IndexIn(xs, rest[a]) < IndexIn(xs, rest[b]) {
        assert IndexIn(tail, rest[a]) < IndexIn(tail, rest[b]);
      }
      assert [] + rest == rest;
    }
  }

  lemma OrderConsHead(xs: seq<string>, rest: seq<string>)
    requires |xs| > 0 && InOrder(xs[1..], rest)
    requires forall i | 0 <= i < |rest| :: rest[i] in xs && IndexIn(xs, rest[i]) == 1 + IndexIn(xs[1..], rest[i])
    ensures InOrder(xs, [xs[0]] + rest)
  {
    var r := [xs[0]] + rest;
    ConsMembers(xs, rest);
    assert IndexIn(xs, r[0]) == 0;
    forall a, b | 0 <= a < b < |r| ensures IndexIn(xs, r[a]) < IndexIn(xs, r[b]) {
      assert r[b] == rest[b - 1];
      if a > 0 {
        assert r[a] == rest[a - 1];
        assert IndexIn(xs[1..], rest[a - 1]) < IndexIn(xs[1..], rest[b - 1]);
      }
    }
  }

  lemma ConsMembers(xs: seq<string>, rest: seq<string>)
    requires |xs| > 0 && forall i | 0 <= i < |rest| :: rest[i] in xs
    ensures forall m | m in [xs[0]] + rest :: m in xs
  {
    forall m | m in [xs[0]] + rest ensures m in xs {
      if m != xs[0] {
        var i :| 0 <= i < |rest| && rest[i] == m;
      }
    }
  }

  lemma IndexInTail(xs: seq<string>, m: string)
    requires |xs| > 0 && Distinct(xs) && m in xs[1..]
    ensures m in xs && IndexIn(xs, m) == 1 + IndexIn(xs[1..], m)
  {
    var k :| 0 <= k < |xs| - 1 && xs[1..][k] == m;
    assert xs[k + 1] == m;
  }

  /** `check_config()` names exactly the unmet requirements, each once and
      in the fixed order. */
  lemma CheckConfigSpec(s: Settings)
    ensures forall i | 0 <= i < |Catalogue| :: Catalogue[i] in CheckConfig(s) <==> Flags(s)[i]
    ensures forall m | m in CheckConfig(s) :: m in Catalogue
    ensures forall a, b | 0 <= a < b < |CheckConfig(s)| ::
      IndexIn(Catalogue, CheckConfig(s)[a]) < IndexIn(Catalogue, CheckConfig(s)[b])
  {
    CatalogueDistinct();
    PickMembers(Catalogue, Flags(s));
    PickOrder(Catalogue, Flags(s));
    assert CheckConfig(s) == Pick(Catalogue, Flags(s));
  }

  /** `check_config()` is empty exactly when the settings are complete. */
  lemma CheckConfigEmpty(s: Settings)
    ensures CheckConfig(s) == [] <==> Complete(s)
  {
    var flags := Flags(s);
    var r := CheckConfig(s);
    CatalogueDistinct();
    PickMembers(Catalogue, flags);
    FlagsComplete(s);
    if r == [] {
      forall i | 0 <= i < Checks ensures !flags[i] {
        assert Catalogue[i] !in r;
      }
    } else {
      assert r[0] in Catalogue;
      var i := IndexIn(Catalogue, r[0]);
      assert flags[i];
    }
  }

  lemma FlagsComplete(s: Settings)
    ensures Complete(s) <==> forall i | 0 <= i < |Flags(s)| :: !Flags(s)[i]
  {
    var f := Flags(s);
    if Complete(s) {
      forall i | 0 <= i < |f| ensures !f[i] {
      }
    } else {
      var i: nat :=
        if s.tabAction == "" then 0
        else if s.tabUser == "" then 1
        else if s.hdrUser == "" then 2
        else if s.hdrEmail == "" then 3
        else if s.hdrId == "" then 4
        else if s.hdrDue == "" then 5
        else if s.hdrStatus == "" then 6
        else if s.mailServer == "" || s.mailPort == "" then 7
        else if s.mailFrom == "" then 8
        else if s.mailSubject == "" then 9
        else 10;
      assert f[i];
    }
  }

  /** No setting that was present before an update is missing after it. */
  lemma UpdateFlags(s: Settings, c: ConfigFile)
    requires UpdateConfig(s, c).Success?
    ensures forall i | 0 <= i < Checks :: Flags(UpdateConfig(s, c).value)[i] ==> Flags(s)[i]
  {
    var align := AlignOption(s.tableAlign, c).value;
    assert UpdateConfig(s, c).value == Merge(s, c, align);
    MergeFlags(s, c, align);
  }

  lemma MergeFlags(s: Settings, c: ConfigFile, align: map<string, string>)
    ensures forall i | 0 <= i < Checks :: Flags(Merge(s, c, align))[i] ==> Flags(s)[i]
  {
    FillsFlags(s, Merge(s, c, align));
  }

  /** Every required setting empty in `t` is empty in `s` too. */
  predicate Fills(s: Settings, t: Settings) {
    && (t.tabAction == "" ==> s.tabAction == "")
    && (t.tabUser == "" ==> s.tabUser == "")
    && (t.hdrUser == "" ==> s.hdrUser == "")
    && (t.hdrEmail == "" ==> s.hdrEmail == "")
    && (t.hdrId == "" ==> s.hdrId == "")
    && (t.hdrDue == "" ==> s.hdrDue == "")
    && (t.hdrStatus == "" ==> s.hdrStatus == "")
    && (t.mailServer == "" ==> s.mailServer == "")
    && (t.mailPort == "" ==> s.mailPort == "")
    && (t.mailFrom == "" ==> s.mailFrom == "")
    && (t.mailSubject == "" ==> s.mailSubject == "")
    && (t.tableHeaders == [] ==> s.tableHeaders == [])
  }

  lemma FillsFlags(s: Settings, t: Settings)
    requires Fills(s, t)
    ensures forall i | 0 <= i < Checks :: Flags(t)[i] ==> Flags(s)[i]
  {
    var f := Flags(t);
    var g := Flags(s);
    forall i | 0 <= i < Checks && f[i] ensures g[i] {
    }
  }

  /** Reading a configuration file never makes a setting missing again:
      the messages after an update are among those before it. */
  lemma UpdateOnlyFills(s: Settings, c: ConfigFile)
    requires UpdateConfig(s, c).Success?
    ensures forall m | m in CheckConfig(UpdateConfig(s, c).value) :: m in CheckConfig(s)
  {
    var t := UpdateConfig(s, c).value;
    UpdateFlags(s, c);
    CatalogueDistinct();
    assert CheckConfig(t) == Pick(Catalogue, Flags(t));
    assert CheckConfig(s) == Pick(Catalogue, Flags(s));
    PickMonotone(Catalogue, Flags(t), Flags(s));
  }

  /** Fewer raised flags pick fewer messages. */
  lemma PickMonotone(messages: seq<string>, f: seq<bool>, g: seq<bool>)
    requires |messages| == |f| == |g| && Distinct(messages)
    requires forall i | 0 <= i < |f| :: f[i] ==> g[i]
    ensures forall m | m in Pick(messages, f) :: m in Pick(messages, g)
  {
    PickMembers(messages, f);
    PickMembers(messages, g);
    forall m | m in Pick(messages, f) ensures m in Pick(messages, g) {
      var i := IndexIn(messages, m);
      assert f[i];
    }
  }

  lemma {:induction false} PickAll(messages: seq<string>, flags: seq<bool>)
    requires |messages| == |flags| && forall i | 0 <= i < |flags| :: flags[i]
    ensures Pick(messages, flags) == messages
  {
    if |messages| > 0 {
      PickAll(messages[1..], flags[1..]);
    }
  }

  /** A fresh `Reminders` lacks everything: `check_config` lists the whole
      catalogue. */
  lemma UnsetLacksAll()
    ensures CheckConfig(Unset) == Catalogue
  {
    PickAll(Catalogue, Flags(Unset));
  }
}
