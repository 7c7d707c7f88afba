/** The record validators, `validate_users` and `validate_actions`
    (reminders.py:451-501): both are fail-complete, checking every record and
    reporting one message per offending record, each message listing that
    record's reasons in a fixed order. */
module Validator {
  import opened Results
  import opened Strings
  import opened Records
  import opened Config
  import opened Template
  import Correlator

  /** `valid_string(value)`: a non-empty `str`; a missing cell is not one. */
  predicate ValidString(v: Option<Value>) {
    v.Some? && v.value.Str? && v.value.text != ""
  }

  /** `valid_date(value)`: a `datetime.date`, which every timestamp is. */
  predicate ValidDate(v: Option<Value>) {
    v.Some? && v.value.Stamp?
  }

  /** A reason a record is rejected; `MissingFields` carries which kind of
      field (`email` or `table`) and the absent names. */
  datatype Reason =
    | MissingEmail
    | MissingAssignment
    | MissingDueDate
    | MissingFields(kind: string, names: seq<string>)

  function ReasonText(r: Reason): string {
    match r
    case MissingEmail => "missing email"
    case MissingAssignment => "missing assignment"
    case MissingDueDate => "missing due date"
    case MissingFields(kind, names) => "missing " + kind + " fields " + JoinWith("/", names)
  }

  function ReasonTexts(rs: seq<Reason>): (r: seq<string>)
    ensures |r| == |rs|
    ensures forall i | 0 <= i < |rs| :: r[i] == ReasonText(rs[i])
  {
    seq(|rs|, i requires 0 <= i < |rs| => ReasonText(rs[i]))
  }

  /** `f"{who} ({row}) error(s): {', '.join(reasons)}"` */
  function Report(who: Option<Value>, row: Option<Value>, reasons: seq<Reason>): string {
    Show(who) + " (" + Show(row) + ") error(s): " + JoinWith(", ", ReasonTexts(reasons))
  }

  /** A report names the record and its row, then lists the reasons in
      their order: a report with one more reason in front is the one-reason
      report followed by `, ` and the rest. */
  lemma ReportCons(who: Option<Value>, row: Option<Value>, x: Reason, rest: seq<Reason>)
    requires rest != []
    ensures Report(who, row, [x]) == Show(who) + " (" + Show(row) + ") error(s): " + ReasonText(x)
    ensures Report(who, row, [x] + rest) == Report(who, row, [x]) + ", " + JoinWith(", ", ReasonTexts(rest))
  {
    var pre := Show(who) + " (" + Show(row) + ") error(s): ";
    var t := ReasonText(x);
    var more := JoinWith(", ", ReasonTexts(rest));
    var ts := ReasonTexts([x] + rest);
    assert ReasonTexts([x]) == [t];
    assert |ts| >= 2 && ts[0] == t;
    assert ts[1..] == ReasonTexts(rest);
    assert JoinWith(", ", ts) == t + ", " + more;
    assert Report(who, row, [x] + rest) == pre + (t + ", " + more);
    assert pre + (t + ", " + more) == (pre + t) + ", " + more by {
      assert pre + ((t + ", ") + more) == (pre + (t + ", ")) + more;
      assert pre + (t + ", ") == (pre + t) + ", ";
    }
  }

  /** The names of `names` that are neither skipped nor keys of `r`, in list order. */
  function Absent(names: seq<string>, skip: set<string>, r: Record): (m: seq<string>)
    ensures forall n :: n in m <==> n in names && n !in skip && n !in r
  {
    if |names| == 0 then []
    else
      var rest := Absent(names[1..], skip, r);
      assert forall n | n in names :: n == names[0] || n in names[1..];
      if names[0] !in skip && names[0] !in r then [names[0]] + rest else rest
  }

  /** `sorted(fields - record.keys())`: the absent names, each once, ascending. */
  function MissingNames(names: seq<string>, skip: set<string>, r: Record): (m: seq<string>)
    ensures StrictlySorted(m)
    ensures forall n :: n in m <==> n in names && n !in skip && n !in r
  {
    SortDistinct(Absent(names, skip, r))
  }

  /** `MissingNames` is the one ascending listing of the set difference the
      source computes, whichever list of names the set was built from. */
  lemma MissingNamesSorted(names: seq<string>, skip: set<string>, r: Record, fields: set<string>, listing: seq<string>)
    requires forall n :: n in fields <==> n in names && n !in skip
    requires StrictlySorted(listing)
    requires forall n :: n in listing <==> n in fields && n !in r
    ensures MissingNames(names, skip, r) == listing
  {
    SortedUnique(MissingNames(names, skip, r), listing);
  }

  /** The `MissingFields` reason for the absent names, when there are any. */
  function MissingReason(kind: string, names: seq<string>, skip: set<string>, r: Record): (rs: seq<Reason>)
    ensures |rs| <= 1
    ensures rs == [] <==> forall n | n in names && n !in skip :: n in r
    ensures rs != [] ==> rs[0] == MissingFields(kind, MissingNames(names, skip, r))
  {
    var m := MissingNames(names, skip, r);
    if m == [] then []
    else
      assert m[0] in m;
      [MissingFields(kind, m)]
  }

  /** The messages of a list of records, each record contributing its own
      (possibly empty) list, in record order. */
  function Messages<T>(items: seq<T>, f: T -> seq<string>): seq<string> {
    if |items| == 0 then []
    else Messages(items[..|items| - 1], f) + f(items[|items| - 1])
  }

  lemma {:induction false} MessagesAppend<T>(a: seq<T>, b: seq<T>, f: T -> seq<string>)
    ensures Messages(a + b, f) == Messages(a, f) + Messages(b, f)
  {
    if |b| == 0 {
      assert a + b == a;
    } else {
      var n := |b| - 1;
      assert (a + b)[..|a| + n] == a + b[..n];
      assert (a + b)[|a| + n] == b[n];
      MessagesAppend(a, b[..n], f);
    }
  }

  lemma {:induction false} MessagesEmpty<T>(items: seq<T>, f: T -> seq<string>)
    ensures Messages(items, f) == [] <==> forall i | 0 <= i < |items| :: f(items[i]) == []
  {
    if |items| > 0 {
      var n := |items| - 1;
      MessagesEmpty(items[..n], f);
      assert forall i | 0 <= i < n :: items[..n][i] == items[i];
    }
  }

  lemma MessagesOne<T>(x: T, f: T -> seq<string>)
    ensures Messages([x], f) == f(x)
  {
    var none: seq<T> := [];
    assert [x][..0] == none;
  }

  // ---------------------------------------------------------------------
  // validate_users

  /** Every placeholder name of the preamble and the close, in template order. */
  function TemplateNames(s: Settings): seq<string> {
    FieldNames(Scan(s.preamble)) + FieldNames(Scan(s.close))
  }

  /** Names a user need not carry: `days`, and the email header, checked on its own. */
  function UserSkip(s: Settings): set<string> {
    {"days", s.hdrEmail}
  }

  /** The `fields` set of `validate_users`. */
  function UserFields(s: Settings): (r: set<string>)
    ensures forall n :: n in r <==> n in TemplateNames(s) && n !in UserSkip(s)
  {
    var r := (GetFields(s.preamble) + GetFields(s.close)) - UserSkip(s);
    assert forall n :: n in GetFields(s.preamble) <==> n in FieldNames(Scan(s.preamble));
    assert forall n :: n in GetFields(s.close) <==> n in FieldNames(Scan(s.close));
    r
  }

  /** The reasons one user is rejected: the email first, then the fields. */
  function UserReasons(s: Settings, user: Record): (r: seq<Reason>)
    ensures r == [] <==>
      ValidString(Get(user, s.hdrEmail)) && forall n | n in UserFields(s) :: n in user
    ensures MissingEmail in r <==> !ValidString(Get(user, s.hdrEmail))
    ensures forall i | 0 < i < |r| :: r[i].MissingFields? && r[i].kind == "email"
    ensures |r| == (if ValidString(Get(user, s.hdrEmail)) then 0 else 1)
      + (if forall n | n in UserFields(s) :: n in user then 0 else 1)
    ensures !ValidString(Get(user, s.hdrEmail)) ==> r[0] == MissingEmail
    ensures !(forall n | n in UserFields(s) :: n in user) ==>
      r[|r| - 1] == MissingFields("email", MissingNames(TemplateNames(s), UserSkip(s), user))
  {
    (if ValidString(Get(user, s.hdrEmail)) then [] else [MissingEmail])
      + MissingReason("email", TemplateNames(s), UserSkip(s), user)
  }

  /** The message for one user, if it has reasons. */
  function UserError(s: Settings, user: Record): seq<string> {
    var reasons := UserReasons(s, user);
    if reasons == [] then [] else [Report(Get(user, s.hdrUser), Get(user, RowHeader), reasons)]
  }

  /** `validate_users(users)`: one message per user with a reason, in
      user order, and none when every user passes. */
  function ValidateUsers(s: Settings, users: seq<Record>): (r: seq<string>)
    ensures r == [] <==> forall i | 0 <= i < |users| :: UserReasons(s, users[i]) == []
  {
    var f := u => UserError(s, u);
    MessagesEmpty(users, f);
    Messages(users, f)
  }

  /** Users are judged one at a time: the messages for a concatenation are
      the messages for each part, in order. */
  lemma ValidateUsersAppend(s: Settings, a: seq<Record>, b: seq<Record>)
    ensures ValidateUsers(s, a + b) == ValidateUsers(s, a) + ValidateUsers(s, b)
  {
    MessagesAppend(a, b, u => UserError(s, u));
  }

  /** One user gets one message, exactly when it has a reason. */
  lemma ValidateUsersOne(s: Settings, user: Record)
    ensures ValidateUsers(s, [user]) ==
      if UserReasons(s, user) == [] then []
      else [Report(Get(user, s.hdrUser), Get(user, RowHeader), UserReasons(s, user))]
  {
    MessagesOne(user, u => UserError(s, u));
  }

  /** A user that passes validation, whose cells are all text, can be
      greeted: the preamble and the close substitute without error as long
      as no line holds two placeholders (so `get_fields` and `substitute`
      agree on every name). */
  lemma ValidUserSubstitutes(s: Settings, user: Record, days: int, template: string)
    requires template == s.preamble || template == s.close
    requires UserReasons(s, user) == []
    requires forall k | k in user :: user[k].Str?
    requires forall p | p in Scan(template) && p.Field? :: '{' !in Inner(p.raw) && '}' !in Inner(p.raw)
    ensures Substitute(template, user, days).Success?
  {
    var ps := Scan(template);
    forall p | p in ps && p.Field? ensures Fillable(Inner(p.raw), user) {
      NamesAgree(p.raw);
      var name := Unbraced(p.raw);
      assert name in FieldNames(ps);
      assert name in TemplateNames(s);
      NameFillable(s, user, name);
    }
  }

  /** A name of either template is fillable for a user that passes. */
  lemma NameFillable(s: Settings, user: Record, name: string)
    requires UserReasons(s, user) == []
    requires forall k | k in user :: user[k].Str?
    requires name in TemplateNames(s)
    ensures Fillable(name, user)
  {
    if name != "days" && name != s.hdrEmail {
      assert name in UserFields(s);
    }
  }

  // ---------------------------------------------------------------------
  // validate_actions

  /** Names an action need not carry among the table headers: the user and
      due headers, checked on their own. */
  function ActionSkip(s: Settings): set<string> {
    {s.hdrUser, s.hdrDue}
  }

  /** The reasons one action is rejected: assignment, due date, table fields. */
  function ActionReasons(s: Settings, action: Record): (r: seq<Reason>)
    ensures r == [] <==>
      && ValidString(Get(action, s.hdrUser))
      && ValidDate(Get(action, s.hdrDue))
      && forall h | h in s.tableHeaders && h !in ActionSkip(s) :: h in action
    ensures MissingAssignment in r <==> !ValidString(Get(action, s.hdrUser))
    ensures MissingDueDate in r <==> !ValidDate(Get(action, s.hdrDue))
    ensures |r| == (if ValidString(Get(action, s.hdrUser)) then 0 else 1)
      + (if ValidDate(Get(action, s.hdrDue)) then 0 else 1)
      + (if forall h | h in s.tableHeaders && h !in ActionSkip(s) :: h in action then 0 else 1)
    ensures !ValidString(Get(action, s.hdrUser)) ==> r[0] == MissingAssignment
    ensures !ValidDate(Get(action, s.hdrDue)) ==>
      r[if ValidString(Get(action, s.hdrUser)) then 0 else 1] == MissingDueDate
    ensures !(forall h | h in s.tableHeaders && h !in ActionSkip(s) :: h in action) ==>
      r[|r| - 1] == MissingFields("table", MissingNames(s.tableHeaders, ActionSkip(s), action))
  {
    (if ValidString(Get(action, s.hdrUser)) then [] else [MissingAssignment])
      + (if ValidDate(Get(action, s.hdrDue)) then [] else [MissingDueDate])
      + MissingReason("table", s.tableHeaders, ActionSkip(s), action)
  }

  /** The message for one action, if it has reasons. */
  function ActionError(s: Settings, action: Record): seq<string> {
    var reasons := ActionReasons(s, action);
    if reasons == [] then [] else [Report(Get(action, s.hdrId), Get(action, RowHeader), reasons)]
  }

  /** `validate_actions(actions)`: one message per action with a reason,
      in action order, and none when every action passes. */
  function ValidateActions(s: Settings, actions: seq<Record>): (r: seq<string>)
    ensures r == [] <==> forall i | 0 <= i < |actions| :: ActionReasons(s, actions[i]) == []
  {
    var f := a => ActionError(s, a);
    MessagesEmpty(actions, f);
    Messages(actions, f)
  }

  lemma ValidateActionsAppend(s: Settings, a: seq<Record>, b: seq<Record>)
    ensures ValidateActions(s, a + b) == ValidateActions(s, a) + ValidateActions(s, b)
  {
    MessagesAppend(a, b, x => ActionError(s, x));
  }

  lemma ValidateActionsOne(s: Settings, action: Record)
    ensures ValidateActions(s, [action]) ==
      if ActionReasons(s, action) == [] then []
      else [Report(Get(action, s.hdrId), Get(action, RowHeader), ActionReasons(s, action))]
  {
    MessagesOne(action, a => ActionError(s, a));
  }

  /** A valid action carries every table header, so no cell of its table
      row is the text of a missing value. */
  lemma ValidActionHasColumns(s: Settings, action: Record)
    requires ActionReasons(s, action) == []
    ensures forall h | h in s.tableHeaders :: h in action
  {
    forall h | h in s.tableHeaders ensures h in action {
      if h == s.hdrUser {
        assert Get(action, s.hdrUser).Some?;
      } else if h == s.hdrDue {
        assert Get(action, s.hdrDue).Some?;
      }
    }
  }

  /** `correlate` can split the assignment of an action that passes
      validation: it never meets a missing or non-text assignee. */
  lemma ValidActionAssignable(s: Settings, action: Record)
    requires ActionReasons(s, action) == []
    ensures Correlator.Assignees(action, s.hdrUser).Success?
    ensures JoinWith("/", Correlator.Assignees(action, s.hdrUser).value) == action[s.hdrUser].text
  {
  }
}
