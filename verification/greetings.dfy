/** Templates on which `substitute` and `validate_users` are spelled out,
    above all the greedy placeholder pattern `\{.*\}` (reminders.py:32)
    meeting two placeholders on one line, as in the greeting `{Fn} {Ln}`:
    the pattern takes `{Fn} {Ln}` as ONE match. `get_fields` then asks every
    user for a field named `Fn Ln`, while `substitute` looks up `Fn} {Ln`. */
module Greetings {
  import opened Results
  import opened Strings
  import opened Records
  import opened Config
  import opened Template
  import opened Validator

  lemma NothingToScan()
    ensures Scan("") == []
  {
    assert Text(Scan("")) == "";
  }

  // ---------------------------------------------------------------------
  // one placeholder: `{days}`

  const DaysField: string := "{days}"

  /** A line holding `{days}` and nothing else is one placeholder, filled
      with the decimal form of `days`, whatever the user. */
  lemma DaysOnly(user: Record, days: int)
    ensures Scan(DaysField) == [Field(DaysField)]
    ensures Substitute(DaysField, user, days) == Success(IntToString(days))
  {
    var t := DaysField;
    assert '\n' !in t && t[0] == '{' && t[5] == '}' && |t| == 6;
    SingleLine(t, 0, 5);
    assert t[..0] == [] && t[6..] == [] && t[0..6] == t;
    assert Lits([]) == [];
    DaysInner();
    FillOne(t, user, days, Str(IntToString(days)));
  }

  lemma DaysInner()
    ensures Inner(DaysField) == "days"
  {
    assert DaysField[1..5] == "days";
  }

  /** A template that is one placeholder becomes the text that placeholder
      is filled with. */
  lemma FillOne(t: string, user: Record, days: int, v: Value)
    requires Scan(t) == [Field(t)] && |t| >= 2
    requires Replacement(t, user, days) == Success(v) && v.Str?
    ensures Substitute(t, user, days) == Success(v.text)
  {
    var ps := [Field(t)];
    assert ps[1..] == [];
    assert Replacements(ps[1..], user, days) == Success([]);
    assert [v] + [] == [v];
    var rs := Replacements(ps, user, days);
    assert rs == Success([v]);
    assert [v][1..] == [];
    assert JoinText([v][1..]) == Success("");
    assert v.text + "" == v.text;
    assert JoinText([v]) == Success(v.text);
    assert Substitute(t, user, days) == JoinText(rs.value);
  }

  // ---------------------------------------------------------------------
  // two placeholders on one line: `{x}sep{y}`

  /** Text that may stand inside or between placeholders on one line. */
  predicate Plain(t: string) {
    '{' !in t && '}' !in t && '\n' !in t
  }

  /** The line `{x}sep{y}`, such as `{Fn} {Ln}`. */
  function TwoFields(x: string, sep: string, y: string): string {
    "{" + Spanned(x, sep, y) + "}"
  }

  /** The name `get_fields` reports for that line: every brace dropped. */
  function Joined(x: string, sep: string, y: string): string {
    x + sep + y
  }

  /** The name `substitute` looks up for that line: the outer braces dropped. */
  function Spanned(x: string, sep: string, y: string): string {
    x + "}" + sep + "{" + y
  }

  lemma SpannedOneLine(x: string, sep: string, y: string)
    requires Plain(x) && Plain(sep) && Plain(y)
    ensures '\n' !in Spanned(x, sep, y)
  {
    var m := Spanned(x, sep, y);
    forall i | 0 <= i < |m| ensures m[i] != '\n' {
      if i < |x| {
        assert m[i] == x[i];
      } else if i == |x| || i == |x| + |sep| + 1 {
      } else if i <= |x| + |sep| {
        assert m[i] == sep[i - |x| - 1];
      } else {
        assert m[i] == y[i - |x| - |sep| - 2];
      }
    }
  }

  /** The greedy pattern reads the whole line as one match. */
  lemma TwoOnOneLine(x: string, sep: string, y: string)
    requires Plain(x) && Plain(sep) && Plain(y)
    ensures Scan(TwoFields(x, sep, y)) == [Field(TwoFields(x, sep, y))]
  {
    var t := TwoFields(x, sep, y);
    SpannedOneLine(x, sep, y);
    var l := |t| - 1;
    assert t[0] == '{' && t[l] == '}';
    assert '\n' !in t;
    SingleLine(t, 0, l);
    assert t[..0] == [] && t[l + 1..] == [] && t[0..l + 1] == t;
    assert Lits([]) == [];
  }

  /** `get_fields` and `substitute` name that one match differently. */
  lemma TwoFieldsNames(x: string, sep: string, y: string)
    requires Plain(x) && Plain(sep) && Plain(y)
    ensures Unbraced(TwoFields(x, sep, y)) == Joined(x, sep, y)
    ensures Inner(TwoFields(x, sep, y)) == Spanned(x, sep, y)
  {
    var t := TwoFields(x, sep, y);
    var m := Spanned(x, sep, y);
    assert t[1..|t| - 1] == m;
    OuterDropped(m);
    SpannedUnbraced(x, sep, y);
  }

  lemma SpannedUnbraced(x: string, sep: string, y: string)
    requires Plain(x) && Plain(sep) && Plain(y)
    ensures Unbraced(Spanned(x, sep, y)) == Joined(x, sep, y)
  {
    var sy := sep + "{" + y;
    assert Unbraced(sy) == sep + y by {
      assert sy == sep + ['{'] + y;
      DropBrace(sep, '{', y);
      UnbracedNoBraces(sep);
      UnbracedNoBraces(y);
    }
    assert Unbraced(Spanned(x, sep, y)) == x + Unbraced(sy) by {
      assert Spanned(x, sep, y) == x + ['}'] + sy;
      DropBrace(x, '}', sy);
      UnbracedNoBraces(x);
    }
  }

  /** `substitute` cannot fill the line for a user without a field named
      like the span between the outer braces, whichever of `x` and `y` the
      user has. */
  lemma Unfillable(x: string, sep: string, y: string, user: Record, days: int)
    requires Plain(x) && Plain(sep) && Plain(y)
    requires Spanned(x, sep, y) !in user
    ensures Substitute(TwoFields(x, sep, y), user, days) == Failure(UnknownField(Spanned(x, sep, y)))
  {
    var t := TwoFields(x, sep, y);
    var name := Spanned(x, sep, y);
    TwoOnOneLine(x, sep, y);
    TwoFieldsNames(x, sep, y);
    assert name[|x|] == '}';
    assert name != "days";
    var ps := [Field(t)];
    assert Replacement(t, user, days) == Failure(UnknownField(name));
    assert Replacements(ps, user, days) == Failure(UnknownField(name));
  }

  /** Settings whose preamble is the line `{x}sep{y}`, with no close. */
  predicate Greets(s: Settings, x: string, sep: string, y: string) {
    s.preamble == TwoFields(x, sep, y) && s.close == ""
  }

  /** Such settings name one field, the joined name. */
  lemma GreetingNames(s: Settings, x: string, sep: string, y: string)
    requires Plain(x) && Plain(sep) && Plain(y) && Greets(s, x, sep, y)
    ensures TemplateNames(s) == [Joined(x, sep, y)]
  {
    TwoOnOneLine(x, sep, y);
    TwoFieldsNames(x, sep, y);
    NamesOfSingle(s, TwoFields(x, sep, y));
  }

  /** A preamble that is one placeholder, and no close, name one field. */
  lemma NamesOfSingle(s: Settings, raw: string)
    requires Scan(s.preamble) == [Field(raw)] && s.close == ""
    ensures TemplateNames(s) == [Unbraced(raw)]
  {
    NothingToScan();
    assert [Field(raw)][1..] == [];
    assert FieldNames([Field(raw)]) == [Unbraced(raw)];
  }

  /** `validate_users` blames a user that has an email but no field named
      by the joined name, such as `Fn Ln`, a name `substitute` never asks
      for; having both `x` and `y` does not help. */
  lemma JoinedNameBlamed(s: Settings, user: Record, x: string, sep: string, y: string)
    requires Plain(x) && Plain(sep) && Plain(y) && Greets(s, x, sep, y)
    requires Joined(x, sep, y) !in UserSkip(s)
    requires ValidString(Get(user, s.hdrEmail)) && Joined(x, sep, y) !in user
    ensures UserFields(s) == {Joined(x, sep, y)}
    ensures UserReasons(s, user) == [MissingFields("email", [Joined(x, sep, y)])]
  {
    GreetingNames(s, x, sep, y);
    OneFieldReasons(s, user, Joined(x, sep, y));
  }

  /** With one placeholder name, a user with an email is blamed for exactly
      that name, when it lacks it. */
  lemma OneFieldReasons(s: Settings, u: Record, n: string)
    requires TemplateNames(s) == [n] && n !in UserSkip(s)
    requires ValidString(Get(u, s.hdrEmail))
    ensures UserFields(s) == {n}
    ensures UserReasons(s, u) == if n in u then [] else [MissingFields("email", [n])]
  {
    if n !in u {
      OneMissing(TemplateNames(s), UserSkip(s), u, n);
    }
  }

  /** One name, absent from the record, is the whole list of missing names. */
  lemma OneMissing(names: seq<string>, skip: set<string>, r: Record, n: string)
    requires names == [n] && n !in skip && n !in r
    ensures MissingNames(names, skip, r) == [n]
  {
    SortedUnique(MissingNames(names, skip, r), [n]);
  }

  /** A user that does carry a field named by the joined name passes
      validation, yet its greeting still cannot be built. */
  lemma ValidatedButUnfillable(s: Settings, user: Record, x: string, sep: string, y: string, days: int)
    requires Plain(x) && Plain(sep) && Plain(y) && Greets(s, x, sep, y)
    requires Joined(x, sep, y) !in UserSkip(s)
    requires ValidString(Get(user, s.hdrEmail))
    requires Joined(x, sep, y) in user && Spanned(x, sep, y) !in user
    ensures UserReasons(s, user) == []
    ensures Substitute(s.preamble, user, days) == Failure(UnknownField(Spanned(x, sep, y)))
  {
    GreetingNames(s, x, sep, y);
    OneFieldReasons(s, user, Joined(x, sep, y));
    Unfillable(x, sep, y, user, days);
  }
}
