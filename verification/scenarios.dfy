/** Concrete sheets and templates on which the model's behaviour is spelled
    out, including inputs where the source does something its authors
    evidently did not mean. */
module Scenarios {
  import opened Results
  import opened Strings
  import opened Records
  import opened Resolver
  import opened Correlator

  // ---------------------------------------------------------------------
  // a user found by an alias, whose id is part of another user's id

  /** Two users as `sheet_to_dict` reads them: every header present (an
      empty cell as `''`) and the `_row` label of the sheet row. */
  const Ann: Record := map["User" := Str("Ann"), "Alias" := Str("AX"), RowHeader := Str("Users:1")]
  const Joanne: Record := map["User" := Str("Joanne"), "Alias" := Str(""), RowHeader := Str("Users:2")]
  const Pair2: seq<Record> := [Ann, Joanne]
  const ByAlias: Record := map["User" := Str("AX"), "Id" := Str("A-1"), RowHeader := Str("Actions:1")]

  /** Lower-casing letter by letter. */
  lemma LowerWord(s: string, t: string)
    requires |s| == |t| && forall i | 0 <= i < |s| :: LowerChar(s[i]) == t[i]
    ensures Lower(s) == t
  {
  }

  /** A query with no surrounding spaces searches for its lower-case form. */
  lemma NeedleOf(s: string, t: string)
    requires Lower(s) == t && |t| > 0 && !IsSpace(t[0]) && !IsSpace(t[|t| - 1])
    ensures Needle(s) == t
  {
    StripNoOp(t);
  }

  /** An occurrence, character by character. */
  lemma OccursAtChars(hay: string, needle: string, i: nat)
    requires i + |needle| <= |hay| && forall k | 0 <= k < |needle| :: hay[i + k] == needle[k]
    ensures OccursAt(hay, needle, i) && Contains(hay, needle)
  {
    assert forall k | 0 <= k < |needle| :: hay[i..i + |needle|][k] == needle[k];
    assert hay[i..i + |needle|] == needle;
    assert OccursAt(hay, needle, i);
    assert 0 <= i <= |hay|;
  }

  /** A user matches when the lower-cased text `low` of its field `k` holds
      the needle at position `i`. */
  lemma MatchesAt(u: Record, k: string, low: string, needle: string, i: nat)
    requires k in u && u[k].Str? && Lower(u[k].text) == low
    requires i + |needle| <= |low| && forall c | 0 <= c < |needle| :: low[i + c] == needle[c]
    ensures Matches(u, needle)
  {
    OccursAtChars(low, needle, i);
  }

  /** A text without one of the needle's characters does not contain it. */
  lemma LacksChar(hay: string, needle: string, k: nat)
    requires k < |needle| && needle[k] !in hay
    ensures !Contains(hay, needle)
  {
    forall i | 0 <= i <= |hay| ensures !OccursAt(hay, needle, i) {
      if i + |needle| <= |hay| {
        assert hay[i..i + |needle|][k] == hay[i + k];
      }
    }
  }

  /** Lower-casing keeps out an `x` the text does not hold in either case. */
  lemma LowerNoX(t: string)
    requires 'x' !in t && 'X' !in t
    ensures 'x' !in Lower(t)
  {
    forall i | 0 <= i < |t| ensures Lower(t)[i] != 'x' {
      assert t[i] != 'x' && t[i] != 'X';
    }
  }

  lemma AnnMatchesAx()
    ensures Matches(Ann, "ax")
  {
    LowerWord("AX", "ax");
    MatchesAt(Ann, "Alias", "ax", "ax", 0);
  }

  /** None of Joanne's cells, her `_row` label included, holds an `x`. */
  lemma JoanneMissesAx()
    ensures !Matches(Joanne, "ax")
  {
    assert forall k | k in Joanne :: k == "User" || k == "Alias" || k == RowHeader;
    assert Joanne["User"] == Str("Joanne") && Joanne["Alias"] == Str("") && Joanne[RowHeader] == Str("Users:2");
    forall k | k in Joanne && Joanne[k].Str? ensures !Contains(Lower(Joanne[k].text), "ax") {
      var t := Joanne[k].text;
      assert t == "Joanne" || t == "" || t == "Users:2";
      LowerNoX(t);
      LacksChar(Lower(t), "ax", 1);
    }
  }

  lemma AliasFindsAnn()
    ensures FindUser(Pair2, "AX") == Success(Some(Ann))
  {
    LowerWord("AX", "ax");
    NeedleOf("AX", "ax");
    AnnMatchesAx();
    JoanneMissesAx();
    FoundFirstOfTwo(Ann, Joanne, "AX");
  }

  /** Of two users, the one matching a query is what `find_user` returns. */
  lemma FoundFirstOfTwo(a: Record, b: Record, username: string)
    requires Matches(a, Needle(username)) && !Matches(b, Needle(username))
    ensures FindUser([a, b], username) == Success(Some(a))
  {
    var users := [a, b];
    var needle := Needle(username);
    var r := FindUser(users, username);
    assert !TwoMatches(users, needle);
    assert Matches(users[0], needle);
    assert r.Success? && r.value.Some?;
    var m :| 0 <= m < |users| && users[m] == r.value.value && Matches(users[m], needle)
      && forall j | 0 <= j < |users| && j != m :: !Matches(users[j], needle);
    assert m == 0;
  }

  /** Looking up `Ann` matches both users and reports both row labels. */
  lemma IdFindsBoth()
    ensures TwoMatches(Pair2, Needle("Ann"))
    ensures FindUser(Pair2, "Ann") ==
      Failure(AmbiguousUser("Ann", [Some(Str("Users:1")), Some(Str("Users:2"))]))
  {
    NeedleOf("Ann", "ann");
    BothContainAnn();
    assert Get(Ann, RowHeader) == Some(Str("Users:1"));
    assert Get(Joanne, RowHeader) == Some(Str("Users:2"));
    TwoOfTwo(Ann, Joanne, "Ann");
  }

  /** `ann` is Ann's id and part of Joanne's. */
  lemma BothContainAnn()
    ensures Lower("Ann") == "ann"
    ensures Matches(Ann, "ann") && Matches(Joanne, "ann")
  {
    LowerWord("Ann", "ann");
    assert Ann["User"] == Str("Ann");
    MatchesAt(Ann, "User", "ann", "ann", 0);
    JoanneContainsAnn();
  }

  lemma JoanneContainsAnn()
    ensures Matches(Joanne, "ann")
  {
    LowerWord("Joanne", "joanne");
    assert Joanne["User"] == Str("Joanne");
    MatchesAt(Joanne, "User", "joanne", "ann", 2);
  }

  /** When both of two users match, `find_user` raises with both labels. */
  lemma TwoOfTwo(a: Record, b: Record, username: string)
    requires Matches(a, Needle(username)) && Matches(b, Needle(username))
    ensures TwoMatches([a, b], Needle(username))
    ensures FindUser([a, b], username) ==
      Failure(AmbiguousUser(username, [Get(a, RowHeader), Get(b, RowHeader)]))
  {
    var users := [a, b];
    var needle := Needle(username);
    assert users[0] == a && users[1] == b;
    assert users[1..] == [b] && users[1..][1..] == [];
    assert Candidates(users, needle) == [a, b];
    assert RowLabels([a, b]) == [Get(a, RowHeader), Get(b, RowHeader)];
  }

  lemma StepByAlias()
    ensures Step(Pair2, "User", "Id", ByAlias) == Success([Pair(Some(Str("Ann")), Ann, ByAlias)])
  {
    var p := Pair(Some(Str("Ann")), Ann, ByAlias);
    assert Resolve(Pair2, "User", "Id", ByAlias, "AX") == Success(p) by {
      AliasFindsAnn();
    }
    AliasToken();
    StepOfOne(Pair2, "User", "Id", ByAlias, "AX", p);
  }

  lemma AliasToken()
    ensures Assignees(ByAlias, "User") == Success(["AX"])
  {
    assert Split("AX", '/') == ["AX"];
  }

  /** An action with one assignee token that resolves to `p` files one pair. */
  lemma StepOfOne(users: seq<Record>, hdrUser: string, hdrId: string, action: Record, token: string, p: Pair)
    requires Assignees(action, hdrUser) == Success([token])
    requires Resolve(users, hdrUser, hdrId, action, token) == Success(p)
    ensures Step(users, hdrUser, hdrId, action) == Success([p])
  {
    var rs := Resolutions(users, hdrUser, hdrId, action, [token]);
    assert rs == [Success(p)];
    SequenceSingle(rs[0]);
  }

  lemma AssignByAlias()
    ensures Assign(Pair2, "User", "Id", [ByAlias]) == Success([Pair(Some(Str("Ann")), Ann, ByAlias)])
  {
    StepByAlias();
    AssignOne(Pair2, "User", "Id", ByAlias, [Pair(Some(Str("Ann")), Ann, ByAlias)]);
  }

  /** The pass over a single action gives that action's pairs. */
  lemma AssignOne(users: seq<Record>, hdrUser: string, hdrId: string, action: Record, ps: seq<Pair>)
    requires Step(users, hdrUser, hdrId, action) == Success(ps)
    ensures Assign(users, hdrUser, hdrId, [action]) == Success(ps)
  {
    var steps := Steps(users, hdrUser, hdrId, [action]);
    assert |steps| == 1 && steps[0] == Success(ps);
    assert steps == [steps[0]];
    SequenceSingle(steps[0]);
    var none: seq<seq<Pair>> := [];
    FlattenSnoc(none, ps);
    assert none + [ps] == [ps];
    assert Flatten([ps]) == ps;
  }

  /** The one token resolves to Ann alone, but looking her up a second time
      by her id `Ann` also matches `Joanne`, so the source raises
      `AmbiguousUser`; keeping the user gives the expected single group. */
  lemma SecondLookupAmbiguous()
    ensures Assign(Pair2, "User", "Id", [ByAlias]).Success?
    ensures Correlation(Pair2, "User", "Id", [ByAlias]) ==
      Failure(Ambiguous(AmbiguousUser("Ann", [Some(Str("Users:1")), Some(Str("Users:2"))])))
    ensures CorrelationKept(Pair2, "User", "Id", [ByAlias]) == Success([Group(Some(Ann), [ByAlias])])
  {
    AssignByAlias();
    var p := Pair(Some(Str("Ann")), Ann, ByAlias);
    IdFindsBoth();
    AmbiguousSecond(Pair2, "User", "Id", [ByAlias], p);
    KeptOne(Pair2, "User", "Id", [ByAlias], p);
  }

  /** The dictionary built from one pair. */
  lemma OnePair(p: Pair)
    ensures Keys([p]) == [p.key]
    ensures Gather([p]) == [Entry(p.key, [p.action])]
    ensures FirstAt([p], p.key) == 0
  {
    assert [p][..0] == [];
    assert Collect([p], p.key) == [p.action];
  }

  /** When all tokens resolve to one pair whose id matches two users, the
      second lookup raises `AmbiguousUser`. */
  lemma AmbiguousSecond(users: seq<Record>, hdrUser: string, hdrId: string, actions: seq<Record>, p: Pair)
    requires Assign(users, hdrUser, hdrId, actions) == Success([p])
    requires p.key.Some? && p.key.value.Str? && TwoMatches(users, Needle(p.key.value.text))
    ensures Correlation(users, hdrUser, hdrId, actions) ==
      Failure(Ambiguous(FindUser(users, p.key.value.text).error))
  {
    OnePair(p);
    var es := Gather([p]);
    var r := Materialize(users, es);
    assert Correlation(users, hdrUser, hdrId, actions) == r;
    assert Regroup(users, es[0]) == Failure(Ambiguous(FindUser(users, p.key.value.text).error));
  }

  /** Keeping the users, one pair gives one group holding its user. */
  lemma KeptOne(users: seq<Record>, hdrUser: string, hdrId: string, actions: seq<Record>, p: Pair)
    requires Assign(users, hdrUser, hdrId, actions) == Success([p])
    ensures CorrelationKept(users, hdrUser, hdrId, actions) == Success([Group(Some(p.user), [p.action])])
  {
    OnePair(p);
    var ps := [p];
    assert ps[..0] == [];
    assert Collect(ps, p.key) == [p.action];
    assert FirstUser(ps, p.key) == p.user;
    var keys := Keys(ps);
    var g := Group(Some(FirstUser(ps, keys[0])), Collect(ps, keys[0]));
    assert g == Group(Some(p.user), [p.action]);
    var kept := seq(|keys|, i requires 0 <= i < |keys| => Group(Some(FirstUser(ps, keys[i])), Collect(ps, keys[i])));
    assert kept == [g];
  }
}
