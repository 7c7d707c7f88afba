/** The person resolver, `Reminders.find_user` (reminders.py:245-267): a
    case-insensitive substring search over every string-typed field of every
    user record, which reports no match, the one match, or an ambiguity. */
module Resolver {
  import opened Results
  import opened Strings
  import opened Records

  /** The `AmbiguousUser` exception: the query as given and the `_row`
      label of every matching user, in user-list order. */
  datatype AmbiguousUser = AmbiguousUser(query: string, rows: seq<Option<Value>>)

  /** The search text: `username.lower().strip()`. */
  function Needle(username: string): string {
    Strip(Lower(username))
  }

  /** Some string-valued field of `user`, lower-cased, contains `needle`;
      fields holding dates or other objects are skipped. */
  predicate Matches(user: Record, needle: string) {
    exists k | k in user :: user[k].Str? && Contains(Lower(user[k].text), needle)
  }

  /** Exactly one position of `users` matches, and it holds `u`. */
  predicate OnlyMatch(users: seq<Record>, needle: string, u: Record) {
    exists i | 0 <= i < |users| ::
      && users[i] == u
      && Matches(u, needle)
      && forall j | 0 <= j < |users| && j != i :: !Matches(users[j], needle)
  }

  predicate TwoMatches(users: seq<Record>, needle: string) {
    exists i, j | 0 <= i < j < |users| :: Matches(users[i], needle) && Matches(users[j], needle)
  }

  /** The `matches` list: every matching user once, in list order. */
  function Candidates(users: seq<Record>, needle: string): (r: seq<Record>)
    ensures |r| <= |users|
    ensures forall u | u in r :: u in users && Matches(u, needle)
    ensures forall i | 0 <= i < |users| :: Matches(users[i], needle) ==> users[i] in r
  {
    if |users| == 0 then []
    else
      var rest := Candidates(users[1..], needle);
      assert forall i | 1 <= i < |users| :: users[i] == users[1..][i - 1];
      (if Matches(users[0], needle) then [users[0]] else []) + rest
  }

  /** `[_.get(ROW_HEADER) for _ in matches]` */
  function RowLabels(matches: seq<Record>): (r: seq<Option<Value>>)
    ensures |r| == |matches|
    ensures forall i | 0 <= i < |matches| :: r[i] == Get(matches[i], RowHeader)
  {
    seq(|matches|, i requires 0 <= i < |matches| => Get(matches[i], RowHeader))
  }

  /** `find_user(users, username)`: `Success(None)` when nobody matches,
      `Success(Some(u))` when exactly `u` does, and the `AmbiguousUser`
      failure when two or more do; it never picks one of several matches. */
  function FindUser(users: seq<Record>, username: string): (r: Result<Option<Record>, AmbiguousUser>)
    ensures r == Success(None) <==> forall i | 0 <= i < |users| :: !Matches(users[i], Needle(username))
    ensures r.Success? && r.value.Some? ==> OnlyMatch(users, Needle(username), r.value.value)
    ensures r.Failure? <==> TwoMatches(users, Needle(username))
    ensures r.Failure? ==>
      && r.error.query == username
      && r.error.rows == RowLabels(Candidates(users, Needle(username)))
      && |r.error.rows| >= 2
  {
    var needle := Needle(username);
    var matches := Candidates(users, needle);
    CandidatesTwo(users, needle);
    if |matches| == 0 then Success(None)
    else if |matches| > 1 then Failure(AmbiguousUser(username, RowLabels(matches)))
    else
      CandidatesOne(users, needle);
      Success(Some(matches[0]))
  }

  lemma CandidatesTwo(users: seq<Record>, needle: string)
    ensures |Candidates(users, needle)| >= 2 <==> TwoMatches(users, needle)
  {
    if |Candidates(users, needle)| >= 2 {
      CandidatesTwoSound(users, needle);
    }
    if TwoMatches(users, needle) {
      CandidatesTwoComplete(users, needle);
    }
  }

  lemma CandidatesCons(users: seq<Record>, needle: string)
    requires |users| > 0
    ensures Candidates(users, needle) ==
      (if Matches(users[0], needle) then [users[0]] else []) + Candidates(users[1..], needle)
  {
  }

  /** Two candidates come from two matching positions. */
  lemma {:induction false} CandidatesTwoSound(users: seq<Record>, needle: string)
    requires |Candidates(users, needle)| >= 2
    ensures TwoMatches(users, needle)
  {
    CandidatesCons(users, needle);
    if Matches(users[0], needle) {
      FirstAndLater(users, needle);
    } else {
      var tail := users[1..];
      assert Candidates(users, needle) == Candidates(tail, needle);
      CandidatesTwoSound(tail, needle);
      TwoInTail(users, needle);
    }
  }

  lemma TwoInTail(users: seq<Record>, needle: string)
    requires |users| > 0 && TwoMatches(users[1..], needle)
    ensures TwoMatches(users, needle)
  {
    var tail := users[1..];
    var i, j :| 0 <= i < j < |tail| && Matches(tail[i], needle) && Matches(tail[j], needle);
    TwoAt(users, needle, i + 1, j + 1);
  }

  /** A matching head and a later candidate are two matches. */
  lemma FirstAndLater(users: seq<Record>, needle: string)
    requires |users| > 0 && Matches(users[0], needle) && |Candidates(users, needle)| >= 2
    ensures TwoMatches(users, needle)
  {
    var tail := users[1..];
    var rest := Candidates(tail, needle);
    CandidatesCons(users, needle);
    var u := rest[0];
    assert u in rest;
    var j :| 0 <= j < |tail| && tail[j] == u;
    TwoAt(users, needle, 0, j + 1);
  }

  lemma TwoAt(users: seq<Record>, needle: string, i: nat, j: nat)
    requires i < j < |users| && Matches(users[i], needle) && Matches(users[j], needle)
    ensures TwoMatches(users, needle)
  {
  }

  /** Two matching positions give two candidates. */
  lemma {:induction false} CandidatesTwoComplete(users: seq<Record>, needle: string)
    requires TwoMatches(users, needle)
    ensures |Candidates(users, needle)| >= 2
  {
    var tail := users[1..];
    var rest := Candidates(tail, needle);
    CandidatesCons(users, needle);
    var i, j :| 0 <= i < j < |users| && Matches(users[i], needle) && Matches(users[j], needle);
    if i == 0 {
      assert users[j] == tail[j - 1];
      assert users[j] in rest;
    } else {
      assert Matches(tail[i - 1], needle) && Matches(tail[j - 1], needle);
      CandidatesTwoComplete(tail, needle);
    }
  }

  lemma {:induction false} CandidatesOne(users: seq<Record>, needle: string)
    requires |Candidates(users, needle)| == 1
    ensures OnlyMatch(users, needle, Candidates(users, needle)[0])
  {
    var tail := users[1..];
    var rest := Candidates(tail, needle);
    var u := Candidates(users, needle)[0];
    if Matches(users[0], needle) {
      assert |rest| == 0;
      forall j | 1 <= j < |users|
        ensures !Matches(users[j], needle)
      {
        assert users[j] == tail[j - 1];
      }
      assert users[0] == u;
    } else {
      CandidatesOne(tail, needle);
      var i :| 0 <= i < |tail| && tail[i] == u && Matches(u, needle)
        && forall j | 0 <= j < |tail| && j != i :: !Matches(tail[j], needle);
      forall j | 0 <= j < |users| && j != i + 1
        ensures !Matches(users[j], needle)
      {
        if j > 0 {
          assert users[j] == tail[j - 1];
        }
      }
      assert users[i + 1] == u;
    }
  }

  /** Filtering distributes over concatenation: the matches of a longer list
      are the matches of its parts, in order, each user contributing itself
      at most once however many of its fields match. */
  lemma {:induction false} CandidatesAppend(a: seq<Record>, b: seq<Record>, needle: string)
    ensures Candidates(a + b, needle) == Candidates(a, needle) + Candidates(b, needle)
  {
    if |a| > 0 {
      var ab := a + b;
      assert ab[1..] == a[1..] + b && ab[0] == a[0];
      CandidatesAppend(a[1..], b, needle);
      CandidatesCons(ab, needle);
      CandidatesCons(a, needle);
      var head := if Matches(a[0], needle) then [a[0]] else [];
      assert head + (Candidates(a[1..], needle) + Candidates(b, needle)) == (head + Candidates(a[1..], needle)) + Candidates(b, needle);
    } else {
      assert a + b == b;
    }
  }

  /** A user is found by (any case variant of, any whitespace-padded form of)
      the text of one of its own string fields: it never resolves to no one,
      and when the result is a single user it is that user. */
  lemma OwnFieldFindsUser(users: seq<Record>, u: Record, k: string)
    requires u in users && k in u && u[k].Str?
    ensures FindUser(users, u[k].text) != Success(None)
    ensures FindUser(users, u[k].text).Success? ==> FindUser(users, u[k].text).value == Some(u)
  {
    var s := u[k].text;
    var low := Lower(s);
    var needle := Needle(s);
    assert needle == low[StripStart(low)..StripStop(low)];
    assert OccursAt(low, needle, StripStart(low));
    assert Matches(u, needle);
    var i :| 0 <= i < |users| && users[i] == u;
    var r := FindUser(users, s);
    if r.Success? && r.value.Some? {
      var w := r.value.value;
      var m :| 0 <= m < |users| && users[m] == w && Matches(w, needle)
        && forall j | 0 <= j < |users| && j != m :: !Matches(users[j], needle);
      assert i == m;
    }
  }
}
