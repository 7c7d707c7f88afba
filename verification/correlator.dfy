/** The correlator, `Reminders.correlate` (reminders.py:269-289): every action
    is filed under each user its `/`-separated assignee tokens resolve to,
    grouped by the resolved user's user-id field in order of first appearance,
    and each group's key is finally resolved back to a user. */
module Correlator {
  import opened Results
  import opened Strings
  import opened Records
  import opened Resolver

  /** A grouping key: the resolved user's `user.get(hdr_user)`. */
  type Key = Option<Value>

  /** One step of the grouping loop: the key, the user it came from, and the action. */
  datatype Pair = Pair(key: Key, user: Record, action: Record)

  /** An entry of the internal `uname_actions` dictionary. */
  datatype Entry = Entry(key: Key, actions: seq<Record>)

  /** An element of the result: `(find_user(users, uname), uact)`. */
  datatype Group = Group(user: Option<Record>, actions: seq<Record>)

  /** What `correlate` raises: an `AmbiguousUser` from `find_user`, the
      `MissingUser` exception, or the `AttributeError` Python raises when the
      assignee or a user-id key is not a string (so has no `split`/`lower`). */
  datatype CorrelateError =
    | Ambiguous(error: AmbiguousUser)
    | MissingUser(name: string, record: Key, row: Key)
    | AssigneeNotText(assignee: Key)
    | UserIdNotText(key: Key)

  // ---------------------------------------------------------------------
  // the assignment pass

  /** `action.get(hdr_user).split('/')` */
  function Assignees(action: Record, hdrUser: string): (r: Result<seq<string>, CorrelateError>)
    ensures r.Success? <==> hdrUser in action && action[hdrUser].Str?
    ensures r.Success? ==> JoinWith("/", r.value) == action[hdrUser].text
    ensures r.Failure? ==> r.error == AssigneeNotText(Get(action, hdrUser))
  {
    match Get(action, hdrUser)
    case Some(Str(t)) => Success(Split(t, '/'))
    case v => Failure(AssigneeNotText(v))
  }

  /** Resolving one token (reminders.py:280-283). */
  function Resolve(users: seq<Record>, hdrUser: string, hdrId: string, action: Record, token: string)
    : (r: Result<Pair, CorrelateError>)
    ensures r.Success? ==>
      && r.value.action == action
      && r.value.user in users
      && r.value.key == Get(r.value.user, hdrUser)
  {
    match FindUser(users, token)
    case Failure(e) => Failure(Ambiguous(e))
    case Success(None) => Failure(MissingUser(token, Get(action, hdrId), Get(action, RowHeader)))
    case Success(Some(u)) => Success(Pair(Get(u, hdrUser), u, action))
  }

  /** A token resolves to the one user matching it; it is reported missing
      (with the action's id and row) exactly when nobody matches, and
      ambiguous exactly when two users do. */
  lemma ResolveOutcome(users: seq<Record>, hdrUser: string, hdrId: string, action: Record, token: string)
    ensures var r := Resolve(users, hdrUser, hdrId, action, token);
      && (r.Success? ==> OnlyMatch(users, Needle(token), r.value.user))
      && (var missing := Failure(MissingUser(token, Get(action, hdrId), Get(action, RowHeader)));
          r == missing <==> forall i | 0 <= i < |users| :: !Matches(users[i], Needle(token)))
      && (r.Failure? && r.error.Ambiguous? <==> TwoMatches(users, Needle(token)))
      && (r.Failure? ==> r.error.Ambiguous? || r.error.MissingUser?)
  {
  }

  /** The resolution of each token of one action, in token order. */
  function Resolutions(users: seq<Record>, hdrUser: string, hdrId: string, action: Record, tokens: seq<string>)
    : (r: seq<Result<Pair, CorrelateError>>)
    ensures |r| == |tokens|
    ensures forall t | 0 <= t < |tokens| :: r[t] == Resolve(users, hdrUser, hdrId, action, tokens[t])
  {
    seq(|tokens|, t requires 0 <= t < |tokens| => Resolve(users, hdrUser, hdrId, action, tokens[t]))
  }

  /** Everything the outer loop does with one action: split the assignee,
      then resolve the tokens in order, stopping at the first failure. */
  function Step(users: seq<Record>, hdrUser: string, hdrId: string, action: Record)
    : Result<seq<Pair>, CorrelateError>
  {
    var tokens :- Assignees(action, hdrUser);
    Sequence(Resolutions(users, hdrUser, hdrId, action, tokens))
  }

  /** Every pair of a step files that step's action under a user of the
      list, keyed by that user's id field, one pair per assignee token. */
  lemma StepPairs(users: seq<Record>, hdrUser: string, hdrId: string, action: Record)
    requires Step(users, hdrUser, hdrId, action).Success?
    ensures |Step(users, hdrUser, hdrId, action).value| == |Assignees(action, hdrUser).value|
    ensures forall p | p in Step(users, hdrUser, hdrId, action).value ::
      p.action == action && p.user in users && p.key == Get(p.user, hdrUser)
  {
    var tokens := Assignees(action, hdrUser).value;
    var rs := Resolutions(users, hdrUser, hdrId, action, tokens);
    var more := Step(users, hdrUser, hdrId, action).value;
    SequenceSpec(rs);
    forall p | p in more ensures p.action == action && p.user in users && p.key == Get(p.user, hdrUser) {
      var t :| 0 <= t < |more| && more[t] == p;
      assert rs[t] == Success(p);
    }
  }

  function Steps(users: seq<Record>, hdrUser: string, hdrId: string, actions: seq<Record>)
    : (r: seq<Result<seq<Pair>, CorrelateError>>)
    ensures |r| == |actions|
    ensures forall i | 0 <= i < |actions| :: r[i] == Step(users, hdrUser, hdrId, actions[i])
  {
    seq(|actions|, i requires 0 <= i < |actions| => Step(users, hdrUser, hdrId, actions[i]))
  }

  function Flatten(parts: seq<seq<Pair>>): (r: seq<Pair>)
    ensures forall p | p in r :: exists i | 0 <= i < |parts| :: p in parts[i]
  {
    if |parts| == 0 then []
    else Flatten(parts[..|parts| - 1]) + parts[|parts| - 1]
  }

  lemma FlattenSnoc(parts: seq<seq<Pair>>, more: seq<Pair>)
    ensures Flatten(parts + [more]) == Flatten(parts) + more
  {
    assert (parts + [more])[..|parts|] == parts;
  }

  /** The assignment pass over all actions: the pairs of every action in
      action order, or the error of the first step that fails. */
  function Assign(users: seq<Record>, hdrUser: string, hdrId: string, actions: seq<Record>)
    : Result<seq<Pair>, CorrelateError>
  {
    var parts :- Sequence(Steps(users, hdrUser, hdrId, actions));
    Success(Flatten(parts))
  }

  /** Every pair of a successful pass holds an action of the input and a
      user of the list, keyed by that user's id field. */
  lemma AssignPairs(users: seq<Record>, hdrUser: string, hdrId: string, actions: seq<Record>)
    requires Assign(users, hdrUser, hdrId, actions).Success?
    ensures forall p | p in Assign(users, hdrUser, hdrId, actions).value ::
      p.action in actions && p.user in users && p.key == Get(p.user, hdrUser)
  {
    var steps := Steps(users, hdrUser, hdrId, actions);
    var parts := Sequence(steps).value;
    SequenceSpec(steps);
    forall p | p in Flatten(parts)
      ensures p.action in actions && p.user in users && p.key == Get(p.user, hdrUser)
    {
      var i :| 0 <= i < |parts| && p in parts[i];
      assert steps[i] == Success(parts[i]);
      StepPairs(users, hdrUser, hdrId, actions[i]);
    }
  }

  /** Fail-fast: `correlate` fails exactly when some action's step fails,
      with the error of the first such step, and then returns no grouping. */
  lemma AssignFailFast(users: seq<Record>, hdrUser: string, hdrId: string, actions: seq<Record>)
    ensures var r := Assign(users, hdrUser, hdrId, actions);
      && (r.Failure? <==> exists i | 0 <= i < |actions| :: Step(users, hdrUser, hdrId, actions[i]).Failure?)
      && (r.Failure? ==>
            && Correlation(users, hdrUser, hdrId, actions) == Failure(r.error)
            && exists i | 0 <= i < |actions| ::
                 && Step(users, hdrUser, hdrId, actions[i]) == Failure(r.error)
                 && forall h | 0 <= h < i :: Step(users, hdrUser, hdrId, actions[h]).Success?)
  {
    var steps := Steps(users, hdrUser, hdrId, actions);
    SequenceSpec(steps);
    if Sequence(steps).Failure? {
      var i :| 0 <= i < |steps| && steps[i] == Failure(Sequence(steps).error)
        && forall h | 0 <= h < i :: steps[h].Success?;
      assert Step(users, hdrUser, hdrId, actions[i]) == steps[i];
    } else {
      assert forall i | 0 <= i < |actions| :: steps[i].Success?;
    }
  }

  // ---------------------------------------------------------------------
  // the grouping dictionary

  /** The keys of `ps`, each once, in order of first appearance. */
  function Keys(ps: seq<Pair>): (r: seq<Key>)
    ensures forall i, j | 0 <= i < j < |r| :: r[i] != r[j]
    ensures forall k :: k in r <==> exists p | p in ps :: p.key == k
  {
    if |ps| == 0 then []
    else
      var n := |ps| - 1;
      assert forall p :: p in ps <==> p in ps[..n] || p == ps[n];
      var init := Keys(ps[..n]);
      if ps[n].key in init then init else init + [ps[n].key]
  }

  /** The actions filed under `k`, in the order of their pairs. */
  function Collect(ps: seq<Pair>, k: Key): (r: seq<Record>)
    ensures |r| <= |ps|
    ensures r != [] ==> exists p | p in ps :: p.key == k
  {
    if |ps| == 0 then []
    else
      var n := |ps| - 1;
      var init := Collect(ps[..n], k);
      if ps[n].key == k then init + [ps[n].action] else init
  }

  /** The dictionary `uname_actions` after the pairs `ps` were filed. */
  function Gather(ps: seq<Pair>): (r: seq<Entry>)
    ensures |r| == |Keys(ps)|
    ensures forall i | 0 <= i < |r| :: r[i].key == Keys(ps)[i]
  {
    var keys := Keys(ps);
    seq(|keys|, i requires 0 <= i < |keys| => Entry(keys[i], Collect(ps, keys[i])))
  }

  /** The position of `k` in the dictionary, or its size when absent. */
  function Find(acc: seq<Entry>, k: Key): (j: nat)
    ensures j <= |acc|
    ensures j < |acc| ==> acc[j].key == k
    ensures forall i | 0 <= i < j :: acc[i].key != k
  {
    if |acc| == 0 then 0
    else if acc[0].key == k then 0
    else 1 + Find(acc[1..], k)
  }

  /** `uact = uname_actions.get(uname, []); uact.append(action);
      uname_actions.update({uname: uact})`: appends to an existing entry in
      place, or adds a new entry at the end. */
  function Add(acc: seq<Entry>, k: Key, a: Record): (r: seq<Entry>)
    ensures |acc| <= |r| <= |acc| + 1
  {
    var j := Find(acc, k);
    if j < |acc| then acc[j := Entry(k, acc[j].actions + [a])] else acc + [Entry(k, [a])]
  }

  lemma CollectSnoc(ps: seq<Pair>, p: Pair, k: Key)
    ensures Collect(ps + [p], k) == Collect(ps, k) + (if p.key == k then [p.action] else [])
  {
    assert (ps + [p])[..|ps|] == ps;
  }

  /** Filing one more pair into the dictionary built from `ps` gives the
      dictionary built from `ps + [p]`: the loop's update is the grouping. */
  lemma GatherSnoc(ps: seq<Pair>, p: Pair)
    ensures Gather(ps + [p]) == Add(Gather(ps), p.key, p.action)
  {
    var keys := Keys(ps);
    var g := Gather(ps);
    var j := Find(g, p.key);
    if p.key in keys {
      var m :| 0 <= m < |keys| && keys[m] == p.key;
      assert j == m;
      GatherOld(ps, p, m);
    } else {
      assert forall i | 0 <= i < |g| :: g[i].key != p.key;
      GatherNew(ps, p);
    }
  }

  lemma GatherOld(ps: seq<Pair>, p: Pair, m: nat)
    requires m < |Keys(ps)| && Keys(ps)[m] == p.key
    ensures Gather(ps + [p]) == Gather(ps)[m := Entry(p.key, Gather(ps)[m].actions + [p.action])]
  {
    var qs := ps + [p];
    assert qs[..|ps|] == ps;
    var keys := Keys(ps);
    assert Keys(qs) == keys;
    var lhs := Gather(qs);
    var rhs := Gather(ps)[m := Entry(p.key, Gather(ps)[m].actions + [p.action])];
    forall i | 0 <= i < |keys| ensures lhs[i] == rhs[i] {
      CollectSnoc(ps, p, keys[i]);
    }
  }

  lemma GatherNew(ps: seq<Pair>, p: Pair)
    requires p.key !in Keys(ps)
    ensures Gather(ps + [p]) == Gather(ps) + [Entry(p.key, [p.action])]
  {
    var qs := ps + [p];
    assert qs[..|ps|] == ps;
    var keys := Keys(ps);
    assert Keys(qs) == keys + [p.key];
    var lhs := Gather(qs);
    var rhs := Gather(ps) + [Entry(p.key, [p.action])];
    forall i | 0 <= i < |keys| + 1 ensures lhs[i] == rhs[i] {
      if i < |keys| {
        CollectSnoc(ps, p, keys[i]);
      } else {
        CollectSnoc(ps, p, p.key);
        assert Collect(ps, p.key) == [];
      }
    }
  }

  // ---------------------------------------------------------------------
  // the final re-resolution

  /** `(self.find_user(users, uname), uact)` for one dictionary entry. */
  function Regroup(users: seq<Record>, e: Entry): (r: Result<Group, CorrelateError>)
    ensures r.Success? <==>
      e.key.Some? && e.key.value.Str? && !TwoMatches(users, Needle(e.key.value.text))
    ensures r.Success? ==> r.value.actions == e.actions
    ensures r.Success? && r.value.user.Some? ==>
      OnlyMatch(users, Needle(e.key.value.text), r.value.user.value)
    ensures r.Success? ==>
      (r.value.user.Some? <==> exists i | 0 <= i < |users| :: Matches(users[i], Needle(e.key.value.text)))
    ensures r.Failure? && e.key.Some? && e.key.value.Str? ==>
      var name := e.key.value.text;
      r.error == Ambiguous(AmbiguousUser(name, RowLabels(Candidates(users, Needle(name)))))
    ensures r.Failure? && !(e.key.Some? && e.key.value.Str?) ==> r.error == UserIdNotText(e.key)
  {
    match e.key
    case Some(Str(name)) =>
      (match FindUser(users, name)
       case Failure(err) => Failure(Ambiguous(err))
       case Success(u) => Success(Group(u, e.actions)))
    case _ => Failure(UserIdNotText(e.key))
  }

  function Regroups(users: seq<Record>, entries: seq<Entry>): (rs: seq<Result<Group, CorrelateError>>)
    ensures |rs| == |entries|
    ensures forall i | 0 <= i < |entries| :: rs[i] == Regroup(users, entries[i])
  {
    seq(|entries|, i requires 0 <= i < |entries| => Regroup(users, entries[i]))
  }

  /** The list comprehension over the dictionary, left to right. */
  function Materialize(users: seq<Record>, entries: seq<Entry>): (r: Result<seq<Group>, CorrelateError>)
    ensures r.Success? <==> forall i | 0 <= i < |entries| :: Regroup(users, entries[i]).Success?
    ensures r.Success? ==>
      && |r.value| == |entries|
      && forall i | 0 <= i < |entries| :: Regroup(users, entries[i]) == Success(r.value[i])
    ensures r.Failure? ==>
      exists i | 0 <= i < |entries| ::
        && Regroup(users, entries[i]) == Failure(r.error)
        && forall h | 0 <= h < i :: Regroup(users, entries[h]).Success?
  {
    var rs := Regroups(users, entries);
    SequenceSpec(rs);
    Sequence(rs)
  }

  /** `correlate(users, actions)` as a whole: the first error of the
      assignment pass, or else one group per key in order of first
      appearance, which the second lookup can build exactly when every key
      is text naming at most one user. */
  function Correlation(users: seq<Record>, hdrUser: string, hdrId: string, actions: seq<Record>)
    : (r: Result<seq<Group>, CorrelateError>)
    ensures var a := Assign(users, hdrUser, hdrId, actions);
      a.Failure? ==> r == Failure(a.error)
    ensures var a := Assign(users, hdrUser, hdrId, actions);
      r.Success? <==> a.Success? && forall k | k in Keys(a.value) ::
        k.Some? && k.value.Str? && !TwoMatches(users, Needle(k.value.text))
    ensures var a := Assign(users, hdrUser, hdrId, actions);
      r.Success? ==>
        && |r.value| == |Keys(a.value)|
        && forall i | 0 <= i < |r.value| :: r.value[i].actions == Collect(a.value, Keys(a.value)[i])
    ensures var a := Assign(users, hdrUser, hdrId, actions);
      a.Success? && r.Failure? ==>
        var es := Gather(a.value);
        exists i | 0 <= i < |es| ::
          && Regroup(users, es[i]) == Failure(r.error)
          && forall h | 0 <= h < i :: Regroup(users, es[h]).Success?
  {
    var ps :- Assign(users, hdrUser, hdrId, actions);
    GatherGroups(users, ps);
    Materialize(users, Gather(ps))
  }

  /** The second lookup over the gathered entries, in terms of the keys. */
  lemma GatherGroups(users: seq<Record>, ps: seq<Pair>)
    ensures var r := Materialize(users, Gather(ps));
      r.Success? <==> forall k | k in Keys(ps) ::
        k.Some? && k.value.Str? && !TwoMatches(users, Needle(k.value.text))
    ensures var r := Materialize(users, Gather(ps));
      r.Success? ==>
        && |r.value| == |Keys(ps)|
        && forall i | 0 <= i < |r.value| :: r.value[i].actions == Collect(ps, Keys(ps)[i])
  {
    var es := Gather(ps);
    assert forall i | 0 <= i < |es| :: es[i] == Entry(Keys(ps)[i], Collect(ps, Keys(ps)[i]));
    assert forall k | k in Keys(ps) :: exists i | 0 <= i < |es| :: es[i].key == k;
  }

  /** The outer loop's body for one action: split its assignee and file it
      under the key of every token in turn, stopping at the first token that
      does not resolve. */
  method FileAction(users: seq<Record>, hdrUser: string, hdrId: string, action: Record,
                    acc: seq<Entry>, ghost done: seq<Pair>)
    returns (r: Result<seq<Entry>, CorrelateError>)
    requires acc == Gather(done)
    ensures r.Success? <==> Step(users, hdrUser, hdrId, action).Success?
    ensures r.Success? ==> r.value == Gather(done + Step(users, hdrUser, hdrId, action).value)
    ensures r.Failure? ==> Step(users, hdrUser, hdrId, action) == Failure(r.error)
  {
    var names := Assignees(action, hdrUser);
    if names.Failure? {
      return Failure(names.error);
    }
    r := FileTokens(users, hdrUser, hdrId, action, names.value, acc, done);
  }

  /** The inner loop: file the action under the key of each token, stopping
      at the first token that does not resolve. */
  method FileTokens(users: seq<Record>, hdrUser: string, hdrId: string, action: Record,
                    tokens: seq<string>, acc: seq<Entry>, ghost done: seq<Pair>)
    returns (r: Result<seq<Entry>, CorrelateError>)
    requires acc == Gather(done)
    ensures var all := Sequence(Resolutions(users, hdrUser, hdrId, action, tokens));
      && (r.Success? <==> all.Success?)
      && (r.Success? ==> r.value == Gather(done + all.value))
      && (r.Failure? ==> all == Failure(r.error))
  {
    ghost var rs := Resolutions(users, hdrUser, hdrId, action, tokens);
    ghost var more: seq<Pair> := [];
    var entries := acc;
    assert done + more == done;
    for t := 0 to |tokens|
      invariant Sequence(rs[..t]) == Success(more)
      invariant entries == Gather(done + more)
    {
      SequenceStep(rs, t);
      var res := Resolve(users, hdrUser, hdrId, action, tokens[t]);
      if res.Failure? {
        SequencePrefix(rs, t + 1);
        return Failure(res.error);
      }
      var p := res.value;
      GatherSnoc(done + more, p);
      assert done + (more + [p]) == (done + more) + [p];
      entries := Add(entries, p.key, p.action);
      more := more + [p];
    }
    SequenceWhole(rs);
    return Success(entries);
  }

  /** The source's loops: the dictionary is updated in place one token at a
      time, and the first failing token ends the call with its error. */
  method Correlate(users: seq<Record>, hdrUser: string, hdrId: string, actions: seq<Record>)
    returns (r: Result<seq<Group>, CorrelateError>)
    ensures r == Correlation(users, hdrUser, hdrId, actions)
  {
    ghost var steps := Steps(users, hdrUser, hdrId, actions);
    var acc: seq<Entry> := [];
    ghost var parts: seq<seq<Pair>> := [];
    for i := 0 to |actions|
      invariant Sequence(steps[..i]) == Success(parts)
      invariant acc == Gather(Flatten(parts))
    {
      SequenceStep(steps, i);
      var filed := FileAction(users, hdrUser, hdrId, actions[i], acc, Flatten(parts));
      if filed.Failure? {
        SequencePrefix(steps, i + 1);
        CorrelationUnfold(users, hdrUser, hdrId, actions);
        return Failure(filed.error);
      }
      FlattenSnoc(parts, steps[i].value);
      acc := filed.value;
      parts := parts + [steps[i].value];
    }
    SequenceWhole(steps);
    CorrelationUnfold(users, hdrUser, hdrId, actions);
    r := Materialize(users, acc);
  }

  lemma CorrelationUnfold(users: seq<Record>, hdrUser: string, hdrId: string, actions: seq<Record>)
    ensures var steps := Sequence(Steps(users, hdrUser, hdrId, actions));
      Correlation(users, hdrUser, hdrId, actions) ==
        if steps.Failure? then Failure(steps.error)
        else Materialize(users, Gather(Flatten(steps.value)))
  {
  }

  // ---------------------------------------------------------------------
  // properties of the grouping

  /** The position of the first pair filed under `k`, or `|ps|` if none is. */
  function FirstAt(ps: seq<Pair>, k: Key): (f: nat)
    ensures f <= |ps|
    ensures f < |ps| ==> ps[f].key == k
    ensures forall l | 0 <= l < f :: ps[l].key != k
  {
    if |ps| == 0 then 0
    else
      var n := |ps| - 1;
      var f := FirstAt(ps[..n], k);
      assert forall l | 0 <= l < n :: ps[..n][l] == ps[l];
      if f < n then f else if ps[n].key == k then n else |ps|
  }

  lemma FirstAtSnoc(ps: seq<Pair>, p: Pair, k: Key)
    ensures FirstAt(ps + [p], k) ==
      if FirstAt(ps, k) < |ps| then FirstAt(ps, k) else if p.key == k then |ps| else |ps| + 1
  {
    assert (ps + [p])[..|ps|] == ps;
  }

  lemma KeysSnoc(ps: seq<Pair>, p: Pair)
    ensures Keys(ps + [p]) == if p.key in Keys(ps) then Keys(ps) else Keys(ps) + [p.key]
  {
    assert (ps + [p])[..|ps|] == ps;
  }

  /** A key has an entry exactly when some pair carries it. */
  lemma FirstAtKnown(ps: seq<Pair>, k: Key)
    ensures k in Keys(ps) <==> FirstAt(ps, k) < |ps|
  {
    if k in Keys(ps) {
      var p :| p in ps && p.key == k;
      var m :| 0 <= m < |ps| && ps[m] == p;
    }
  }

  /** Groups come in the order their key is first met among the pairs. */
  lemma {:induction false} KeysFirstSeen(ps: seq<Pair>)
    ensures forall i | 0 <= i < |Keys(ps)| :: FirstAt(ps, Keys(ps)[i]) < |ps|
    ensures forall i, j | 0 <= i < j < |Keys(ps)| :: FirstAt(ps, Keys(ps)[i]) < FirstAt(ps, Keys(ps)[j])
  {
    if |ps| > 0 {
      var n := |ps| - 1;
      var init := ps[..n];
      var last := ps[n];
      assert ps == init + [last];
      KeysFirstSeen(init);
      KeysSnoc(init, last);
      var known := Keys(init);
      forall i | 0 <= i < |known| ensures FirstAt(ps, known[i]) == FirstAt(init, known[i]) {
        FirstAtSnoc(init, last, known[i]);
      }
      if last.key !in known {
        FirstAtKnown(init, last.key);
        FirstAtSnoc(init, last, last.key);
      }
    }
  }

  /** An action is filed under `k` exactly when one of its pairs has that key. */
  lemma {:induction false} CollectMembers(ps: seq<Pair>, k: Key)
    ensures forall a :: a in Collect(ps, k) <==> exists i | 0 <= i < |ps| :: ps[i].key == k && ps[i].action == a
  {
    if |ps| > 0 {
      var n := |ps| - 1;
      CollectMembers(ps[..n], k);
      assert forall i | 0 <= i < n :: ps[..n][i] == ps[i];
    }
  }

  /** Every pair ends up in the dictionary: its key has an entry whose
      actions include the pair's action. */
  lemma PairsFiled(ps: seq<Pair>)
    ensures forall p | p in ps :: exists i | 0 <= i < |Gather(ps)| ::
      Gather(ps)[i].key == p.key && p.action in Gather(ps)[i].actions
  {
    var g := Gather(ps);
    forall p | p in ps
      ensures exists i | 0 <= i < |g| :: g[i].key == p.key && p.action in g[i].actions
    {
      var keys := Keys(ps);
      assert p.key in keys;
      var i :| 0 <= i < |keys| && keys[i] == p.key;
      CollectMembers(ps, p.key);
      var m :| 0 <= m < |ps| && ps[m] == p;
      assert p.action in g[i].actions;
    }
  }

  /** The number of actions filed across all entries. */
  function Total(es: seq<Entry>): nat {
    if |es| == 0 then 0 else Total(es[..|es| - 1]) + |es[|es| - 1].actions|
  }

  lemma {:induction false} TotalUpdate(es: seq<Entry>, j: nat, e: Entry)
    requires j < |es|
    ensures Total(es[j := e]) + |es[j].actions| == Total(es) + |e.actions|
  {
    var n := |es| - 1;
    if j < n {
      assert es[j := e][..n] == es[..n][j := e];
      TotalUpdate(es[..n], j, e);
    } else {
      assert es[j := e][..n] == es[..n];
    }
  }

  lemma TotalSnoc(es: seq<Entry>, e: Entry)
    ensures Total(es + [e]) == Total(es) + |e.actions|
  {
    assert (es + [e])[..|es|] == es;
  }

  /** Every pair is filed exactly once: the entries hold as many actions as
      there were resolved tokens, so an action reaching one user through two
      tokens is listed twice. */
  lemma {:induction false} GatherTotal(ps: seq<Pair>)
    ensures Total(Gather(ps)) == |ps|
  {
    if |ps| > 0 {
      var n := |ps| - 1;
      var p := ps[n];
      GatherTotal(ps[..n]);
      assert ps == ps[..n] + [p];
      GatherSnoc(ps[..n], p);
      var g := Gather(ps[..n]);
      var j := Find(g, p.key);
      if j < |g| {
        TotalUpdate(g, j, Entry(p.key, g[j].actions + [p.action]));
      } else {
        TotalSnoc(g, Entry(p.key, [p.action]));
      }
    }
  }

  /** When `correlate` succeeds, its groups are the dictionary's entries in
      order, each with a user of the list whose id field is the entry's key. */
  lemma CorrelationGroups(users: seq<Record>, hdrUser: string, hdrId: string, actions: seq<Record>)
    requires Correlation(users, hdrUser, hdrId, actions).Success?
    ensures var es := Gather(Assign(users, hdrUser, hdrId, actions).value);
      var gs := Correlation(users, hdrUser, hdrId, actions).value;
      && |gs| == |es|
      && forall i | 0 <= i < |gs| ::
           && gs[i].actions == es[i].actions
           && gs[i].user.Some?
           && gs[i].user.value in users
           && Get(gs[i].user.value, hdrUser) == es[i].key
  {
    var ps := Assign(users, hdrUser, hdrId, actions).value;
    AssignPairs(users, hdrUser, hdrId, actions);
    var es := Gather(ps);
    var gs := Correlation(users, hdrUser, hdrId, actions).value;
    forall i | 0 <= i < |gs|
      ensures gs[i].user.Some? && gs[i].user.value in users && Get(gs[i].user.value, hdrUser) == es[i].key
    {
      var k := es[i].key;
      assert k in Keys(ps);
      var p :| p in ps && p.key == k;
      assert Regroup(users, es[i]) == Success(gs[i]);
      OwnFieldFindsUser(users, p.user, hdrUser);
    }
  }

  // ---------------------------------------------------------------------
  // the second lookup

  /** The user the assignment pass first filed under `k`. */
  function FirstUser(ps: seq<Pair>, k: Key): Record
    requires FirstAt(ps, k) < |ps|
  {
    ps[FirstAt(ps, k)].user
  }

  /** The grouping with each group's user kept from the assignment pass
      instead of being looked up a second time. */
  function CorrelationKept(users: seq<Record>, hdrUser: string, hdrId: string, actions: seq<Record>)
    : (r: Result<seq<Group>, CorrelateError>)
    ensures r.Success? <==> Assign(users, hdrUser, hdrId, actions).Success?
    ensures r.Success? ==> forall i | 0 <= i < |r.value| ::
      r.value[i].user.Some? && r.value[i].user.value in users
  {
    var ps :- Assign(users, hdrUser, hdrId, actions);
    AssignPairs(users, hdrUser, hdrId, actions);
    KeysFirstSeen(ps);
    var keys := Keys(ps);
    Success(seq(|keys|, i requires 0 <= i < |keys| => Group(Some(FirstUser(ps, keys[i])), Collect(ps, keys[i]))))
  }

  /** Keeping the users, grouping cannot fail once every token resolved:
      each group holds a user of the list whose id field is the group's key. */
  lemma KeptGroups(users: seq<Record>, hdrUser: string, hdrId: string, actions: seq<Record>)
    ensures CorrelationKept(users, hdrUser, hdrId, actions).Success? <==> Assign(users, hdrUser, hdrId, actions).Success?
    ensures CorrelationKept(users, hdrUser, hdrId, actions).Success? ==>
      var es := Gather(Assign(users, hdrUser, hdrId, actions).value);
      var gs := CorrelationKept(users, hdrUser, hdrId, actions).value;
      && |gs| == |es|
      && forall i | 0 <= i < |gs| ::
           && gs[i].actions == es[i].actions
           && gs[i].user.Some?
           && gs[i].user.value in users
           && Get(gs[i].user.value, hdrUser) == es[i].key
  {
    var r := Assign(users, hdrUser, hdrId, actions);
    if r.Success? {
      AssignPairs(users, hdrUser, hdrId, actions);
      KeysFirstSeen(r.value);
    }
  }

  /** Wherever the source's second lookup succeeds it finds the very users
      the assignment pass kept. */
  lemma KeptAgrees(users: seq<Record>, hdrUser: string, hdrId: string, actions: seq<Record>)
    requires Correlation(users, hdrUser, hdrId, actions).Success?
    ensures CorrelationKept(users, hdrUser, hdrId, actions) == Correlation(users, hdrUser, hdrId, actions)
  {
    var ps := Assign(users, hdrUser, hdrId, actions).value;
    AssignPairs(users, hdrUser, hdrId, actions);
    KeysFirstSeen(ps);
    var keys := Keys(ps);
    var es := Gather(ps);
    var gs := Materialize(users, es).value;
    assert Correlation(users, hdrUser, hdrId, actions) == Success(gs);
    var ks := seq(|keys|, i requires 0 <= i < |keys| => Group(Some(FirstUser(ps, keys[i])), Collect(ps, keys[i])));
    assert CorrelationKept(users, hdrUser, hdrId, actions) == Success(ks);
    forall i | 0 <= i < |gs| ensures ks[i] == gs[i] {
      assert Regroup(users, es[i]) == Success(gs[i]);
      RegroupKept(users, hdrUser, ps, i);
    }
    assert |ks| == |gs|;
    assert ks == gs;
  }

  lemma RegroupKept(users: seq<Record>, hdrUser: string, ps: seq<Pair>, i: nat)
    requires forall p | p in ps :: p.user in users && p.key == Get(p.user, hdrUser)
    requires i < |Keys(ps)|
    requires FirstAt(ps, Keys(ps)[i]) < |ps|
    requires Regroup(users, Gather(ps)[i]).Success?
    ensures Regroup(users, Gather(ps)[i]).value == Group(Some(FirstUser(ps, Keys(ps)[i])), Collect(ps, Keys(ps)[i]))
  {
    var k := Keys(ps)[i];
    var w := FirstUser(ps, k);
    assert w in users && Get(w, hdrUser) == k;
    OwnFieldFindsUser(users, w, hdrUser);
  }
}
