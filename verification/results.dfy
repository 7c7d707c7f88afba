/** Failure-compatible wrappers: Python's `None` return and raised exceptions
    become explicit values that callers pattern-match on. */
module Results {

  /** A value that may be absent, as returned by `dict.get` or `find_user`. */
  datatype Option<+T> = None | Some(value: T)

  /** Either a value or the error the source would raise instead. */
  datatype Result<+T, +E> = Success(value: T) | Failure(error: E) {

    predicate IsFailure() {
      Failure?
    }

    function PropagateFailure<U>(): Result<U, E>
      requires Failure?
    {
      Failure(error)
    }

    function Extract(): T
      requires Success?
    {
      value
    }
  }

  /** Runs a list of steps left to right: all their values, or the error of
      the first step that fails (the later ones are never looked at). */
  function Sequence<T, E>(rs: seq<Result<T, E>>): Result<seq<T>, E> {
    if |rs| == 0 then Success([])
    else
      var vs :- Sequence(rs[..|rs| - 1]);
      var v :- rs[|rs| - 1];
      Success(vs + [v])
  }

  /** The values line up with the steps when all succeed; otherwise the
      error is the one of the first failing step. */
  lemma {:induction false} SequenceSpec<T, E>(rs: seq<Result<T, E>>)
    ensures var r := Sequence(rs);
      && (r.Success? <==> forall i | 0 <= i < |rs| :: rs[i].Success?)
      && (r.Success? ==> |r.value| == |rs| && forall i | 0 <= i < |rs| :: rs[i] == Success(r.value[i]))
      && (r.Failure? ==>
            exists i | 0 <= i < |rs| ::
              && rs[i] == Failure(r.error)
              && forall h | 0 <= h < i :: rs[h].Success?)
  {
    if |rs| > 0 {
      var n := |rs| - 1;
      var init := rs[..n];
      assert forall i | 0 <= i < n :: init[i] == rs[i];
      SequenceSpec(init);
    }
  }

  /** Adding one more step to a list of steps. */
  lemma SequenceSnoc<T, E>(rs: seq<Result<T, E>>, x: Result<T, E>)
    ensures Sequence(rs + [x]) ==
      if Sequence(rs).Failure? then Sequence(rs)
      else if x.Failure? then Failure(x.error)
      else Success(Sequence(rs).value + [x.value])
  {
    assert (rs + [x])[..|rs|] == rs;
  }

  /** Running one more step of a list, as a loop over it does. */
  lemma SequenceStep<T, E>(rs: seq<Result<T, E>>, n: nat)
    requires n < |rs|
    ensures Sequence(rs[..n + 1]) ==
      if Sequence(rs[..n]).Failure? then Sequence(rs[..n])
      else if rs[n].Failure? then Failure(rs[n].error)
      else Success(Sequence(rs[..n]).value + [rs[n].value])
  {
    assert rs[..n + 1] == rs[..n] + [rs[n]];
    SequenceSnoc(rs[..n], rs[n]);
  }

  lemma SequenceSingle<T, E>(x: Result<T, E>)
    ensures Sequence([x]) == if x.Failure? then Failure(x.error) else Success([x.value])
  {
    var none: seq<Result<T, E>> := [];
    assert [x][..0] == none;
    if x.Success? {
      var vs: seq<T> := [];
      assert vs + [x.value] == [x.value];
    }
  }

  lemma SequenceWhole<T, E>(rs: seq<Result<T, E>>)
    ensures Sequence(rs[..|rs|]) == Sequence(rs)
  {
    assert rs[..|rs|] == rs;
  }

  /** Fail-fast: once a prefix fails, the whole list fails with that error. */
  lemma {:induction false} SequencePrefix<T, E>(rs: seq<Result<T, E>>, n: nat)
    requires n <= |rs| && Sequence(rs[..n]).Failure?
    ensures Sequence(rs) == Sequence(rs[..n])
    decreases |rs|
  {
    if n < |rs| {
      var m := |rs| - 1;
      assert rs[..m][..n] == rs[..n];
      SequencePrefix(rs[..m], n);
    } else {
      assert rs[..n] == rs;
    }
  }

  /** Concatenation is associative; called where an inline assertion would
      bring extensional sequence equality into a large proof context. */
  lemma Assoc<T>(a: seq<T>, b: seq<T>, c: seq<T>)
    ensures a + (b + c) == (a + b) + c
  {
  }
}
