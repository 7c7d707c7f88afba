/** The template substitutor: `FIELD_RE = re.compile(r'\{.*\}')`
    (reminders.py:32), `Reminders.substitute` (reminders.py:308-326) and
    `Reminders.get_fields` (reminders.py:448-449).

    The pattern is greedy and its `.` does not match a newline, so on each
    line a match runs from the first `{` to the LAST `}` of that line; two
    placeholders on one line form a single match. `substitute` strips only
    the outer pair of braces of a match, `get_fields` strips every brace. */
module Template {
  import opened Results
  import opened Strings
  import opened Records

  /** A template cut into what `re.sub` copies (one character at a time)
      and what it replaces (a whole match, braces included). */
  datatype Piece = Lit(c: char) | Field(raw: string)

  /** `\{.*\}` matches exactly `s[i..j]`. */
  predicate IsMatch(s: string, i: nat, j: nat) {
    && i + 2 <= j <= |s|
    && s[i] == '{'
    && s[j - 1] == '}'
    && forall k | i < k < j - 1 :: s[k] != '\n'
  }

  /** The text of a match: braces at both ends, no newline inside. */
  predicate Placeholder(raw: string) {
    |raw| >= 2 && raw[0] == '{' && raw[|raw| - 1] == '}' && '\n' !in raw
  }

  predicate WellFormed(ps: seq<Piece>) {
    forall p | p in ps && p.Field? :: Placeholder(p.raw)
  }

  /** Index of the newline that ends the line containing `i`, or `|s|`. */
  function LineEnd(s: string, i: nat): (e: nat)
    requires i <= |s|
    ensures i <= e <= |s|
    decreases |s| - i
  {
    if i == |s| || s[i] == '\n' then i else LineEnd(s, i + 1)
  }

  /** The line ends at a newline (or the end of `s`), with none before it. */
  lemma {:induction false} LineEndSpec(s: string, i: nat)
    requires i <= |s|
    ensures LineEnd(s, i) < |s| ==> s[LineEnd(s, i)] == '\n'
    ensures forall k | i <= k < LineEnd(s, i) :: s[k] != '\n'
    decreases |s| - i
  {
    if !(i == |s| || s[i] == '\n') {
      LineEndSpec(s, i + 1);
    }
  }

  /** Index of the last `}` in `s[a..e]`. */
  function LastClose(s: string, a: nat, e: nat): (r: Option<nat>)
    requires a <= e <= |s|
    ensures r.Some? ==> a <= r.value < e
    decreases e
  {
    if e == a then None
    else if s[e - 1] == '}' then Some(e - 1)
    else LastClose(s, a, e - 1)
  }

  /** The index found holds a `}` and none follows it; none found means
      none is there. */
  lemma {:induction false} LastCloseSpec(s: string, a: nat, e: nat)
    requires a <= e <= |s|
    ensures LastClose(s, a, e).Some? ==> s[LastClose(s, a, e).value] == '}'
    ensures LastClose(s, a, e).Some? ==> forall k | LastClose(s, a, e).value < k < e :: s[k] != '}'
    ensures LastClose(s, a, e).None? ==> forall k | a <= k < e :: s[k] != '}'
    decreases e
  {
    if e != a && s[e - 1] != '}' {
      LastCloseSpec(s, a, e - 1);
    }
  }

  /** End of the match the regex engine takes at position `i`: the longest
      one (greedy), or none at all. */
  function MatchEnd(s: string, i: nat): (r: Option<nat>)
    requires i < |s|
    ensures r.Some? ==> i + 2 <= r.value <= |s|
  {
    if s[i] != '{' then None
    else
      var e := LineEnd(s, i + 1);
      match LastClose(s, i + 1, e)
      case None =>
        None
      case Some(k) =>
        Some(k + 1)
  }

  /** `MatchEnd` is the greedy match: a match, and no longer one exists;
      when it finds none, there is none. */
  lemma MatchEndSpec(s: string, i: nat)
    requires i < |s|
    ensures MatchEnd(s, i).Some? ==> IsMatch(s, i, MatchEnd(s, i).value)
    ensures MatchEnd(s, i).Some? ==> forall j | MatchEnd(s, i).value < j <= |s| :: !IsMatch(s, i, j)
    ensures MatchEnd(s, i).None? ==> forall j :: !IsMatch(s, i, j)
  {
    if s[i] == '{' {
      var e := LineEnd(s, i + 1);
      LineEndSpec(s, i + 1);
      LastCloseSpec(s, i + 1, e);
    }
  }

  /** The pieces of `s[i..]`, scanning left to right as `re.sub` and
      `re.findall` do: take the match at the current position if there is
      one and continue after it, otherwise copy one character. */
  function PiecesFrom(s: string, i: nat): seq<Piece>
    requires i <= |s|
    decreases |s| - i
  {
    if i == |s| then []
    else
      match MatchEnd(s, i)
      case Some(j) => [Field(s[i..j])] + PiecesFrom(s, j)
      case None => [Lit(s[i])] + PiecesFrom(s, i + 1)
  }

  /** One step of the scan at position `i`. */
  lemma PiecesStep(s: string, i: nat)
    requires i < |s|
    ensures MatchEnd(s, i).Some? ==>
      PiecesFrom(s, i) == [Field(s[i..MatchEnd(s, i).value])] + PiecesFrom(s, MatchEnd(s, i).value)
    ensures MatchEnd(s, i).None? ==> PiecesFrom(s, i) == [Lit(s[i])] + PiecesFrom(s, i + 1)
  {
  }

  lemma {:induction false} PiecesFromText(s: string, i: nat)
    requires i <= |s|
    ensures Text(PiecesFrom(s, i)) == s[i..]
    decreases |s| - i
  {
    if i < |s| {
      PiecesStep(s, i);
      var m := MatchEnd(s, i);
      var ps := PiecesFrom(s, i);
      if m.Some? {
        var j := m.value;
        PiecesFromText(s, j);
        assert ps == [Field(s[i..j])] + PiecesFrom(s, j);
        assert ps[0] == Field(s[i..j]) && ps[1..] == PiecesFrom(s, j);
        assert Text(ps) == s[i..j] + Text(PiecesFrom(s, j));
        assert s[i..] == s[i..j] + s[j..];
      } else {
        PiecesFromText(s, i + 1);
        assert ps == [Lit(s[i])] + PiecesFrom(s, i + 1);
        assert ps[0] == Lit(s[i]) && ps[1..] == PiecesFrom(s, i + 1);
        assert Text(ps) == [s[i]] + Text(PiecesFrom(s, i + 1));
        assert s[i..] == [s[i]] + s[i + 1..];
      }
    }
  }

  lemma {:induction false} PiecesFromWellFormed(s: string, i: nat)
    requires i <= |s|
    ensures WellFormed(PiecesFrom(s, i))
    decreases |s| - i
  {
    if i < |s| {
      PiecesStep(s, i);
      var m := MatchEnd(s, i);
      MatchEndSpec(s, i);
      if m.Some? {
        var j := m.value;
        PiecesFromWellFormed(s, j);
        assert Placeholder(s[i..j]) by {
          assert forall x | 0 <= x < j - i :: s[i..j][x] == s[i + x];
        }
      } else {
        PiecesFromWellFormed(s, i + 1);
      }
    }
  }

  /** The template as the regex engine cuts it: the pieces are well-formed
      matches and single characters, and together they spell the template. */
  function Scan(s: string): (r: seq<Piece>)
    ensures WellFormed(r)
    ensures Text(r) == s
  {
    PiecesFromText(s, 0);
    PiecesFromWellFormed(s, 0);
    PiecesFrom(s, 0)
  }

  /** The text the pieces were cut from. */
  function Text(ps: seq<Piece>): string {
    if |ps| == 0 then ""
    else (match ps[0] case Lit(c) => [c] case Field(raw) => raw) + Text(ps[1..])
  }

  /** Each character of `s` as a literal piece. */
  function Lits(s: string): (r: seq<Piece>)
    ensures |r| == |s|
    ensures forall k | 0 <= k < |s| :: r[k] == Lit(s[k])
  {
    seq(|s|, k requires 0 <= k < |s| => Lit(s[k]))
  }

  // ---------------------------------------------------------------------
  // What the scan looks like: lines are independent, and a line holds one
  // placeholder from its first `{` to its last `}`, or none.

  /** `b` is the part of `s` from position `d` on. */
  predicate Tail(s: string, d: nat, b: string) {
    d + |b| == |s| && forall x | 0 <= x < |b| :: s[d + x] == b[x]
  }

  lemma MatchEndShift(s: string, d: nat, b: string, k: nat)
    requires Tail(s, d, b) && k < |b|
    ensures MatchEnd(s, d + k) ==
      match MatchEnd(b, k) case None => None case Some(j) => Some(d + j)
  {
    var i := d + k;
    forall j: nat | d <= j ensures IsMatch(s, i, j) <==> IsMatch(b, k, j - d) {
      if IsMatch(s, i, j) {
        forall x | k < x < j - d - 1 ensures b[x] != '\n' {
          assert b[x] == s[d + x];
        }
        assert b[k] == s[i] && b[j - d - 1] == s[j - 1];
      }
      if IsMatch(b, k, j - d) {
        forall x | i < x < j - 1 ensures s[x] != '\n' {
          assert s[x] == b[x - d];
        }
        assert b[k] == s[i] && b[j - d - 1] == s[j - 1];
      }
    }
    var r := MatchEnd(b, k);
    var big := MatchEnd(s, i);
    MatchEndSpec(b, k);
    MatchEndSpec(s, i);
    if r.Some? {
      assert IsMatch(s, i, d + r.value);
      assert big.Some?;
      assert IsMatch(b, k, big.value - d);
    }
  }

  /** The piece the scan takes at position `i`. */
  function Head(s: string, i: nat): Piece
    requires i < |s|
  {
    match MatchEnd(s, i)
    case Some(j) => Field(s[i..j])
    case None => Lit(s[i])
  }

  /** Where the scan continues after position `i`. */
  function Next(s: string, i: nat): (n: nat)
    requires i < |s|
    ensures i < n <= |s|
  {
    match MatchEnd(s, i)
    case Some(j) => j
    case None => i + 1
  }

  lemma Unroll(s: string, i: nat, h: Piece, n: nat)
    requires i < |s| && Head(s, i) == h && Next(s, i) == n
    ensures PiecesFrom(s, i) == [h] + PiecesFrom(s, n)
  {
    PiecesStep(s, i);
  }

  /** `Unroll`, with the scan from `n` on already known. */
  lemma UnrollTo(s: string, i: nat, h: Piece, n: nat, rest: seq<Piece>)
    requires i < |s| && Head(s, i) == h && Next(s, i) == n && PiecesFrom(s, n) == rest
    ensures PiecesFrom(s, i) == [h] + rest
  {
    Unroll(s, i, h, n);
  }

  lemma HeadShift(s: string, d: nat, b: string, k: nat)
    requires Tail(s, d, b) && k < |b|
    ensures Head(s, d + k) == Head(b, k)
    ensures Next(s, d + k) == d + Next(b, k)
  {
    MatchEndShift(s, d, b, k);
    var m := MatchEnd(b, k);
    if m.Some? {
      assert s[d + k..d + m.value] == b[k..m.value];
    } else {
      assert s[d + k] == b[k];
    }
  }

  /** Scanning the tail of a longer string gives the same pieces as scanning
      that tail on its own. */
  lemma {:induction false} PiecesShift(s: string, d: nat, b: string, k: nat)
    requires Tail(s, d, b) && k <= |b|
    ensures PiecesFrom(s, d + k) == PiecesFrom(b, k)
    decreases |b| - k
  {
    if k < |b| {
      var n := Next(b, k);
      PiecesShift(s, d, b, n);
      HeadShift(s, d, b, k);
      SameStep(s, d + k, b, k, Head(b, k), d + n, n, PiecesFrom(b, n));
    } else {
      assert d + k == |s|;
      assert PiecesFrom(s, d + k) == [];
    }
  }

  /** Two scans that take the same step, and agree after it, agree. */
  lemma SameStep(s: string, i: nat, b: string, k: nat, h: Piece, m: nat, n: nat, rest: seq<Piece>)
    requires i < |s| && k < |b| && m <= |s| && n <= |b|
    requires Head(s, i) == h && Next(s, i) == m && Head(b, k) == h && Next(b, k) == n
    requires PiecesFrom(s, m) == rest && PiecesFrom(b, n) == rest
    ensures PiecesFrom(s, i) == PiecesFrom(b, k)
  {
    UnrollTo(s, i, h, m, rest);
    UnrollTo(b, k, h, n, rest);
    assert PiecesFrom(s, i) == PiecesFrom(b, k);
  }

  /** `s` is the line `a`, a line break, and the rest `b`. */
  predicate LineThen(s: string, a: string, b: string) {
    && '\n' !in a
    && |a| < |s| && s[|a|] == '\n'
    && (forall x | 0 <= x < |a| :: s[x] == a[x])
    && Tail(s, |a| + 1, b)
  }

  /** Before the first line break, the scan of `s` takes the same steps as
      the scan of the line `a` alone. */
  lemma HeadLineBreak(s: string, a: string, b: string, i: nat)
    requires LineThen(s, a, b) && i < |a|
    ensures Head(s, i) == Head(a, i)
    ensures Next(s, i) == Next(a, i)
  {
    forall j: nat ensures IsMatch(s, i, j) <==> IsMatch(a, i, j) {
      if IsMatch(a, i, j) {
        assert s[j - 1] == a[j - 1];
      }
      if IsMatch(s, i, j) {
        assert j <= |a| by {
          assert s[|a|] == '\n';
        }
        assert s[j - 1] == a[j - 1];
      }
    }
    var r := MatchEnd(a, i);
    var big := MatchEnd(s, i);
    MatchEndSpec(a, i);
    MatchEndSpec(s, i);
    if r.Some? {
      assert IsMatch(s, i, r.value);
      assert big.Some? && IsMatch(a, i, big.value);
      assert big == r;
      assert s[i..r.value] == a[i..r.value];
    } else {
      assert big.None?;
      assert s[i] == a[i];
    }
  }

  lemma {:induction false} PiecesLineBreak(s: string, a: string, b: string, i: nat)
    requires LineThen(s, a, b) && i <= |a|
    ensures PiecesFrom(s, i) == PiecesFrom(a, i) + [Lit('\n')] + PiecesFrom(b, 0)
    decreases |a| - i
  {
    if i == |a| {
      LineBreakAtEnd(s, a, b);
    } else {
      PiecesLineBreak(s, a, b, Next(a, i));
      LineBreakStep(s, a, b, i);
    }
  }

  /** At the newline itself: one literal, then the next line. */
  lemma LineBreakAtEnd(s: string, a: string, b: string)
    requires LineThen(s, a, b)
    ensures PiecesFrom(s, |a|) == PiecesFrom(a, |a|) + [Lit('\n')] + PiecesFrom(b, 0)
  {
    var nl := [Lit('\n')];
    var after := PiecesFrom(b, 0);
    var i := |a|;
    assert PiecesFrom(s, i) == nl + after by {
      NoMatchWithoutOpen(s, i);
      Unroll(s, i, Lit('\n'), i + 1);
      PiecesShift(s, |a| + 1, b, 0);
    }
    assert PiecesFrom(a, i) == [];
    assert [] + nl + after == nl + after;
  }

  /** Before the newline, the line and the whole text take the same step. */
  lemma LineBreakStep(s: string, a: string, b: string, i: nat)
    requires LineThen(s, a, b) && i < |a|
    requires PiecesFrom(s, Next(a, i)) == PiecesFrom(a, Next(a, i)) + [Lit('\n')] + PiecesFrom(b, 0)
    ensures PiecesFrom(s, i) == PiecesFrom(a, i) + [Lit('\n')] + PiecesFrom(b, 0)
  {
    var nl := [Lit('\n')];
    var after := PiecesFrom(b, 0);
    var h := Head(a, i);
    var n := Next(a, i);
    var mid := PiecesFrom(a, n);
    assert PiecesFrom(s, i) == [h] + PiecesFrom(s, n) by {
      HeadLineBreak(s, a, b, i);
      Unroll(s, i, h, n);
    }
    assert PiecesFrom(a, i) == [h] + mid by {
      Unroll(a, i, h, n);
    }
    Assoc([h], mid + nl, after);
    Assoc([h], mid, nl);
  }

  /** Lines are scanned independently: a match never spans a newline. */
  lemma LineBreak(a: string, b: string)
    requires '\n' !in a
    ensures Scan(a + "\n" + b) == Scan(a) + [Lit('\n')] + Scan(b)
  {
    var s := a + "\n" + b;
    assert LineThen(s, a, b);
    PiecesLineBreak(s, a, b, 0);
  }

  lemma NoMatchWithoutOpen(s: string, i: nat)
    requires i < |s| && s[i] != '{'
    ensures MatchEnd(s, i).None?
  {
  }

  lemma LitsCons(s: string, i: nat, f: nat)
    requires i < f <= |s|
    ensures Lits(s[i..f]) == [Lit(s[i])] + Lits(s[i + 1..f])
  {
  }

  /** A position where no match starts contributes one literal character. */
  lemma {:induction false} LitStep(s: string, i: nat, f: nat)
    requires i < f <= |s| && MatchEnd(s, i).None?
    requires PiecesFrom(s, i + 1) == Lits(s[i + 1..f]) + PiecesFrom(s, f)
    ensures PiecesFrom(s, i) == Lits(s[i..f]) + PiecesFrom(s, f)
  {
    PiecesStep(s, i);
    LitsCons(s, i, f);
    assert [Lit(s[i])] + (Lits(s[i + 1..f]) + PiecesFrom(s, f))
        == ([Lit(s[i])] + Lits(s[i + 1..f])) + PiecesFrom(s, f);
  }

  lemma {:induction false} PiecesNoOpen(s: string, i: nat, f: nat)
    requires i <= f <= |s|
    requires forall x | i <= x < f :: s[x] != '{'
    ensures PiecesFrom(s, i) == Lits(s[i..f]) + PiecesFrom(s, f)
    decreases f - i
  {
    if i < f {
      NoMatchWithoutOpen(s, i);
      PiecesNoOpen(s, i + 1, f);
      LitStep(s, i, f);
    } else {
      assert Lits(s[i..f]) == [];
    }
  }

  lemma {:induction false} PiecesNoClose(s: string, i: nat)
    requires i <= |s|
    requires forall x | i <= x < |s| :: s[x] != '}'
    ensures PiecesFrom(s, i) == Lits(s[i..])
    decreases |s| - i
  {
    if i < |s| {
      assert forall j :: !IsMatch(s, i, j);
      MatchEndSpec(s, i);
      PiecesNoClose(s, i + 1);
      assert PiecesFrom(s, |s|) == [];
      assert s[i + 1..] == s[i + 1..|s|] && s[i..] == s[i..|s|];
      LitStep(s, i, |s|);
    }
  }

  /** On a line, the match at a `{` ends at the line's last `}`. */
  lemma GreedyMatch(s: string, f: nat, l: nat)
    requires '\n' !in s
    requires f < l < |s| && s[f] == '{' && s[l] == '}'
    requires forall x | l < x < |s| :: s[x] != '}'
    ensures MatchEnd(s, f) == Some(l + 1)
  {
    assert IsMatch(s, f, l + 1);
    var m := MatchEnd(s, f);
    MatchEndSpec(s, f);
    assert m.Some?;
    assert s[m.value - 1] == '}';
  }

  /** On a single line, the one placeholder runs from the first `{` to the
      last `}` (not to the nearest one); everything else is copied. */
  lemma SingleLine(s: string, f: nat, l: nat)
    requires '\n' !in s
    requires f < l < |s| && s[f] == '{' && s[l] == '}'
    requires forall x | 0 <= x < f :: s[x] != '{'
    requires forall x | l < x < |s| :: s[x] != '}'
    ensures Scan(s) == Lits(s[..f]) + [Field(s[f..l + 1])] + Lits(s[l + 1..])
  {
    var front := Lits(s[..f]);
    var field := [Field(s[f..l + 1])];
    var back := Lits(s[l + 1..]);
    assert PiecesFrom(s, 0) == front + PiecesFrom(s, f) by {
      assert s[0..f] == s[..f];
      PiecesNoOpen(s, 0, f);
    }
    FromGreedy(s, f, l);
    assert front + (field + back) == (front + field) + back;
  }

  /** The scan from a line's first `{` on: one placeholder up to the last
      `}`, then literal characters. */
  lemma FromGreedy(s: string, f: nat, l: nat)
    requires '\n' !in s
    requires f < l < |s| && s[f] == '{' && s[l] == '}'
    requires forall x | l < x < |s| :: s[x] != '}'
    ensures PiecesFrom(s, f) == [Field(s[f..l + 1])] + Lits(s[l + 1..])
  {
    var h := Field(s[f..l + 1]);
    var e := l + 1;
    assert Head(s, f) == h && Next(s, f) == e by {
      GreedyMatch(s, f, l);
    }
    PiecesNoClose(s, e);
    UnrollTo(s, f, h, e, Lits(s[e..]));
  }

  /** A line where no `{` is followed by a `}` is copied unchanged. */
  lemma {:induction false} NoPlaceholder(s: string, i: nat)
    requires i <= |s|
    requires forall f, l | i <= f < l < |s| :: !(s[f] == '{' && s[l] == '}')
    ensures PiecesFrom(s, i) == Lits(s[i..])
    decreases |s| - i
  {
    if i < |s| {
      assert forall j :: !IsMatch(s, i, j);
      MatchEndSpec(s, i);
      NoPlaceholder(s, i + 1);
      assert PiecesFrom(s, |s|) == [];
      assert s[i + 1..] == s[i + 1..|s|] && s[i..] == s[i..|s|];
      LitStep(s, i, |s|);
    }
  }

  // ---------------------------------------------------------------------
  // substitute

  /** What `substitute` raises: `ValueError` for a name that is neither
      `days` nor a field of the user, and the `TypeError` `re.sub` raises
      when a replacement is not a string. */
  datatype SubstituteError = UnknownField(name: string) | NotText(value: Value)

  /** `group[1:-1]`: the match without its outer braces. */
  function Inner(raw: string): string
    requires |raw| >= 2
  {
    raw[1..|raw| - 1]
  }

  /** `new_value(group)` */
  function Replacement(raw: string, user: Record, days: int): Result<Value, SubstituteError>
    requires |raw| >= 2
  {
    var v := Inner(raw);
    if v == "days" then Success(Str(IntToString(days)))
    else if v in user then Success(user[v])
    else Failure(UnknownField(v))
  }

  /** The values `re.sub` collects, left to right; the first unknown name stops it. */
  function Replacements(ps: seq<Piece>, user: Record, days: int): Result<seq<Value>, SubstituteError>
    requires WellFormed(ps)
  {
    if |ps| == 0 then Success([])
    else
      var v :- match ps[0] case Lit(c) => Success(Str([c])) case Field(raw) => Replacement(raw, user, days);
      var vs :- Replacements(ps[1..], user, days);
      Success([v] + vs)
  }

  /** `''.join(values)`, which fails on the first value that is not a `str`. */
  function JoinText(vs: seq<Value>): (r: Result<string, SubstituteError>)
    ensures r.Success? <==> forall i | 0 <= i < |vs| :: vs[i].Str?
    ensures r.Failure? ==> r.error.NotText? && r.error.value in vs && !r.error.value.Str?
  {
    if |vs| == 0 then Success("")
    else if !vs[0].Str? then Failure(NotText(vs[0]))
    else
      var rest :- JoinText(vs[1..]);
      Success(vs[0].text + rest)
  }

  /** A placeholder name `substitute` can fill with text. */
  predicate Fillable(name: string, user: Record) {
    name == "days" || (name in user && user[name].Str?)
  }

  /** The placeholder is named `name`. */
  predicate Names(p: Piece, name: string) {
    p.Field? && |p.raw| >= 2 && Inner(p.raw) == name
  }

  /** The piece is literal text, or a placeholder `new_value` finds a value for. */
  predicate Known(p: Piece, user: Record) {
    p.Lit? || (|p.raw| >= 2 && (Inner(p.raw) == "days" || Inner(p.raw) in user))
  }

  /** Every piece is known. */
  predicate AllKnown(ps: seq<Piece>, user: Record) {
    forall p | p in ps :: Known(p, user)
  }

  /** The leftmost piece that is not known is a placeholder named `name`. */
  predicate FirstUnknown(ps: seq<Piece>, user: Record, name: string) {
    exists k | 0 <= k < |ps| ::
      && Names(ps[k], name) && !Known(ps[k], user)
      && forall j | 0 <= j < k :: Known(ps[j], user)
  }

  /** What one piece turns into when the template is filled in: a literal
      character stays, `{days}` becomes the number in decimal, and any other
      placeholder becomes the text of the user's field. */
  function PieceText(p: Piece, user: Record, days: int): string {
    match p
    case Lit(c) => [c]
    case Field(raw) =>
      if |raw| < 2 then raw
      else if Inner(raw) == "days" then IntToString(days)
      else if Inner(raw) in user && user[Inner(raw)].Str? then user[Inner(raw)].text
      else raw
  }

  /** The filled-in template, piece by piece. */
  function Expand(ps: seq<Piece>, user: Record, days: int): string {
    if |ps| == 0 then "" else PieceText(ps[0], user, days) + Expand(ps[1..], user, days)
  }

  /** `substitute(template, user, days)`: all or nothing. It succeeds exactly
      when every placeholder can be filled, and then gives the template with
      each placeholder replaced by its text. A failure is the `ValueError` for
      the leftmost unknown name when there is one, and otherwise the
      `TypeError` for a field value that is not text; a template without
      placeholders comes back unchanged. */
  function Substitute(template: string, user: Record, days: int): (r: Result<string, SubstituteError>)
    ensures r.Success? <==>
      forall p | p in Scan(template) && p.Field? :: Fillable(Inner(p.raw), user)
    ensures r.Success? ==> r.value == Expand(Scan(template), user, days)
    ensures r.Failure? ==> (r.error.UnknownField? <==> !AllKnown(Scan(template), user))
    ensures r.Failure? && r.error.UnknownField? ==>
      exists p | p in Scan(template) && p.Field? ::
        Inner(p.raw) == r.error.name && !Fillable(r.error.name, user) && r.error.name !in user
    ensures r.Failure? && r.error.UnknownField? ==> FirstUnknown(Scan(template), user, r.error.name)
    ensures r.Failure? && r.error.NotText? ==>
      && !r.error.value.Str?
      && exists p | p in Scan(template) && p.Field? ::
        Inner(p.raw) in user && user[Inner(p.raw)] == r.error.value
    ensures (forall p | p in Scan(template) :: p.Lit?) ==> r == Success(template)
  {
    var ps := Scan(template);
    var rs := Replacements(ps, user, days);
    ReplacementsOutcome(ps, user, days);
    ReplacementsFirst(ps, user, days);
    if rs.Failure? then
      assert !Fillable(rs.error.name, user);
      Failure(rs.error)
    else
      var out := JoinText(rs.value);
      if out.Success? then
        ReplacementsExpand(ps, user, days);
        out
      else
        ReplacementsNotText(ps, user, days);
        out
  }

  lemma ReplacementsOutcome(ps: seq<Piece>, user: Record, days: int)
    requires WellFormed(ps)
    ensures var r := Replacements(ps, user, days);
      && (r.Success? <==> forall p | p in ps && p.Field? :: Inner(p.raw) == "days" || Inner(p.raw) in user)
      && (r.Success? ==> |r.value| == |ps|)
      && (r.Success? ==> (JoinText(r.value).Success? <==>
            forall p | p in ps && p.Field? :: Fillable(Inner(p.raw), user)))
      && (r.Failure? ==>
            && r.error.UnknownField? && r.error.name !in user && r.error.name != "days"
            && exists p | p in ps && p.Field? :: Inner(p.raw) == r.error.name)
      && ((forall p | p in ps :: p.Lit?) ==> r.Success? && JoinText(r.value) == Success(Text(ps)))
  {
    ReplacementsKnown(ps, user, days);
    ReplacementsText(ps, user, days);
  }

  /** The values are collected exactly when every name is `days` or a field
      of the user, one per piece; otherwise the failure names an unknown
      placeholder of the template. */
  lemma {:induction false} ReplacementsKnown(ps: seq<Piece>, user: Record, days: int)
    requires WellFormed(ps)
    ensures var r := Replacements(ps, user, days);
      && (r.Success? <==> forall p | p in ps && p.Field? :: Inner(p.raw) == "days" || Inner(p.raw) in user)
      && (r.Success? ==> |r.value| == |ps|)
      && (r.Failure? ==>
            && r.error.UnknownField? && r.error.name !in user && r.error.name != "days"
            && exists p | p in ps && p.Field? :: Inner(p.raw) == r.error.name)
  {
    if |ps| > 0 {
      ReplacementsKnown(ps[1..], user, days);
      assert forall p | p in ps[1..] :: p in ps;
      assert forall p | p in ps :: p == ps[0] || p in ps[1..];
    }
  }

  /** Joining the collected values succeeds exactly when every placeholder
      is fillable with text, and gives the template back when it has none. */
  lemma {:induction false} ReplacementsText(ps: seq<Piece>, user: Record, days: int)
    requires WellFormed(ps)
    ensures var r := Replacements(ps, user, days);
      && (r.Success? ==> (JoinText(r.value).Success? <==>
            forall p | p in ps && p.Field? :: Fillable(Inner(p.raw), user)))
      && ((forall p | p in ps :: p.Lit?) ==> r.Success? && JoinText(r.value) == Success(Text(ps)))
  {
    if |ps| > 0 {
      ReplacementsText(ps[1..], user, days);
      assert forall p | p in ps[1..] :: p in ps;
      assert forall p | p in ps :: p == ps[0] || p in ps[1..];
      var r := Replacements(ps, user, days);
      var rest := Replacements(ps[1..], user, days);
      if r.Success? {
        assert rest.Success? && r.value[1..] == rest.value;
      }
    }
  }

  /** The values are collected up to the leftmost unknown name, and that
      is the name the failure carries. */
  lemma {:induction false} ReplacementsFirst(ps: seq<Piece>, user: Record, days: int)
    requires WellFormed(ps)
    ensures var r := Replacements(ps, user, days);
      r.Failure? ==> r.error.UnknownField? && FirstUnknown(ps, user, r.error.name)
  {
    ReplacementsKnown(ps, user, days);
    var r := Replacements(ps, user, days);
    if r.Failure? {
      var tail := ps[1..];
      assert forall p | p in tail :: p in ps;
      if Known(ps[0], user) {
        ReplacementsFirst(tail, user, days);
        ReplacementsSkip(ps, user, days);
        assert ps == [ps[0]] + tail;
        FirstUnknownSuffix([ps[0]], tail, user, r.error.name);
      } else {
        ReplacementsStop(ps, user, days);
        assert Names(ps[0], r.error.name) && !Known(ps[0], user);
      }
    }
  }

  /** A known first piece passes its turn: the outcome is the rest's. */
  lemma ReplacementsSkip(ps: seq<Piece>, user: Record, days: int)
    requires WellFormed(ps) && |ps| > 0 && Known(ps[0], user)
    ensures WellFormed(ps[1..])
    ensures Replacements(ps, user, days).Failure? <==> Replacements(ps[1..], user, days).Failure?
    ensures Replacements(ps, user, days).Failure? ==>
      Replacements(ps, user, days).error == Replacements(ps[1..], user, days).error
  {
    assert forall p | p in ps[1..] :: p in ps;
    assert ps[0] in ps;
  }

  /** An unknown first piece stops the collection on its name. */
  lemma ReplacementsStop(ps: seq<Piece>, user: Record, days: int)
    requires WellFormed(ps) && |ps| > 0 && !Known(ps[0], user)
    ensures Replacements(ps, user, days).Failure?
    ensures Names(ps[0], Replacements(ps, user, days).error.name)
  {
    assert ps[0] in ps;
  }

  /** There is one leftmost unknown piece. */
  lemma FirstUnknownUnique(ps: seq<Piece>, user: Record, m: string, n: string)
    requires FirstUnknown(ps, user, m) && FirstUnknown(ps, user, n)
    ensures m == n
  {
    var i :| 0 <= i < |ps| && Names(ps[i], m) && !Known(ps[i], user) && forall j | 0 <= j < i :: Known(ps[j], user);
    var k :| 0 <= k < |ps| && Names(ps[k], n) && !Known(ps[k], user) && forall j | 0 <= j < k :: Known(ps[j], user);
    assert i == k;
  }

  /** The leftmost unknown piece of a prefix is the leftmost of the whole. */
  lemma FirstUnknownPrefix(pa: seq<Piece>, pb: seq<Piece>, user: Record, name: string)
    requires FirstUnknown(pa, user, name)
    ensures FirstUnknown(pa + pb, user, name)
  {
    var k :| 0 <= k < |pa| && Names(pa[k], name) && !Known(pa[k], user) && forall j | 0 <= j < k :: Known(pa[j], user);
    var ps := pa + pb;
    assert ps[k] == pa[k];
    assert forall j | 0 <= j < k :: ps[j] == pa[j];
  }

  /** After a known prefix, the leftmost unknown piece of the rest is the
      leftmost of the whole. */
  lemma FirstUnknownSuffix(pa: seq<Piece>, pb: seq<Piece>, user: Record, name: string)
    requires AllKnown(pa, user) && FirstUnknown(pb, user, name)
    ensures FirstUnknown(pa + pb, user, name)
  {
    var k :| 0 <= k < |pb| && Names(pb[k], name) && !Known(pb[k], user) && forall j | 0 <= j < k :: Known(pb[j], user);
    var ps := pa + pb;
    var n := |pa|;
    assert ps[n + k] == pb[k];
    forall j | 0 <= j < n + k ensures Known(ps[j], user) {
      if j < n {
        assert ps[j] == pa[j] && pa[j] in pa;
      } else {
        assert ps[j] == pb[j - n];
      }
    }
  }

  /** When every value is text, the joined text is the piecewise expansion. */
  lemma {:induction false} ReplacementsExpand(ps: seq<Piece>, user: Record, days: int)
    requires WellFormed(ps)
    requires Replacements(ps, user, days).Success?
    requires JoinText(Replacements(ps, user, days).value).Success?
    ensures JoinText(Replacements(ps, user, days).value).value == Expand(ps, user, days)
  {
    if |ps| > 0 {
      var tail := ps[1..];
      assert forall p | p in tail :: p in ps;
      var vs := Replacements(ps, user, days).value;
      var rest := Replacements(tail, user, days);
      assert rest.Success? && vs[1..] == rest.value;
      assert vs[0].Str? && vs[0].text == PieceText(ps[0], user, days) by {
        assert ps[0] in ps;
      }
      ReplacementsExpand(tail, user, days);
    }
  }

  /** A value that is not text comes from a field of the user. */
  lemma {:induction false} ReplacementsNotText(ps: seq<Piece>, user: Record, days: int)
    requires WellFormed(ps)
    requires Replacements(ps, user, days).Success?
    requires JoinText(Replacements(ps, user, days).value).Failure?
    ensures var e := JoinText(Replacements(ps, user, days).value).error;
      exists p | p in ps && p.Field? :: Inner(p.raw) in user && user[Inner(p.raw)] == e.value
  {
    var tail := ps[1..];
    assert forall p | p in tail :: p in ps;
    assert ps[0] in ps;
    var vs := Replacements(ps, user, days).value;
    var rest := Replacements(tail, user, days);
    assert rest.Success? && vs[1..] == rest.value;
    if vs[0].Str? {
      ReplacementsNotText(tail, user, days);
    }
  }

  lemma {:induction false} ExpandAppend(a: seq<Piece>, b: seq<Piece>, user: Record, days: int)
    ensures Expand(a + b, user, days) == Expand(a, user, days) + Expand(b, user, days)
  {
    if |a| == 0 {
      assert a + b == b;
    } else {
      assert (a + b)[1..] == a[1..] + b;
      ExpandAppend(a[1..], b, user, days);
      var t, x, y := PieceText(a[0], user, days), Expand(a[1..], user, days), Expand(b, user, days);
      assert t + (x + y) == (t + x) + y;
    }
  }

  /** Literal text expands to itself. */
  lemma {:induction false} ExpandLits(s: string, user: Record, days: int)
    ensures Expand(Lits(s), user, days) == s
  {
    if |s| > 0 {
      assert Lits(s)[1..] == Lits(s[1..]);
      ExpandLits(s[1..], user, days);
    }
  }

  /** On a line with one placeholder, from its first `{` to its last `}`:
      substituting replaces that stretch with the value's text, keeps
      everything else, and fails on that one name otherwise. */
  lemma SubstituteLine(s: string, f: nat, l: nat, user: Record, days: int)
    requires '\n' !in s
    requires f < l < |s| && s[f] == '{' && s[l] == '}'
    requires forall x | 0 <= x < f :: s[x] != '{'
    requires forall x | l < x < |s| :: s[x] != '}'
    ensures var name := s[f + 1..l];
      Fillable(name, user) ==>
        Substitute(s, user, days) ==
          Success(s[..f] + (if name == "days" then IntToString(days) else user[name].text) + s[l + 1..])
    ensures var name := s[f + 1..l];
      name != "days" && name !in user ==> Substitute(s, user, days) == Failure(UnknownField(name))
    ensures var name := s[f + 1..l];
      name != "days" && name in user && !user[name].Str? ==>
        Substitute(s, user, days) == Failure(NotText(user[name]))
  {
    var raw := s[f..l + 1];
    var name := s[f + 1..l];
    assert Inner(raw) == name by {
      assert |raw| == l + 1 - f && |Inner(raw)| == |name| == l - f - 1;
      forall i | 0 <= i < l - f - 1 ensures Inner(raw)[i] == name[i] {
        assert Inner(raw)[i] == raw[i + 1] == s[f + 1 + i];
      }
    }
    SingleLine(s, f, l);
    assert Placeholder(raw) by {
      assert Field(raw) in Scan(s);
    }
    OneFieldFilled(s, s[..f], raw, s[l + 1..], user, days);
    OneFieldUnknown(s, s[..f], raw, s[l + 1..], user, days);
    OneFieldNotText(s, s[..f], raw, s[l + 1..], user, days);
  }

  /** A template that scans as one placeholder between literal text. */
  predicate OneField(template: string, x: string, raw: string, y: string) {
    Placeholder(raw) && Scan(template) == Lits(x) + [Field(raw)] + Lits(y)
  }

  lemma OneFieldFilled(template: string, x: string, raw: string, y: string, user: Record, days: int)
    requires OneField(template, x, raw, y)
    ensures Fillable(Inner(raw), user) ==>
      Substitute(template, user, days) == Success(x + PieceText(Field(raw), user, days) + y)
  {
    if Fillable(Inner(raw), user) {
      var front := Lits(x);
      var back := Lits(y);
      OnlyField(x, raw, y);
      ExpandAppend(front + [Field(raw)], back, user, days);
      ExpandAppend(front, [Field(raw)], user, days);
      ExpandLits(x, user, days);
      ExpandLits(y, user, days);
      assert Expand([Field(raw)], user, days) == PieceText(Field(raw), user, days);
    }
  }

  lemma OneFieldUnknown(template: string, x: string, raw: string, y: string, user: Record, days: int)
    requires OneField(template, x, raw, y)
    ensures Inner(raw) != "days" && Inner(raw) !in user ==>
      Substitute(template, user, days) == Failure(UnknownField(Inner(raw)))
  {
    var ps := Scan(template);
    if Inner(raw) != "days" && Inner(raw) !in user {
      assert ps[|x|] == Field(raw) && !Known(ps[|x|], user);
      OnlyField(x, raw, y);
      var r := Substitute(template, user, days);
      assert r.Failure? && r.error.UnknownField?;
      var k :| 0 <= k < |ps| && Names(ps[k], r.error.name) && !Known(ps[k], user)
        && forall j | 0 <= j < k :: Known(ps[j], user);
      assert ps[k] in ps;
    }
  }

  lemma OneFieldNotText(template: string, x: string, raw: string, y: string, user: Record, days: int)
    requires OneField(template, x, raw, y)
    ensures Inner(raw) != "days" && Inner(raw) in user && !user[Inner(raw)].Str? ==>
      Substitute(template, user, days) == Failure(NotText(user[Inner(raw)]))
  {
    var ps := Scan(template);
    if Inner(raw) != "days" && Inner(raw) in user && !user[Inner(raw)].Str? {
      assert ps[|x|] == Field(raw) && !Fillable(Inner(raw), user);
      OnlyField(x, raw, y);
      assert AllKnown(ps, user);
      var r := Substitute(template, user, days);
      assert r.Failure? && r.error.NotText?;
    }
  }


  /** Literal text around one placeholder leaves that placeholder the only one. */
  lemma OnlyField(x: string, raw: string, y: string)
    ensures forall p | p in Lits(x) + [Field(raw)] + Lits(y) && p.Field? :: p == Field(raw)
  {
    forall p | p in Lits(x) + [Field(raw)] + Lits(y) && p.Field? ensures p == Field(raw) {
      assert p !in Lits(x) && p !in Lits(y);
    }
  }

  /** Lines are filled in independently: a template of two lines succeeds
      when both do, giving both results around the newline, and an unknown
      name in the first line is the one reported. */
  lemma SubstituteLineBreak(a: string, b: string, user: Record, days: int)
    requires '\n' !in a
    ensures var r := Substitute(a + "\n" + b, user, days);
      r.Success? <==> Substitute(a, user, days).Success? && Substitute(b, user, days).Success?
    ensures var r := Substitute(a + "\n" + b, user, days);
      r.Success? ==> r.value == Substitute(a, user, days).value + "\n" + Substitute(b, user, days).value
    ensures var x := Substitute(a, user, days);
      x.Failure? && x.error.UnknownField? ==> Substitute(a + "\n" + b, user, days) == x
    ensures var x := Substitute(a, user, days);
      var y := Substitute(b, user, days);
      !(x.Failure? && x.error.UnknownField?) && y.Failure? && y.error.UnknownField? ==>
        Substitute(a + "\n" + b, user, days) == y
  {
    LineBreak(a, b);
    LinesSucceed(a, b, user, days);
    LinesFirstUnknown(a, b, user, days);
    LinesSecondUnknown(a, b, user, days);
  }

  lemma LinesSucceed(a: string, b: string, user: Record, days: int)
    requires Scan(a + "\n" + b) == Scan(a) + [Lit('\n')] + Scan(b)
    ensures var r := Substitute(a + "\n" + b, user, days);
      r.Success? <==> Substitute(a, user, days).Success? && Substitute(b, user, days).Success?
    ensures var r := Substitute(a + "\n" + b, user, days);
      r.Success? ==> r.value == Substitute(a, user, days).value + "\n" + Substitute(b, user, days).value
  {
    var pa := Scan(a);
    var pb := Scan(b);
    var nl := [Lit('\n')];
    var ps := Scan(a + "\n" + b);
    assert forall p | p in ps :: p in pa || p == Lit('\n') || p in pb;
    assert forall p | p in pa :: p in ps;
    assert forall p | p in pb :: p in ps;
    if Substitute(a + "\n" + b, user, days).Success? {
      ExpandAppend(pa + nl, pb, user, days);
      ExpandAppend(pa, nl, user, days);
      assert Expand(nl, user, days) == "\n";
    }
  }

  lemma LinesFirstUnknown(a: string, b: string, user: Record, days: int)
    requires Scan(a + "\n" + b) == Scan(a) + [Lit('\n')] + Scan(b)
    ensures var x := Substitute(a, user, days);
      x.Failure? && x.error.UnknownField? ==> Substitute(a + "\n" + b, user, days) == x
  {
    var x := Substitute(a, user, days);
    if x.Failure? && x.error.UnknownField? {
      var r := Substitute(a + "\n" + b, user, days);
      FirstUnknownPrefix(Scan(a), [Lit('\n')], user, x.error.name);
      FirstUnknownPrefix(Scan(a) + [Lit('\n')], Scan(b), user, x.error.name);
      SubstituteKnown(a + "\n" + b, user, days);
      UnknownFails(Scan(a + "\n" + b), user, x.error.name, r);
    }
  }

  lemma LinesSecondUnknown(a: string, b: string, user: Record, days: int)
    requires Scan(a + "\n" + b) == Scan(a) + [Lit('\n')] + Scan(b)
    ensures var x := Substitute(a, user, days);
      var y := Substitute(b, user, days);
      !(x.Failure? && x.error.UnknownField?) && y.Failure? && y.error.UnknownField? ==>
        Substitute(a + "\n" + b, user, days) == y
  {
    var x := Substitute(a, user, days);
    var y := Substitute(b, user, days);
    if !(x.Failure? && x.error.UnknownField?) && y.Failure? && y.error.UnknownField? {
      var r := Substitute(a + "\n" + b, user, days);
      var front := Scan(a) + [Lit('\n')];
      SubstituteKnown(a, user, days);
      assert AllKnown([Lit('\n')], user);
      AllKnownAppend(Scan(a), [Lit('\n')], user);
      FirstUnknownSuffix(front, Scan(b), user, y.error.name);
      SubstituteKnown(a + "\n" + b, user, days);
      UnknownFails(Scan(a + "\n" + b), user, y.error.name, r);
    }
  }

  /** `substitute` raises `ValueError` exactly when some name is unknown. */
  lemma SubstituteKnown(template: string, user: Record, days: int)
    ensures var r := Substitute(template, user, days);
      r.Failure? && r.error.UnknownField? <==> !AllKnown(Scan(template), user)
  {
    var r := Substitute(template, user, days);
    if r.Success? {
      forall p | p in Scan(template) ensures Known(p, user) {
        if p.Field? {
          assert Fillable(Inner(p.raw), user);
        }
      }
    }
  }

  lemma AllKnownAppend(pa: seq<Piece>, pb: seq<Piece>, user: Record)
    requires AllKnown(pa, user) && AllKnown(pb, user)
    ensures AllKnown(pa + pb, user)
  {
  }

  /** A failure that must name the leftmost unknown piece names `name`. */
  lemma UnknownFails(ps: seq<Piece>, user: Record, name: string, r: Result<string, SubstituteError>)
    requires FirstUnknown(ps, user, name)
    requires r.Failure? && r.error.UnknownField? <==> !AllKnown(ps, user)
    requires r.Failure? && r.error.UnknownField? ==> FirstUnknown(ps, user, r.error.name)
    ensures r == Failure(UnknownField(name))
  {
    var k :| 0 <= k < |ps| && Names(ps[k], name) && !Known(ps[k], user) && forall j | 0 <= j < k :: Known(ps[j], user);
    assert ps[k] in ps;
    FirstUnknownUnique(ps, user, name, r.error.name);
  }

  /** Text outside the placeholders is left as it is: if every placeholder
      names a field whose value is that placeholder's own text, substituting
      gives the template back. */
  lemma SubstituteIdentity(template: string, user: Record, days: int)
    requires forall p | p in Scan(template) && p.Field? ::
      Inner(p.raw) != "days" && Inner(p.raw) in user && user[Inner(p.raw)] == Str(p.raw)
    ensures Substitute(template, user, days) == Success(template)
  {
    var ps := Scan(template);
    IdentityPieces(ps, user, days);
  }

  lemma {:induction false} IdentityPieces(ps: seq<Piece>, user: Record, days: int)
    requires WellFormed(ps)
    requires forall p | p in ps && p.Field? ::
      Inner(p.raw) != "days" && Inner(p.raw) in user && user[Inner(p.raw)] == Str(p.raw)
    ensures Replacements(ps, user, days).Success?
    ensures JoinText(Replacements(ps, user, days).value) == Success(Text(ps))
  {
    if |ps| > 0 {
      assert forall p | p in ps[1..] :: p in ps;
      IdentityPieces(ps[1..], user, days);
    }
  }

  // ---------------------------------------------------------------------
  // get_fields

  /** `raw.replace('{', '').replace('}', '')` */
  function Unbraced(raw: string): (r: string)
    ensures '{' !in r && '}' !in r
    ensures |r| <= |raw|
  {
    if |raw| == 0 then ""
    else (if raw[0] == '{' || raw[0] == '}' then "" else [raw[0]]) + Unbraced(raw[1..])
  }

  lemma {:induction false} UnbracedNoBraces(s: string)
    requires '{' !in s && '}' !in s
    ensures Unbraced(s) == s
  {
    if |s| > 0 {
      UnbracedNoBraces(s[1..]);
    }
  }

  /** The names `get_fields` reports, one per match, in template order. */
  function FieldNames(ps: seq<Piece>): (r: seq<string>)
    ensures forall n | n in r :: '{' !in n && '}' !in n
    ensures forall p | p in ps && p.Field? :: Unbraced(p.raw) in r
    ensures forall n | n in r :: exists p | p in ps && p.Field? :: n == Unbraced(p.raw)
  {
    if |ps| == 0 then []
    else
      assert forall p | p in ps :: p == ps[0] || p in ps[1..];
      (match ps[0] case Lit(_) => [] case Field(raw) => [Unbraced(raw)]) + FieldNames(ps[1..])
  }

  /** `get_fields(template)`: one brace-free name for each match. */
  function GetFields(template: string): (r: set<string>)
    ensures forall n | n in r :: '{' !in n && '}' !in n
    ensures forall p | p in Scan(template) && p.Field? :: Unbraced(p.raw) in r
    ensures forall n | n in r :: exists p | p in Scan(template) && p.Field? :: n == Unbraced(p.raw)
  {
    set n | n in FieldNames(Scan(template))
  }

  /** `get_fields` and `substitute` agree on the name of a match exactly
      when the match holds no braces besides its outer pair. */
  lemma NamesAgree(raw: string)
    requires Placeholder(raw)
    ensures Unbraced(raw) == Inner(raw) <==> ('{' !in Inner(raw) && '}' !in Inner(raw))
  {
    var inner := Inner(raw);
    assert raw == "{" + inner + "}";
    OuterDropped(inner);
    if '{' !in inner && '}' !in inner {
      UnbracedNoBraces(inner);
    } else {
      assert |Unbraced(inner)| < |inner| by {
        UnbracedShorter(inner);
      }
    }
  }

  /** The outer braces of a match leave no trace in its `get_fields` name. */
  lemma OuterDropped(m: string)
    ensures Unbraced("{" + m + "}") == Unbraced(m)
  {
    var open := ['{'] + m;
    assert Unbraced(open) == Unbraced(m) by {
      UnbracedAppend(['{'], m);
      BraceAlone('{');
      assert "" + Unbraced(m) == Unbraced(m);
    }
    assert Unbraced(open + ['}']) == Unbraced(open) by {
      UnbracedAppend(open, ['}']);
      BraceAlone('}');
      assert Unbraced(open) + "" == Unbraced(open);
    }
    assert "{" + m + "}" == open + ['}'];
  }

  /** A brace between two texts leaves no trace in the joined name. */
  lemma DropBrace(a: string, c: char, b: string)
    requires c == '{' || c == '}'
    ensures Unbraced(a + [c] + b) == Unbraced(a) + Unbraced(b)
  {
    var ac := a + [c];
    assert Unbraced(ac) == Unbraced(a) by {
      UnbracedAppend(a, [c]);
      BraceAlone(c);
      assert Unbraced(a) + "" == Unbraced(a);
    }
    assert Unbraced(ac + b) == Unbraced(ac) + Unbraced(b) by {
      UnbracedAppend(ac, b);
    }
  }

  lemma BraceAlone(c: char)
    requires c == '{' || c == '}'
    ensures Unbraced([c]) == ""
  {
    var s := [c];
    assert s[1..] == [];
    assert Unbraced(s) == "" + Unbraced(s[1..]);
  }

  lemma {:induction false} UnbracedAppend(a: string, b: string)
    ensures Unbraced(a + b) == Unbraced(a) + Unbraced(b)
  {
    if |a| > 0 {
      var ab := a + b;
      assert ab[0] == a[0] && ab[1..] == a[1..] + b;
      assert Unbraced(a[1..] + b) == Unbraced(a[1..]) + Unbraced(b) by {
        UnbracedAppend(a[1..], b);
      }
    } else {
      assert a + b == b;
    }
  }

  lemma {:induction false} UnbracedShorter(s: string)
    requires '{' in s || '}' in s
    ensures |Unbraced(s)| < |s|
  {
    if s[0] != '{' && s[0] != '}' {
      UnbracedShorter(s[1..]);
    }
  }
}
