/** The handful of Python `str` operations the reminder core relies on:
    `lower`, `strip`, `in`, `split`, `join`, `sorted` and `str(int)`. */
module Strings {

  /** Characters for which Python's `str.isspace()` holds, i.e. the ones
      `str.strip()` removes. */
  predicate IsSpace(c: char) {
    || ('\t' <= c <= '\r')
    || ('\U{1C}' <= c <= ' ')
    || c == '\U{85}' || c == '\U{A0}' || c == '\U{1680}'
    || ('\U{2000}' <= c <= '\U{200A}')
    || c == '\U{2028}' || c == '\U{2029}' || c == '\U{202F}'
    || c == '\U{205F}' || c == '\U{3000}'
  }

  predicate IsUpper(c: char) {
    ('A' <= c <= 'Z') || ('\U{C0}' <= c <= '\U{DE}' && c != '\U{D7}')
  }

  /** Lower-casing of one character (ASCII and Latin-1 letters). */
  function LowerChar(c: char): (r: char)
    ensures IsUpper(c) ==> r as int == c as int + 32
    ensures !IsUpper(c) ==> r == c
    ensures !IsUpper(r)
  {
    if IsUpper(c) then (c as int + 32) as char else c
  }

  /** `s.lower()` */
  function Lower(s: string): (r: string)
    ensures |r| == |s|
    ensures forall i | 0 <= i < |s| :: r[i] == LowerChar(s[i])
  {
    seq(|s|, i requires 0 <= i < |s| => LowerChar(s[i]))
  }

  lemma LowerSlice(s: string, i: nat, j: nat)
    requires i <= j <= |s|
    ensures Lower(s[i..j]) == Lower(s)[i..j]
  {
  }

  lemma LowerIdempotent(s: string)
    ensures Lower(Lower(s)) == Lower(s)
  {
  }

  /** `needle` occurs in `hay` starting at index `i`. */
  predicate OccursAt(hay: string, needle: string, i: nat) {
    i + |needle| <= |hay| && hay[i..i + |needle|] == needle
  }

  /** Python's `needle in hay` on strings: a substring test. */
  predicate Contains(hay: string, needle: string) {
    exists i | 0 <= i <= |hay| :: OccursAt(hay, needle, i)
  }

  /** Number of whitespace characters `strip()` removes from the front. */
  function LeadingSpaces(s: string): (n: nat)
    ensures n <= |s|
    ensures forall k | 0 <= k < n :: IsSpace(s[k])
    ensures n < |s| ==> !IsSpace(s[n])
  {
    if |s| > 0 && IsSpace(s[0]) then 1 + LeadingSpaces(s[1..]) else 0
  }

  /** Length of `s` once trailing whitespace is removed. */
  function TrailingStop(s: string): (n: nat)
    ensures n <= |s|
    ensures forall k | n <= k < |s| :: IsSpace(s[k])
    ensures n > 0 ==> !IsSpace(s[n - 1])
  {
    if |s| > 0 && IsSpace(s[|s| - 1]) then TrailingStop(s[..|s| - 1]) else |s|
  }

  function StripStart(s: string): nat {
    LeadingSpaces(s)
  }

  function StripStop(s: string): (n: nat)
    ensures StripStart(s) <= n <= |s|
  {
    StripStart(s) + TrailingStop(s[StripStart(s)..])
  }

  /** `s.strip()`: the slice of `s` between its leading and trailing whitespace. */
  function Strip(s: string): (r: string)
    ensures r == s[StripStart(s)..StripStop(s)]
    ensures |r| > 0 ==> !IsSpace(r[0]) && !IsSpace(r[|r| - 1])
    ensures forall k | 0 <= k < StripStart(s) :: IsSpace(s[k])
    ensures forall k | StripStop(s) <= k < |s| :: IsSpace(s[k])
  {
    var t := s[StripStart(s)..];
    t[..TrailingStop(t)]
  }

  /** Stripping a string that starts and ends with a non-space changes nothing. */
  lemma StripNoOp(s: string)
    requires |s| > 0 ==> !IsSpace(s[0]) && !IsSpace(s[|s| - 1])
    ensures Strip(s) == s
  {
    if |s| > 0 {
      assert StripStart(s) == 0;
      assert TrailingStop(s) == |s|;
    }
  }

  lemma StripIdempotent(s: string)
    ensures Strip(Strip(s)) == Strip(s)
  {
    StripNoOp(Strip(s));
  }

  /** Position of the first `c` in `s`. */
  function IndexOf(s: string, c: char): (i: nat)
    requires c in s
    ensures i < |s| && s[i] == c && c !in s[..i]
  {
    if s[0] == c then 0 else 1 + IndexOf(s[1..], c)
  }

  lemma IndexOfFirst(s: string, c: char, i: nat)
    requires i < |s| && s[i] == c && c !in s[..i]
    ensures IndexOf(s, c) == i
  {
  }

  /** `sep.join(parts)` */
  function JoinWith(sep: string, parts: seq<string>): string {
    if |parts| == 0 then ""
    else if |parts| == 1 then parts[0]
    else parts[0] + sep + JoinWith(sep, parts[1..])
  }

  /** `s.split(sep)` for a one-character separator: the pieces between
      separators, empty ones included, so there is always at least one. */
  function Split(s: string, sep: char): (r: seq<string>)
    ensures |r| >= 1
    ensures forall p | p in r :: sep !in p
    ensures JoinWith([sep], r) == s
    decreases |s|
  {
    if sep !in s then [s]
    else
      var i := IndexOf(s, sep);
      var rest := Split(s[i + 1..], sep);
      assert s == s[..i] + [sep] + s[i + 1..];
      [s[..i]] + rest
  }

  /** Splitting a join of separator-free parts gives the parts back. */
  lemma {:induction false} SplitJoin(parts: seq<string>, sep: char)
    requires |parts| >= 1
    requires forall p | p in parts :: sep !in p
    ensures Split(JoinWith([sep], parts), sep) == parts
  {
    if |parts| == 1 {
    } else {
      var s := JoinWith([sep], parts);
      var tail := JoinWith([sep], parts[1..]);
      assert s == parts[0] + [sep] + tail;
      assert s[|parts[0]|] == sep;
      assert s[..|parts[0]|] == parts[0];
      IndexOfFirst(s, sep, |parts[0]|);
      assert s[|parts[0]| + 1..] == tail;
      SplitJoin(parts[1..], sep);
    }
  }

  /** `[p.strip() for p in parts if p.strip()]` */
  function StripAll(parts: seq<string>): (r: seq<string>)
    ensures |r| <= |parts|
    ensures forall i | 0 <= i < |r| :: r[i] != "" && Strip(r[i]) == r[i]
  {
    if |parts| == 0 then []
    else
      var t := Strip(parts[0]);
      StripIdempotent(parts[0]);
      (if t == "" then [] else [t]) + StripAll(parts[1..])
  }

  /** Stripping never introduces a character. */
  lemma {:induction false} StripAllAvoids(parts: seq<string>, c: char)
    requires forall i | 0 <= i < |parts| :: c !in parts[i]
    ensures forall i | 0 <= i < |StripAll(parts)| :: c !in StripAll(parts)[i]
  {
    if |parts| > 0 {
      var p := parts[0];
      StripAllAvoids(parts[1..], c);
      assert c !in p;
      assert Strip(p) == p[StripStart(p)..StripStop(p)];
      assert c !in Strip(p);
      StripAllCons(parts);
    }
  }

  /** The configuration idiom `[_.strip() for _ in s.split(sep) if _.strip()]`:
      exactly the non-blank pieces, stripped (their order is pinned down by
      `SplitTrimmedOne` and `SplitTrimmedAppend`). */
  function SplitTrimmed(s: string, sep: char): (r: seq<string>)
    ensures forall t | t in r :: t != "" && Strip(t) == t && sep !in t
    ensures forall t :: t in r <==> t != "" && exists p | p in Split(s, sep) :: Strip(p) == t
  {
    var parts := Split(s, sep);
    assert forall i | 0 <= i < |parts| :: parts[i] in parts;
    StripAllAvoids(parts, sep);
    StripAllMembers(parts);
    StripAll(parts)
  }

  /** The kept items are the non-blank stripped parts. */
  lemma {:induction false} StripAllMembers(parts: seq<string>)
    ensures forall t :: t in StripAll(parts) <==> t != "" && exists p | p in parts :: Strip(p) == t
  {
    if |parts| > 0 {
      var head := Strip(parts[0]);
      var tail := parts[1..];
      var rest := StripAll(tail);
      StripAllMembers(tail);
      StripAllCons(parts);
      assert parts == [parts[0]] + tail;
      forall t ensures t in StripAll(parts) <==> t != "" && exists p | p in parts :: Strip(p) == t {
        if t != "" && t != head {
          assert (exists p | p in parts :: Strip(p) == t) <==> (exists p | p in tail :: Strip(p) == t);
        }
      }
    }
  }

  /** A text without the separator is one item, or none when it is blank. */
  lemma SplitTrimmedOne(s: string, sep: char)
    requires sep !in s
    ensures SplitTrimmed(s, sep) == if Strip(s) == "" then [] else [Strip(s)]
  {
    assert Split(s, sep) == [s];
    StripAllCons([s]);
    assert [s][1..] == [];
  }

  /** Items come out in the order of the text: what precedes the first
      separator comes first. */
  lemma SplitTrimmedAppend(a: string, sep: char, b: string)
    requires sep !in a
    ensures SplitTrimmed(a + [sep] + b, sep) == SplitTrimmed(a, sep) + SplitTrimmed(b, sep)
  {
    var s := a + [sep] + b;
    assert Split(s, sep) == [a] + Split(b, sep) by {
      assert s[|a|] == sep && s[..|a|] == a;
      IndexOfFirst(s, sep, |a|);
      assert s[|a| + 1..] == b;
    }
    StripAllCons([a] + Split(b, sep));
    assert ([a] + Split(b, sep))[1..] == Split(b, sep);
    SplitTrimmedOne(a, sep);
  }

  lemma {:induction false} StripAllClean(parts: seq<string>)
    requires forall i | 0 <= i < |parts| :: parts[i] != "" && Strip(parts[i]) == parts[i]
    ensures StripAll(parts) == parts
  {
    if |parts| > 0 {
      var tail := parts[1..];
      assert forall i | 0 <= i < |tail| :: tail[i] == parts[i + 1];
      StripAllClean(tail);
      StripAllCons(parts);
      assert Strip(parts[0]) == parts[0] != "";
      assert [parts[0]] + tail == parts;
    }
  }

  lemma StripAllCons(parts: seq<string>)
    requires |parts| > 0
    ensures StripAll(parts) ==
      (if Strip(parts[0]) == "" then [] else [Strip(parts[0])]) + StripAll(parts[1..])
  {
  }

  /** Joining clean items with the separator and trimming-splitting again
      gives the items back. */
  lemma SplitTrimmedJoin(items: seq<string>, sep: char)
    requires forall t | t in items :: t != "" && Strip(t) == t && sep !in t
    ensures SplitTrimmed(JoinWith([sep], items), sep) == items
  {
    if |items| == 0 {
      assert JoinWith([sep], items) == "";
      assert Split("", sep) == [""];
      assert Strip("") == "";
    } else {
      SplitJoin(items, sep);
      assert forall i | 0 <= i < |items| :: items[i] in items;
      StripAllClean(items);
    }
  }

  // ---------------------------------------------------------------------
  // Python's ordering of strings (code point by code point) and `sorted`.

  /** `a < b` on Python strings. */
  predicate Below(a: string, b: string) {
    if |a| == 0 then |b| > 0
    else if |b| == 0 then false
    else if a[0] != b[0] then a[0] < b[0]
    else Below(a[1..], b[1..])
  }

  lemma BelowIrreflexive(a: string)
    ensures !Below(a, a)
  {
  }

  lemma {:induction false} BelowTransitive(a: string, b: string, c: string)
    requires Below(a, b) && Below(b, c)
    ensures Below(a, c)
  {
    if |a| > 0 && |b| > 0 && |c| > 0 && a[0] == b[0] && b[0] == c[0] {
      BelowTransitive(a[1..], b[1..], c[1..]);
    }
  }

  lemma {:induction false} BelowTotal(a: string, b: string)
    requires a != b
    ensures Below(a, b) || Below(b, a)
  {
    if |a| > 0 && |b| > 0 && a[0] == b[0] {
      assert a == [a[0]] + a[1..] && b == [b[0]] + b[1..];
      BelowTotal(a[1..], b[1..]);
    }
  }

  lemma {:induction false} BelowAsymmetric(a: string, b: string)
    requires Below(a, b)
    ensures !Below(b, a)
  {
    if |a| > 0 && |b| > 0 && a[0] == b[0] {
      BelowAsymmetric(a[1..], b[1..]);
    }
  }

  predicate StrictlySorted(xs: seq<string>) {
    forall i, j | 0 <= i < j < |xs| :: Below(xs[i], xs[j])
  }

  /** Puts `x` into its place in a strictly sorted list, unless already there. */
  function Insert(x: string, xs: seq<string>): (r: seq<string>)
    requires StrictlySorted(xs)
    ensures StrictlySorted(r)
    ensures forall y :: y in r <==> y == x || y in xs
  {
    if |xs| == 0 then [x]
    else if x == xs[0] then xs
    else if Below(x, xs[0]) then
      assert forall j | 0 < j < |xs| :: Below(x, xs[j]) by {
        forall j | 0 < j < |xs| ensures Below(x, xs[j]) {
          BelowTransitive(x, xs[0], xs[j]);
        }
      }
      [x] + xs
    else
      BelowTotal(x, xs[0]);
      var rest := Insert(x, xs[1..]);
      assert forall y | y in rest :: Below(xs[0], y);
      [xs[0]] + rest
  }

  /** `sorted(set(xs))`: the distinct elements of `xs` in ascending order. */
  function SortDistinct(xs: seq<string>): (r: seq<string>)
    ensures StrictlySorted(r)
    ensures forall y :: y in r <==> y in xs
  {
    if |xs| == 0 then [] else Insert(xs[0], SortDistinct(xs[1..]))
  }

  /** A set has exactly one strictly sorted listing, so `SortDistinct`
      agrees with Python's `sorted` applied to the set of names. */
  lemma {:induction false} SortedUnique(a: seq<string>, b: seq<string>)
    requires StrictlySorted(a) && StrictlySorted(b)
    requires forall y :: y in a <==> y in b
    ensures a == b
  {
    if |a| > 0 {
      assert a[0] in a;
    }
    if |b| > 0 {
      assert b[0] in b;
    }
    if |a| > 0 && |b| > 0 {
      if a[0] != b[0] {
        assert a[0] in b && b[0] in a;
        var k :| 0 <= k < |b| && b[k] == a[0];
        var m :| 0 <= m < |a| && a[m] == b[0];
        assert k > 0 && m > 0;
        assert Below(b[0], a[0]) && Below(a[0], b[0]);
        BelowAsymmetric(a[0], b[0]);
      }
      forall y ensures y in a[1..] <==> y in b[1..] {
        if y in a[1..] {
          var m :| 0 <= m < |a| - 1 && a[1..][m] == y;
          assert Below(a[0], a[m + 1]);
          BelowIrreflexive(y);
          assert y in b && y != b[0];
          var k :| 0 <= k < |b| && b[k] == y;
          assert b[1..][k - 1] == y;
        }
        if y in b[1..] {
          var m :| 0 <= m < |b| - 1 && b[1..][m] == y;
          assert Below(b[0], b[m + 1]);
          BelowIrreflexive(y);
          assert y in a && y != a[0];
          var k :| 0 <= k < |a| && a[k] == y;
          assert a[1..][k - 1] == y;
        }
      }
      SortedUnique(a[1..], b[1..]);
    }
  }

  // ---------------------------------------------------------------------
  // Decimal text: `str(n)` and its inverse.

  function DigitChar(d: nat): (c: char)
    requires d < 10
    ensures '0' <= c <= '9'
  {
    ('0' as int + d) as char
  }

  predicate IsDigit(c: char) {
    '0' <= c <= '9'
  }

  predicate AllDigits(s: string) {
    forall i | 0 <= i < |s| :: IsDigit(s[i])
  }

  /** `str(n)` for a natural number: no leading zeros, at least one digit. */
  function NatToString(n: nat): (r: string)
    ensures |r| >= 1 && AllDigits(r)
    ensures r[0] == '0' ==> n == 0
  {
    if n < 10 then [DigitChar(n)] else NatToString(n / 10) + [DigitChar(n % 10)]
  }

  /** Reads a run of decimal digits. */
  function DigitsValue(s: string): nat
    requires AllDigits(s)
  {
    if |s| == 0 then 0
    else DigitsValue(s[..|s| - 1]) * 10 + (s[|s| - 1] as int - '0' as int)
  }

  lemma {:induction false} DigitsValueOfNat(n: nat)
    ensures DigitsValue(NatToString(n)) == n
  {
    if n >= 10 {
      var s := NatToString(n);
      assert s[..|s| - 1] == NatToString(n / 10);
      DigitsValueOfNat(n / 10);
    }
  }

  /** `str(n)` for any Python int. */
  function IntToString(n: int): (r: string)
    ensures |r| >= 1
    ensures n >= 0 ==> AllDigits(r)
    ensures n < 0 ==> r[0] == '-' && AllDigits(r[1..])
  {
    if n < 0 then "-" + NatToString(-n) else NatToString(n)
  }

  /** Reads back what `IntToString` wrote, or `None`-like failure as `false`. */
  function ParseInt(s: string): (r: (bool, int)) {
    if |s| > 0 && s[0] == '-' && AllDigits(s[1..]) then (true, -(DigitsValue(s[1..]) as int))
    else if AllDigits(s) && |s| > 0 then (true, DigitsValue(s))
    else (false, 0)
  }

  lemma IntToStringRoundTrip(n: int)
    ensures ParseInt(IntToString(n)) == (true, n)
  {
    var s := IntToString(n);
    if n < 0 {
      var t := NatToString(-n);
      assert s == "-" + t && s[1..] == t;
      DigitsValueOfNat(-n);
      assert ParseInt(s) == (true, -(DigitsValue(t) as int));
    } else {
      DigitsValueOfNat(n);
      assert s[0] != '-';
    }
  }

  /** `'%0*d' % (width, n)`: left-pads with zeros to `width` digits. */
  function ZeroPad(n: nat, width: nat): (r: string)
    ensures AllDigits(r)
    ensures |r| == if |NatToString(n)| < width then width else |NatToString(n)|
  {
    var s := NatToString(n);
    if |s| < width then seq(width - |s|, _ => '0') + s else s
  }

  lemma {:induction false} DigitsValueLeadingZeros(z: string, s: string)
    requires AllDigits(s)
    requires forall i | 0 <= i < |z| :: z[i] == '0'
    ensures AllDigits(z + s)
    ensures DigitsValue(z + s) == DigitsValue(s) + DigitsValue(z) * Pow10(|s|)
  {
    if |s| > 0 {
      var t := s[..|s| - 1];
      var d := s[|s| - 1] as int - '0' as int;
      var zs := z + s;
      assert zs[..|zs| - 1] == z + t && zs[|zs| - 1] == s[|s| - 1];
      assert AllDigits(zs) by {
        forall i | 0 <= i < |zs| ensures IsDigit(zs[i]) {
          if i >= |z| {
            assert zs[i] == s[i - |z|];
          }
        }
      }
      DigitsValueLeadingZeros(z, t);
      var v := DigitsValue(z);
      var p := Pow10(|t|);
      assert DigitsValue(zs) == DigitsValue(z + t) * 10 + d;
      assert DigitsValue(z + t) == DigitsValue(t) + v * p;
      assert DigitsValue(s) == DigitsValue(t) * 10 + d;
      assert Pow10(|s|) == 10 * p;
      ShiftDigit(DigitsValue(t), v, p);
    } else {
      assert z + s == z;
    }
  }

  lemma ShiftDigit(a: int, v: int, p: int)
    ensures (a + v * p) * 10 == a * 10 + v * (10 * p)
  {
  }

  function Pow10(k: nat): nat {
    if k == 0 then 1 else 10 * Pow10(k - 1)
  }

  lemma {:induction false} DigitsValueZeros(z: string)
    requires forall i | 0 <= i < |z| :: z[i] == '0'
    ensures AllDigits(z) && DigitsValue(z) == 0
  {
    if |z| > 0 {
      DigitsValueZeros(z[..|z| - 1]);
    }
  }

  /** Zero padding does not change the number that is read back. */
  lemma ZeroPadRoundTrip(n: nat, width: nat)
    ensures DigitsValue(ZeroPad(n, width)) == n
  {
    var s := NatToString(n);
    DigitsValueOfNat(n);
    if |s| < width {
      var z := seq(width - |s|, _ => '0');
      DigitsValueZeros(z);
      DigitsValueLeadingZeros(z, s);
    }
  }
}
