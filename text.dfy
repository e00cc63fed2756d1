/** The Python string operations the modelled code relies on: `strip`,
    `rstrip`, `split` with an explicit separator, `join`, `find`, decimal
    `int()`/`str()` of non-negative numbers and the lexicographic `<` of
    strings. Strings are sequences of characters. */
module Text {
  import opened Outcomes

  /** Whitespace as Python 2 `str.strip()` and the regex class `\s` see it:
      space, tab, newline, carriage return, vertical tab and form feed. */
  predicate IsSpace(c: char) {
    c == ' ' || c == '\t' || c == '\n' || c == '\r' || c == '\U{B}' || c == '\U{C}'
  }

  /** The regex class `\d` (ASCII digits). */
  predicate IsDigit(c: char) {
    '0' <= c <= '9'
  }

  predicate AllDigits(s: string) {
    forall i :: 0 <= i < |s| ==> IsDigit(s[i])
  }

  predicate AllSpace(s: string) {
    forall i :: 0 <= i < |s| ==> IsSpace(s[i])
  }

  predicate OccursAt(s: string, p: string, i: int) {
    0 <= i && i + |p| <= |s| && s[i..i + |p|] == p
  }

  predicate Contains(s: string, p: string) {
    exists i :: 0 <= i <= |s| && OccursAt(s, p, i)
  }

  predicate StartsWith(s: string, p: string) {
    |p| <= |s| && s[..|p|] == p
  }

  predicate EndsWith(s: string, p: string) {
    |p| <= |s| && s[|s| - |p|..] == p
  }

  /** `s.lstrip()`: the longest suffix of `s` that does not start with whitespace. */
  function LStrip(s: string): (r: string)
    ensures |r| <= |s| && r == s[|s| - |r|..]
    ensures AllSpace(s[..|s| - |r|])
    ensures r == [] || !IsSpace(r[0])
    decreases |s|
  {
    if s != [] && IsSpace(s[0]) then LStrip(s[1..]) else s
  }

  /** `s.rstrip()`: the longest prefix of `s` that does not end with whitespace. */
  function RStrip(s: string): (r: string)
    ensures |r| <= |s| && r == s[..|r|]
    ensures AllSpace(s[|r|..])
    ensures r == [] || !IsSpace(r[|r| - 1])
    decreases |s|
  {
    if s != [] && IsSpace(s[|s| - 1]) then RStrip(s[..|s| - 1]) else s
  }

  /** `s.strip()`. */
  function Strip(s: string): string {
    RStrip(LStrip(s))
  }

  /** `s.find(p)`, with `None` for Python's -1: the first position at which `p` occurs. */
  function IndexOf(s: string, p: string): (r: Option<nat>)
    requires |p| > 0
    ensures r.Some? ==> OccursAt(s, p, r.value) && forall j :: 0 <= j < r.value ==> !OccursAt(s, p, j)
    ensures r.None? ==> forall j :: !OccursAt(s, p, j)
  {
    IndexFrom(s, p, 0)
  }

  /** The first position at or after `k` at which `p` occurs. */
  function IndexFrom(s: string, p: string, k: nat): (r: Option<nat>)
    requires |p| > 0
    ensures r.Some? ==> k <= r.value && OccursAt(s, p, r.value)
    ensures r.Some? ==> forall j :: k <= j < r.value ==> !OccursAt(s, p, j)
    ensures r.None? ==> forall j :: k <= j ==> !OccursAt(s, p, j)
    decreases |s| - k
  {
    if k + |p| > |s| then None
    else if s[k..k + |p|] == p then Some(k)
    else IndexFrom(s, p, k + 1)
  }

  /** `s.split(sep)` for a non-empty separator: the pieces between the
      successive leftmost occurrences of `sep`. */
  function SplitOn(s: string, sep: string): (r: seq<string>)
    requires |sep| > 0
    ensures |r| >= 1
    decreases |s|
  {
    match IndexOf(s, sep)
    case None => [s]
    case Some(i) => [s[..i]] + SplitOn(s[i + |sep|..], sep)
  }

  /** `sep.join(ls)`. */
  function Join(ls: seq<string>, sep: string): string
    decreases |ls|
  {
    if |ls| == 0 then ""
    else if |ls| == 1 then ls[0]
    else ls[0] + sep + Join(ls[1..], sep)
  }

  /** A join holds only characters of its pieces and its separator. */
  lemma {:induction false} JoinKeepsAbsent(ls: seq<string>, sep: string, d: char)
    requires d !in sep
    requires forall k :: 0 <= k < |ls| ==> d !in ls[k]
    ensures d !in Join(ls, sep)
    decreases |ls|
  {
    if |ls| > 1 {
      JoinKeepsAbsent(ls[1..], sep, d);
    }
  }

  /** Joining the pieces of a split gives the original string back. */
  lemma {:induction false} JoinSplitOn(s: string, sep: string)
    requires |sep| > 0
    ensures Join(SplitOn(s, sep), sep) == s
    decreases |s|
  {
    var found := IndexOf(s, sep);
    if found.Some? {
      var i := found.value;
      var rest := s[i + |sep|..];
      JoinSplitOn(rest, sep);
      SplitOnFound(s, sep, i);
      JoinCons(s[..i], SplitOn(rest, sep), sep);
      SliceAround(s, i, |sep|);
    }
  }

  lemma SplitOnFound(s: string, sep: string, i: nat)
    requires |sep| > 0 && IndexOf(s, sep) == Some(i)
    ensures SplitOn(s, sep) == [s[..i]] + SplitOn(s[i + |sep|..], sep)
  {
  }

  lemma SliceAround(s: string, i: nat, n: nat)
    requires i + n <= |s|
    ensures s == s[..i] + s[i..i + n] + s[i + n..]
  {
  }

  lemma JoinCons(x: string, ls: seq<string>, sep: string)
    requires |ls| >= 1
    ensures Join([x] + ls, sep) == x + sep + Join(ls, sep)
  {
    assert ([x] + ls)[1..] == ls;
  }

  /** No piece of a split contains the separator. */
  lemma {:induction false} SplitOnPiecesFree(s: string, sep: string)
    requires |sep| > 0
    ensures forall k :: 0 <= k < |SplitOn(s, sep)| ==> !Contains(SplitOn(s, sep)[k], sep)
    decreases |s|
  {
    var found := IndexOf(s, sep);
    if found.Some? {
      var i := found.value;
      var rest := s[i + |sep|..];
      SplitOnPiecesFree(rest, sep);
      SplitOnFound(s, sep, i);
      BeforeFirstFree(s, sep, i);
      ConsFree(s[..i], SplitOn(rest, sep), sep);
    }
  }

  lemma ConsFree(x: string, rs: seq<string>, sep: string)
    requires !Contains(x, sep)
    requires forall k :: 0 <= k < |rs| ==> !Contains(rs[k], sep)
    ensures forall k :: 0 <= k < |[x] + rs| ==> !Contains(([x] + rs)[k], sep)
  {
    forall k | 0 <= k < |[x] + rs|
      ensures !Contains(([x] + rs)[k], sep)
    {
      if k > 0 {
        assert ([x] + rs)[k] == rs[k - 1];
      }
    }
  }

  /** The text before the first occurrence holds no occurrence. */
  lemma BeforeFirstFree(s: string, sep: string, i: nat)
    requires |sep| > 0 && IndexOf(s, sep) == Some(i)
    ensures !Contains(s[..i], sep)
  {
    forall j | 0 <= j <= i
      ensures !OccursAt(s[..i], sep, j)
    {
      if j + |sep| <= i {
        assert !OccursAt(s, sep, j);
        assert s[..i][j..j + |sep|] == s[j..j + |sep|];
      }
    }
  }

  /** A split's pieces hold only characters of the split string. */
  lemma {:induction false} SplitOnKeepsAbsent(s: string, sep: string, d: char)
    requires |sep| > 0 && d !in s
    ensures forall k :: 0 <= k < |SplitOn(s, sep)| ==> d !in SplitOn(s, sep)[k]
    decreases |s|
  {
    var found := IndexOf(s, sep);
    if found.Some? {
      var i := found.value;
      var rest := s[i + |sep|..];
      SplitOnKeepsAbsent(rest, sep, d);
      SplitOnFound(s, sep, i);
      assert d !in s[..i];
    }
  }

  /** A character-separated split never yields a piece containing that character. */
  lemma SplitOnCharFree(s: string, c: char)
    ensures forall k :: 0 <= k < |SplitOn(s, [c])| ==> c !in SplitOn(s, [c])[k]
  {
    SplitOnPiecesFree(s, [c]);
    var r := SplitOn(s, [c]);
    forall k, j | 0 <= k < |r| && 0 <= j < |r[k]|
      ensures r[k][j] != c
    {
      if r[k][j] == c {
        assert r[k][j..j + 1] == [c];
        assert OccursAt(r[k], [c], j);
      }
    }
  }

  lemma SplitOnCharPieceFree(s: string, c: char, k: nat)
    requires k < |SplitOn(s, [c])|
    ensures c !in SplitOn(s, [c])[k]
  {
    SplitOnCharFree(s, c);
  }

  /** Finding a character: none when it is absent, else its first position. */
  lemma IndexOfChar(s: string, c: char)
    ensures IndexOf(s, [c]).None? <==> c !in s
    ensures IndexOf(s, [c]).Some? ==> s[IndexOf(s, [c]).value] == c && c !in s[..IndexOf(s, [c]).value]
  {
    var r := IndexOf(s, [c]);
    forall j | 0 <= j < |s|
      ensures OccursAt(s, [c], j) <==> s[j] == c
    {
      assert s[j..j + 1] == [s[j]];
    }
  }

  lemma IndexOfCharAbsent(a: string, c: char)
    requires c !in a
    ensures IndexOf(a, [c]) == None
  {
    forall j | 0 <= j < |a|
      ensures !OccursAt(a, [c], j)
    {
      assert a[j..j + 1] == [a[j]];
    }
  }

  lemma IndexOfCharAfter(a: string, c: char, b: string)
    requires c !in a
    ensures IndexOf(a + [c] + b, [c]) == Some(|a|)
  {
    var s := a + [c] + b;
    assert s[|a|..|a| + 1] == [c];
    assert OccursAt(s, [c], |a|);
    forall j | 0 <= j < |a|
      ensures !OccursAt(s, [c], j)
    {
      assert s[j..j + 1] == [a[j]];
    }
  }

  /** Splitting at a character: the text up to its first occurrence is the first piece. */
  lemma SplitOnCharAfter(a: string, c: char, b: string)
    requires c !in a
    ensures SplitOn(a + [c] + b, [c]) == [a] + SplitOn(b, [c])
  {
    IndexOfCharAfter(a, c, b);
    var s := a + [c] + b;
    assert s[..|a|] == a;
    assert s[|a| + 1..] == b;
  }

  lemma SplitOnCharAbsent(a: string, c: char)
    requires c !in a
    ensures SplitOn(a, [c]) == [a]
  {
    IndexOfCharAbsent(a, c);
  }

  /** Splitting a join at a character that no piece contains gives the pieces back. */
  lemma {:induction false} SplitOnJoinChar(ls: seq<string>, c: char)
    requires |ls| >= 1
    requires forall k :: 0 <= k < |ls| ==> c !in ls[k]
    ensures SplitOn(Join(ls, [c]), [c]) == ls
    decreases |ls|
  {
    if |ls| == 1 {
      SplitOnCharAbsent(ls[0], c);
    } else {
      SplitOnJoinChar(ls[1..], c);
      SplitOnCharAfter(ls[0], c, Join(ls[1..], [c]));
      assert ls == [ls[0]] + ls[1..];
    }
  }

  /** A separator whose first character occurs nowhere else in it cannot
      start inside a piece free of it and end in the separator after it:
      the first occurrence in `x + sep + rest` is the one after `x`. */
  lemma FirstOccurrenceAfter(x: string, sep: string, rest: string)
    requires |sep| > 0 && sep[0] !in sep[1..] && !Contains(x, sep)
    ensures IndexOf(x + sep + rest, sep) == Some(|x|)
  {
    var s := x + sep + rest;
    assert s[|x|..|x| + |sep|] == sep;
    assert OccursAt(s, sep, |x|);
    forall j | 0 <= j < |x|
      ensures !OccursAt(s, sep, j)
    {
      if j + |sep| <= |x| {
        assert s[j..j + |sep|] == x[j..j + |sep|];
        assert !OccursAt(x, sep, j);
      } else if j + |sep| <= |s| {
        var t := |x| - j;
        assert sep[1..][t - 1] == sep[t];
        assert s[j..j + |sep|][t] == s[|x|] == sep[0];
      }
    }
  }

  /** Splitting a join at a separator that no piece contains, and whose
      first character occurs nowhere else in it, gives the pieces back. */
  lemma {:induction false} SplitOnJoin(xs: seq<string>, sep: string)
    requires |xs| >= 1 && |sep| > 0 && sep[0] !in sep[1..]
    requires forall k :: 0 <= k < |xs| ==> !Contains(xs[k], sep)
    ensures SplitOn(Join(xs, sep), sep) == xs
    decreases |xs|
  {
    if |xs| == 1 {
      assert IndexOf(xs[0], sep).None?;
    } else {
      var rest := Join(xs[1..], sep);
      var s := xs[0] + sep + rest;
      assert Join(xs, sep) == s;
      FirstOccurrenceAfter(xs[0], sep, rest);
      SplitOnFound(s, sep, |xs[0]|);
      assert s[..|xs[0]|] == xs[0];
      assert s[|xs[0]| + |sep|..] == rest;
      SplitOnJoin(xs[1..], sep);
      assert xs == [xs[0]] + xs[1..];
    }
  }

  /** A concatenation ends in its second part. */
  lemma EndsWithAppend(a: string, b: string)
    ensures EndsWith(a + b, b)
  {
    assert (a + b)[|a|..] == b;
  }

  /** A text ending in `b`, which ends in `c`, ends in `c`. */
  lemma EndsWithTrans(a: string, b: string, c: string)
    requires EndsWith(a, b) && EndsWith(b, c)
    ensures EndsWith(a, c)
  {
    assert a[|a| - |c|..] == b[|b| - |c|..];
  }

  /** The last piece of `s.split(c)` ends `s`, and is either all of `s` or
      comes right after a `c`. */
  lemma SplitOnCharLast(s: string, c: char)
    ensures var r := Last(SplitOn(s, [c]));
            EndsWith(s, r) && (r == s || s[|s| - |r| - 1] == c)
  {
    var parts := SplitOn(s, [c]);
    var r := Last(parts);
    JoinSplitOn(s, [c]);
    if |parts| == 1 {
      assert Join(parts, [c]) == parts[0];
    } else {
      JoinEndsWithSepLast(parts, [c]);
      assert s[|s| - |r| - 1..] == [c] + r;
      assert s[|s| - |r|..] == ([c] + r)[1..];
    }
  }

  /** A join of two or more pieces ends with the separator and the last piece. */
  lemma {:induction false} JoinEndsWithSepLast(ls: seq<string>, sep: string)
    requires |ls| >= 2
    ensures EndsWith(Join(ls, sep), sep + Last(ls))
    decreases |ls|
  {
    if |ls| == 2 {
      assert Join(ls, sep) == ls[0] + (sep + ls[1]);
    } else {
      JoinEndsWithSepLast(ls[1..], sep);
      assert Last(ls[1..]) == Last(ls);
      assert Join(ls, sep) == ls[0] + sep + Join(ls[1..], sep);
      assert EndsWith(Join(ls, sep), Join(ls[1..], sep));
      EndsWithTrans(Join(ls, sep), Join(ls[1..], sep), sep + Last(ls));
    }
  }


  /** A join ends with its last piece. */
  lemma {:induction false} JoinEndsWithLast(ls: seq<string>, sep: string)
    requires |ls| >= 1
    ensures EndsWith(Join(ls, sep), ls[|ls| - 1])
    decreases |ls|
  {
    if |ls| > 1 {
      JoinEndsWithLast(ls[1..], sep);
      var j := Join(ls[1..], sep);
      var last := ls[|ls| - 1];
      assert ls[1..][|ls| - 2] == last;
      assert (ls[0] + sep + j)[|ls[0] + sep + j| - |last|..] == j[|j| - |last|..];
    }
  }

  /** The length of the run of digits at the start of `s`. */
  function DigitRun(s: string): (n: nat)
    ensures n <= |s|
    ensures AllDigits(s[..n])
    ensures n == |s| || !IsDigit(s[n])
    decreases |s|
  {
    if s != [] && IsDigit(s[0]) then 1 + DigitRun(s[1..]) else 0
  }

  lemma {:induction false} DigitRunOfDigits(ds: string, rest: string)
    requires AllDigits(ds)
    requires rest == [] || !IsDigit(rest[0])
    ensures DigitRun(ds + rest) == |ds|
    decreases |ds|
  {
    if ds != [] {
      assert (ds + rest)[1..] == ds[1..] + rest;
      DigitRunOfDigits(ds[1..], rest);
    } else {
      assert ds + rest == rest;
    }
  }

  /** Python `int()` of a string of ASCII digits. */
  function DigitsValue(s: string): nat
    requires AllDigits(s)
    decreases |s|
  {
    if s == [] then 0
    else DigitsValue(s[..|s| - 1]) * 10 + (s[|s| - 1] as int - '0' as int)
  }

  function DigitChar(d: nat): (c: char)
    requires d < 10
    ensures IsDigit(c) && c as int - '0' as int == d
  {
    ('0' as int + d) as char
  }

  /** Python `str()` / `'{}'.format()` of a non-negative integer. */
  function NatToString(n: nat): (r: string)
    ensures |r| >= 1 && AllDigits(r)
    decreases n
  {
    if n < 10 then [DigitChar(n)] else NatToString(n / 10) + [DigitChar(n % 10)]
  }

  /** `int(str(n)) == n`. */
  lemma {:induction false} DigitsValueOfNatToString(n: nat)
    ensures DigitsValue(NatToString(n)) == n
    decreases n
  {
    if n >= 10 {
      DigitsValueOfNatToString(n / 10);
      var r := NatToString(n);
      assert r[..|r| - 1] == NatToString(n / 10);
    }
  }

  /** Python's `<` on strings: code point by code point, a proper prefix first. */
  predicate LexLess(a: string, b: string)
    decreases |a|
  {
    if a == [] then b != []
    else if b == [] then false
    else if a[0] != b[0] then a[0] < b[0]
    else LexLess(a[1..], b[1..])
  }

  predicate LexLe(a: string, b: string) {
    a == b || LexLess(a, b)
  }

  lemma {:induction false} LexLessIrreflexive(a: string)
    ensures !LexLess(a, a)
    decreases |a|
  {
    if a != [] {
      LexLessIrreflexive(a[1..]);
    }
  }

  lemma {:induction false} LexLessTransitive(a: string, b: string, c: string)
    requires LexLess(a, b) && LexLess(b, c)
    ensures LexLess(a, c)
    decreases |a|
  {
    if a != [] && a[0] == b[0] && b[0] == c[0] {
      LexLessTransitive(a[1..], b[1..], c[1..]);
    }
  }

  lemma {:induction false} LexLessTotal(a: string, b: string)
    ensures a == b || LexLess(a, b) || LexLess(b, a)
    decreases |a|
  {
    if a != [] && b != [] && a[0] == b[0] {
      LexLessTotal(a[1..], b[1..]);
      if a[1..] == b[1..] {
        assert a == [a[0]] + a[1..];
        assert b == [b[0]] + b[1..];
      }
    }
  }

  lemma LexLessAsymmetric(a: string, b: string)
    requires LexLess(a, b)
    ensures !LexLess(b, a)
  {
    if LexLess(b, a) {
      LexLessTransitive(a, b, a);
      LexLessIrreflexive(a);
    }
  }

  lemma LexLeAntisymmetric(a: string, b: string)
    requires LexLe(a, b) && LexLe(b, a)
    ensures a == b
  {
    if a != b {
      LexLessAsymmetric(a, b);
    }
  }

  lemma LexLeTransitive(a: string, b: string, c: string)
    requires LexLe(a, b) && LexLe(b, c)
    ensures LexLe(a, c)
  {
    if a != b && b != c {
      LexLessTransitive(a, b, c);
    }
  }
}
