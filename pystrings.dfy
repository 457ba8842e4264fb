/**
 * The few pieces of Python's `str` that the translator relies on, with their
 * Python semantics: `strip`, `in` (substring test), `split(sep)`, `sep.join`,
 * `replace`, `lower` and `str(int)`.
 */
module PyStrings {
  import opened Wrappers

  /** The characters for which Python's `str.isspace()` holds; `str.strip()` removes these. */
  const Whitespace: set<char> := {
    '\t', '\n', '\U{000B}', '\U{000C}', '\r', '\U{001C}', '\U{001D}', '\U{001E}', '\U{001F}', ' ',
    '\U{0085}', '\U{00A0}', '\U{1680}', '\U{2000}', '\U{2001}', '\U{2002}', '\U{2003}', '\U{2004}',
    '\U{2005}', '\U{2006}', '\U{2007}', '\U{2008}', '\U{2009}', '\U{200A}', '\U{2028}', '\U{2029}',
    '\U{202F}', '\U{205F}', '\U{3000}'
  }

  function TrimLeft(s: string, cs: set<char>): (r: string)
    ensures |r| <= |s|
    ensures r == [] || r[0] !in cs
    decreases |s|
  {
    if |s| > 0 && s[0] in cs then TrimLeft(s[1..], cs) else s
  }

  function TrimRight(s: string, cs: set<char>): (r: string)
    ensures |r| <= |s|
    ensures r == [] || r[|r| - 1] !in cs
    decreases |s|
  {
    if |s| > 0 && s[|s| - 1] in cs then TrimRight(s[..|s| - 1], cs) else s
  }

  /** Python `s.strip(chars)`: drops leading and trailing characters that are in `cs`. */
  function StripSet(s: string, cs: set<char>): (r: string)
    ensures |r| <= |s|
    ensures r != [] ==> r[0] !in cs && r[|r| - 1] !in cs
  {
    TrimRightPrefix(TrimLeft(s, cs), cs);
    TrimRight(TrimLeft(s, cs), cs)
  }

  lemma {:induction false} TrimRightPrefix(s: string, cs: set<char>)
    ensures TrimRight(s, cs) == s[..|TrimRight(s, cs)|]
    decreases |s|
  {
    if |s| > 0 && s[|s| - 1] in cs {
      TrimRightPrefix(s[..|s| - 1], cs);
    }
  }

  /** Python `s.strip()`. */
  function Strip(s: string): (r: string)
    ensures r != [] ==> r[0] !in Whitespace && r[|r| - 1] !in Whitespace
  {
    StripSet(s, Whitespace)
  }

  /** A line that `if not row.strip()` treats as blank. */
  predicate IsBlank(s: string) {
    Strip(s) == []
  }

  predicate OccursAt(s: string, sub: string, k: nat) {
    k + |sub| <= |s| && s[k..k + |sub|] == sub
  }

  /** The first occurrence of `sub` in `s` at or after position `k`. */
  function IndexOfFrom(s: string, sub: string, k: nat): (r: Option<nat>)
    requires k <= |s|
    ensures r.Some? ==> k <= r.value && OccursAt(s, sub, r.value)
    ensures r.Some? ==> forall m :: k <= m < r.value ==> !OccursAt(s, sub, m)
    ensures r.None? ==> forall m :: k <= m ==> !OccursAt(s, sub, m)
    decreases |s| - k
  {
    if OccursAt(s, sub, k) then Some(k)
    else if k == |s| then None
    else IndexOfFrom(s, sub, k + 1)
  }

  function IndexOf(s: string, sub: string): Option<nat> {
    IndexOfFrom(s, sub, 0)
  }

  /** Python `sub in s`. */
  predicate Contains(s: string, sub: string) {
    IndexOf(s, sub).Some?
  }

  lemma ContainsIff(s: string, sub: string)
    ensures Contains(s, sub) <==> exists k :: OccursAt(s, sub, k)
  {
  }

  /** Python `s.split(sep)` for a non-empty separator: cuts at every occurrence, left to right. */
  function Split(s: string, sep: string): (r: seq<string>)
    requires |sep| > 0
    ensures |r| > 0
    decreases |s|
  {
    match IndexOf(s, sep)
    case None => [s]
    case Some(i) => [s[..i]] + Split(s[i + |sep|..], sep)
  }

  /** Python `sep.join(xs)`. */
  function Join(sep: string, xs: seq<string>): string
    decreases |xs|
  {
    if |xs| == 0 then ""
    else if |xs| == 1 then xs[0]
    else xs[0] + sep + Join(sep, xs[1..])
  }

  /** Python `s.replace(old, new)`: every non-overlapping occurrence, left to right. */
  function Replace(s: string, target: string, replacement: string): string
    requires |target| > 0
  {
    Join(replacement, Split(s, target))
  }

  /** Joining the pieces of a split with the same separator gives the string back. */
  lemma {:induction false} JoinSplit(s: string, sep: string)
    requires |sep| > 0
    ensures Join(sep, Split(s, sep)) == s
    decreases |s|
  {
    match IndexOf(s, sep)
    case None =>
    case Some(i) =>
      var rest := s[i + |sep|..];
      JoinSplit(rest, sep);
      var tail := Split(rest, sep);
      assert Split(s, sep) == [s[..i]] + tail;
      assert s == s[..i] + sep + rest;
  }

  /** No piece of a split contains the separator. */
  lemma {:induction false} SplitPiecesFree(s: string, sep: string)
    requires |sep| > 0
    ensures forall x :: x in Split(s, sep) ==> !Contains(x, sep)
    decreases |s|
  {
    match IndexOf(s, sep)
    case None =>
    case Some(i) =>
      SplitPiecesFree(s[i + |sep|..], sep);
      PrefixBeforeFirst(s, sep, i);
  }

  /** The text before the first occurrence of `sep` does not contain it. */
  lemma PrefixBeforeFirst(s: string, sep: string, i: nat)
    requires |sep| > 0 && IndexOf(s, sep) == Some(i)
    ensures !Contains(s[..i], sep)
  {
    var head := s[..i];
    assert IndexOfFrom(s, sep, 0) == Some(i);
    forall m: nat ensures !OccursAt(head, sep, m) {
      if m + |sep| <= |head| {
        assert head[m..m + |sep|] == s[m..m + |sep|];
        assert !OccursAt(s, sep, m);
      }
    }
  }

  lemma ContainsChar(s: string, c: char)
    ensures Contains(s, [c]) <==> c in s
  {
    if c in s {
      var k :| 0 <= k < |s| && s[k] == c;
      assert OccursAt(s, [c], k);
    }
    if Contains(s, [c]) {
      var k := IndexOf(s, [c]).value;
      assert s[k] == s[k..k + 1][0] == c;
    }
  }

  lemma JoinAppend(sep: string, xs: seq<string>, ys: seq<string>)
    requires |xs| > 0 && |ys| > 0
    ensures Join(sep, xs + ys) == Join(sep, xs) + sep + Join(sep, ys)
    decreases |xs|
  {
    if |xs| > 1 {
      assert (xs + ys)[1..] == xs[1..] + ys;
      JoinAppend(sep, xs[1..], ys);
    } else {
      assert (xs + ys)[1..] == ys;
    }
  }

  /** For a one-character separator the other round trip holds too. */
  lemma {:induction false} SplitJoinChar(xs: seq<string>, c: char)
    requires |xs| > 0
    requires forall x :: x in xs ==> c !in x
    ensures Split(Join([c], xs), [c]) == xs
    decreases |xs|
  {
    var s := Join([c], xs);
    if |xs| == 1 {
      ContainsChar(s, c);
    } else {
      var rest := Join([c], xs[1..]);
      assert s == xs[0] + [c] + rest;
      assert OccursAt(s, [c], |xs[0]|);
      assert xs[0] in xs;
      forall m | 0 <= m < |xs[0]| ensures !OccursAt(s, [c], m) {
        assert s[m..m + 1][0] == s[m] == xs[0][m];
      }
      assert IndexOf(s, [c]) == Some(|xs[0]|);
      assert s[..|xs[0]|] == xs[0];
      assert s[|xs[0]| + 1..] == rest;
      SplitJoinChar(xs[1..], c);
      assert Split(s, [c]) == [xs[0]] + xs[1..];
    }
  }

  /**
   * Replacing a suffix whose first character does not recur in it, in a string that
   * holds no other occurrence, changes exactly that suffix.
   */
  /** A target that does not occur in `stem`, and cannot overlap itself, first occurs after `stem`. */
  lemma SuffixIsFirst(stem: string, target: string)
    requires |target| > 0 && target[0] !in target[1..]
    requires !Contains(stem, target)
    ensures IndexOf(stem + target, target) == Some(|stem|)
  {
    var s := stem + target;
    assert OccursAt(s, target, |stem|) by { assert s[|stem|..] == target; }
    forall m | 0 <= m < |stem| ensures !OccursAt(s, target, m) {
      if m + |target| <= |stem| {
        assert stem[m..m + |target|] == s[m..m + |target|];
        assert !OccursAt(stem, target, m);
      } else {
        var d := |stem| - m;
        assert 0 < d < |target|;
        assert target[1..][d - 1] == target[d];
        assert target[d] != target[0];
        assert m + |target| > |s| || s[m..m + |target|][d] == s[|stem|] == target[0];
      }
    }
  }

  lemma ReplaceSuffix(stem: string, target: string, replacement: string)
    requires |target| > 0 && target[0] !in target[1..]
    requires !Contains(stem, target)
    ensures Replace(stem + target, target, replacement) == stem + replacement
  {
    var s := stem + target;
    SuffixIsFirst(stem, target);
    assert s[..|stem|] == stem;
    assert s[|stem| + |target|..] == [];
    assert IndexOf([], target) == None;
    assert Split([], target) == [[]];
    assert Split(s, target) == [stem, ""];
    assert Join(replacement, [stem, ""]) == stem + replacement + "";
  }

  /** Python `str.lower()` on one character, for the characters that lower to ASCII letters. */
  function LowerChar(c: char): char {
    if 'A' <= c <= 'Z' then (c as int + 32) as char
    else if c == '\U{212A}' then 'k'  // KELVIN SIGN lowers to the ASCII letter k
    else c
  }

  /** Python `s.lower()`, as far as comparisons with ASCII words can tell. */
  function Lower(s: string): (r: string)
    ensures |r| == |s| && forall i :: 0 <= i < |s| ==> r[i] == LowerChar(s[i])
  {
    seq(|s|, i requires 0 <= i < |s| => LowerChar(s[i]))
  }

  predicate IsDigit(c: char) {
    '0' <= c <= '9'
  }

  function DigitChar(d: nat): char
    requires d < 10
  {
    ('0' as int + d) as char
  }

  /** Python `str(n)` for a natural number. */
  function NatToString(n: nat): (r: string)
    ensures |r| > 0 && forall i :: 0 <= i < |r| ==> IsDigit(r[i])
  {
    if n < 10 then [DigitChar(n)] else NatToString(n / 10) + [DigitChar(n % 10)]
  }

  /** Python `str(i)` for any integer. */
  function IntToString(i: int): string {
    if i < 0 then "-" + NatToString(-i) else NatToString(i)
  }

  /** The number a string of decimal digits denotes (Python `int(s)` on digit strings). */
  function DigitsValue(s: string): nat
    requires forall i :: 0 <= i < |s| ==> IsDigit(s[i])
  {
    if s == [] then 0
    else
      assert IsDigit(s[|s| - 1]);
      DigitsValue(s[..|s| - 1]) * 10 + (s[|s| - 1] as int - '0' as int)
  }

  /** Reading the digits back gives the number: `int(str(n)) == n`. */
  lemma {:induction false} NatToStringRoundTrip(n: nat)
    ensures DigitsValue(NatToString(n)) == n
  {
    var r := NatToString(n);
    if n >= 10 {
      NatToStringRoundTrip(n / 10);
      assert r[..|r| - 1] == NatToString(n / 10);
    }
  }

  lemma IntToStringSign(i: int)
    ensures IntToString(i) != [] && (IntToString(i)[0] == '-' <==> i < 0)
  {
    if i >= 0 {
      assert IsDigit(NatToString(i)[0]);
    }
  }

  lemma IntToStringInjective(a: int, b: int)
    requires IntToString(a) == IntToString(b)
    ensures a == b
  {
    IntToStringSign(a);
    IntToStringSign(b);
    if a < 0 {
      assert NatToString(-a) == IntToString(a)[1..] == IntToString(b)[1..] == NatToString(-b);
      NatToStringRoundTrip(-a);
      NatToStringRoundTrip(-b);
    } else {
      NatToStringRoundTrip(a);
      NatToStringRoundTrip(b);
    }
  }

  /** How many digits stand in `w` from position `k` on, before the first non-digit. */
  function DigitRun(w: string, k: nat): nat
    decreases |w| - k
  {
    if k < |w| && IsDigit(w[k]) then 1 + DigitRun(w, k + 1) else 0
  }

  lemma {:induction false} DigitRunStopsAt(u: string, x: string, k: nat)
    requires 1 <= k <= |u|
    requires forall j :: k <= j < |u| ==> IsDigit(u[j])
    requires x != [] && !IsDigit(x[0])
    ensures DigitRun(u + x, k) == |u| - k
    decreases |u| - k
  {
    if k < |u| {
      DigitRunStopsAt(u, x, k + 1);
    } else {
      assert (u + x)[k] == x[0];
    }
  }

  /**
   * An integer printed in front of text that starts with a character that is neither a
   * digit nor a sign can be read back unambiguously.
   */
  lemma IntPrefixUnique(a: int, x: string, b: int, y: string)
    requires x != [] && !IsDigit(x[0]) && x[0] != '-'
    requires y != [] && !IsDigit(y[0]) && y[0] != '-'
    requires IntToString(a) + x == IntToString(b) + y
    ensures a == b && x == y
  {
    var u, v := IntToString(a), IntToString(b);
    assert forall k :: 1 <= k < |u| ==> IsDigit(u[k]) by {
      if a >= 0 { assert u == NatToString(a); } else { assert u[1..] == NatToString(-a); }
    }
    assert forall k :: 1 <= k < |v| ==> IsDigit(v[k]) by {
      if b >= 0 { assert v == NatToString(b); } else { assert v[1..] == NatToString(-b); }
    }
    IntToStringSign(a);
    IntToStringSign(b);
    DigitRunStopsAt(u, x, 1);
    DigitRunStopsAt(v, y, 1);
    assert u == (u + x)[..|u|] == (v + y)[..|v|] == v;
    IntToStringInjective(a, b);
    assert x == (u + x)[|u|..] == (v + y)[|v|..] == y;
  }
}
