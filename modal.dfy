/**
 * The "most common value" heuristic the layout extractor applies to margins, font
 * sizes, line heights, colours and font names: Python's
 * `Counter(values).most_common(1)[0][0]`, which returns the most frequent value and,
 * among equally frequent ones, the one seen first.
 */
module Modal {

  function Count<T(==)>(xs: seq<T>, x: T): (n: nat)
    ensures n <= |xs|
    ensures n > 0 <==> x in xs
  {
    if xs == [] then 0 else (if xs[0] == x then 1 else 0) + Count(xs[1..], x)
  }

  /** Position of the first occurrence of `x`. */
  function FirstIndex<T(==)>(xs: seq<T>, x: T): (k: nat)
    requires x in xs
    ensures k < |xs| && xs[k] == x && x !in xs[..k]
  {
    if xs[0] == x then 0 else 1 + FirstIndex(xs[1..], x)
  }

  /**
   * The first position, among the first `n`, whose value is counted most often in
   * the whole of `xs`.
   */
  function BestIndex<T(==)>(xs: seq<T>, n: nat): (k: nat)
    requires 0 < n <= |xs|
    ensures k < n
    ensures forall j :: 0 <= j < n ==> Count(xs, xs[j]) <= Count(xs, xs[k])
    ensures forall j :: 0 <= j < k ==> Count(xs, xs[j]) < Count(xs, xs[k])
  {
    if n == 1 then 0
    else
      var k := BestIndex(xs, n - 1);
      if Count(xs, xs[n - 1]) > Count(xs, xs[k]) then n - 1 else k
  }

  /**
   * `Counter(xs).most_common(1)[0][0]`: a value of highest count, and every value
   * first seen before it is strictly less frequent.
   */
  function MostCommon<T(==)>(xs: seq<T>): (r: T)
    requires |xs| > 0
    ensures r in xs
    ensures forall y :: y in xs ==> Count(xs, y) <= Count(xs, r)
    ensures forall j :: 0 <= j < FirstIndex(xs, r) ==> Count(xs, xs[j]) < Count(xs, r)
  {
    var k := BestIndex(xs, |xs|);
    assert forall j :: 0 <= j < k ==> xs[j] != xs[k];
    assert xs[k] !in xs[..k];
    assert FirstIndex(xs, xs[k]) == k;
    xs[k]
  }

  /** `r` is what `most_common(1)` picks: most frequent, and first seen among the most frequent. */
  predicate IsMode<T(==)>(xs: seq<T>, r: T) {
    r in xs
    && (forall y :: y in xs ==> Count(xs, y) <= Count(xs, r))
    && forall j :: 0 <= j < FirstIndex(xs, r) ==> Count(xs, xs[j]) < Count(xs, r)
  }

  /** The helpers' pattern: the mode of a non-empty list, else the default. */
  predicate ModeOr<T(==)>(xs: seq<T>, default: T, r: T) {
    if xs == [] then r == default else IsMode(xs, r)
  }

  /** The most common value, or a fixed default for an empty list. */
  function MostCommonOr<T(==)>(xs: seq<T>, default: T): T {
    if xs == [] then default else MostCommon(xs)
  }

  lemma MostCommonOrIsMode<T>(xs: seq<T>, default: T)
    ensures ModeOr(xs, default, MostCommonOr(xs, default))
  {
    if xs != [] {
      var r := MostCommon(xs);
      assert IsMode(xs, r);
    }
  }

  /** The mode is well defined: at most one value satisfies `IsMode`. */
  lemma ModeUnique<T>(xs: seq<T>, a: T, b: T)
    requires IsMode(xs, a) && IsMode(xs, b)
    ensures a == b
  {
    var i, j := FirstIndex(xs, a), FirstIndex(xs, b);
    assert xs[i] == a && xs[j] == b;
  }

  /** Ties go to the value seen first: of two equally frequent values, the later-seen one is never picked. */
  lemma TieGoesToFirstSeen<T>(xs: seq<T>, a: T, b: T)
    requires a in xs && b in xs && Count(xs, a) == Count(xs, b) && FirstIndex(xs, a) < FirstIndex(xs, b)
    ensures MostCommon(xs) != b
  {
  }
}
