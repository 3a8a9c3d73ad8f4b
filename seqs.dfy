/** `Array.prototype.filter` and the counts built from it. */
module Seqs {

  /** `a` is `b` with some elements dropped, the rest in their order. */
  predicate IsSubsequence<T(==)>(a: seq<T>, b: seq<T>)
    decreases |a| + |b|
  {
    |a| == 0 ||
    (|b| > 0 &&
     ((a[0] == b[0] && IsSubsequence(a[1..], b[1..])) || IsSubsequence(a, b[1..])))
  }

  /** `s.filter(p)`: the elements of `s` that satisfy `p`, in their order
      (FilterSize: one for each position of `s` that passes). */
  function Filter<T>(p: T -> bool, s: seq<T>): (r: seq<T>)
    ensures |r| <= |s|
    ensures forall i | 0 <= i < |r| :: r[i] in s && p(r[i])
    ensures forall i | 0 <= i < |s| :: p(s[i]) ==> s[i] in r
    ensures IsSubsequence(r, s)
  {
    if |s| == 0 then []
    else if p(s[0]) then [s[0]] + Filter(p, s[1..])
    else Filter(p, s[1..])
  }

  /** Filtering one more element at the end appends it when it passes. */
  lemma {:induction false} FilterSnoc<T>(p: T -> bool, s: seq<T>)
    requires |s| > 0
    ensures Filter(p, s) == Filter(p, s[..|s| - 1]) + (if p(s[|s| - 1]) then [s[|s| - 1]] else [])
    decreases |s|
  {
    if |s| == 1 {
      assert s[1..] == [] && s[..0] == [];
    } else {
      FilterSnoc(p, s[1..]);
      assert s[1..][..|s| - 2] == s[..|s| - 1][1..];
    }
  }

  /** The positions of `s` whose element passes `p`. */
  function Passing<T>(p: T -> bool, s: seq<T>): set<int>
  {
    set i | 0 <= i < |s| && p(s[i])
  }

  /** `filter` keeps one element for each position of `s` whose element
      passes `p`: no more, no fewer. */
  lemma {:induction false} FilterSize<T>(p: T -> bool, s: seq<T>)
    ensures |Filter(p, s)| == |Passing(p, s)|
    decreases |s|
  {
    if |s| > 0 {
      FilterSnoc(p, s);
      FilterSize(p, s[..|s| - 1]);
      PassingSnoc(p, s);
    }
  }

  /** The positions of `s` that pass are those of `s` without its last
      element, and the last position when it passes. */
  lemma PassingSnoc<T>(p: T -> bool, s: seq<T>)
    requires |s| > 0
    ensures var t := s[..|s| - 1];
              |set i | 0 <= i < |s| && p(s[i])|
              == |set i | 0 <= i < |t| && p(t[i])| + (if p(s[|s| - 1]) then 1 else 0)
  {
    var n := |s|;
    var t := s[..n - 1];
    var before := set i | 0 <= i < |t| && p(t[i]);
    var all := set i | 0 <= i < n && p(s[i]);
    assert forall i | 0 <= i < n - 1 :: t[i] == s[i];
    if p(s[n - 1]) {
      assert all == before + {n - 1};
    } else {
      assert all == before;
    }
  }

  /** `s.filter(p).length`: the number of positions of `s` that pass `p`. */
  function Count<T>(p: T -> bool, s: seq<T>): (n: nat)
    ensures n <= |s|
    ensures n == |Passing(p, s)|
    ensures n == 0 <==> forall i | 0 <= i < |s| :: !p(s[i])
  {
    FilterSize(p, s);
    |Filter(p, s)|
  }

  /** A predicate that holds everywhere keeps the whole sequence. */
  lemma {:induction false} FilterKeepsAll<T>(p: T -> bool, s: seq<T>)
    requires forall i | 0 <= i < |s| :: p(s[i])
    ensures Filter(p, s) == s
  {
    if |s| > 0 {
      FilterKeepsAll(p, s[1..]);
    }
  }

  /** Two sequences whose elements satisfy their predicates at the same
      positions have the same count. */
  lemma {:induction false} CountAgree<T, U>(p: T -> bool, a: seq<T>, q: U -> bool, b: seq<U>)
    requires |a| == |b|
    requires forall i | 0 <= i < |a| :: p(a[i]) == q(b[i])
    ensures Count(p, a) == Count(q, b)
  {
    if |a| > 0 {
      assert p(a[0]) == q(b[0]);
      CountAgree(p, a[1..], q, b[1..]);
    }
  }

  /** Every sequence is a subsequence of itself. */
  lemma {:induction false} SubsequenceOfItself<T>(s: seq<T>)
    ensures IsSubsequence(s, s)
  {
    if |s| > 0 {
      SubsequenceOfItself(s[1..]);
    }
  }
}
