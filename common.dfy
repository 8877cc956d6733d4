/**
 * Generic sequence and string helpers shared by every stage of the pipeline:
 * an Option type, distinctness, order-preserving filtering, subsequences,
 * index enumeration and the Python string predicates `startswith` / `endswith`.
 */
module Common {

  datatype Option<+T> = None | Some(value: T)

  /** The value of a computation, or the error it raised. */
  datatype Result<+T, +E> = Ok(value: T) | Err(error: E)

  /** No element occurs twice. */
  predicate Distinct<T(==)>(s: seq<T>) {
    forall i, j :: 0 <= i < j < |s| ==> s[i] != s[j]
  }

  predicate StrictlyIncreasing(idx: seq<nat>) {
    forall i, j :: 0 <= i < j < |idx| ==> idx[i] < idx[j]
  }

  /** `idx` picks the elements of `a`, in order, out of `b`. */
  ghost predicate Embeds<T>(idx: seq<nat>, a: seq<T>, b: seq<T>) {
    && |idx| == |a|
    && StrictlyIncreasing(idx)
    && forall k :: 0 <= k < |idx| ==> idx[k] < |b| && a[k] == b[idx[k]]
  }

  /** `a` is obtained from `b` by deleting elements, keeping the order of the rest. */
  ghost predicate IsSubsequence<T>(a: seq<T>, b: seq<T>) {
    exists idx :: Embeds(idx, a, b)
  }

  /** The identity labelling 0, 1, ..., n - 1 (a pandas `RangeIndex`). */
  function Dense(n: nat): (r: seq<int>)
    ensures |r| == n && forall i :: 0 <= i < n ==> r[i] == i
  {
    seq(n, i => i)
  }

  /** The elements of `s` satisfying `p`, in their order in `s` (a list comprehension with a filter). */
  function Filter<T>(s: seq<T>, p: T -> bool): (r: seq<T>)
    ensures |r| <= |s|
    ensures forall k :: 0 <= k < |r| ==> r[k] in s && p(r[k])
    ensures forall k :: 0 <= k < |s| && p(s[k]) ==> s[k] in r
  {
    if s == [] then []
    else Filter(s[..|s| - 1], p) + (if p(s[|s| - 1]) then [s[|s| - 1]] else [])
  }

  lemma {:induction false} FilterMultiplicity<T>(s: seq<T>, p: T -> bool, x: T)
    ensures multiset(Filter(s, p))[x] == if p(x) then multiset(s)[x] else 0
  {
    if s != [] {
      var init, last := s[..|s| - 1], s[|s| - 1];
      FilterMultiplicity(init, p, x);
      assert s == init + [last];
    }
  }

  lemma {:induction false} FilterEmbeds<T>(s: seq<T>, p: T -> bool) returns (idx: seq<nat>)
    ensures Embeds(idx, Filter(s, p), s)
  {
    if s == [] {
      idx := [];
    } else {
      var init := s[..|s| - 1];
      var idx0 := FilterEmbeds(init, p);
      if p(s[|s| - 1]) {
        idx := idx0 + [|s| - 1];
      } else {
        idx := idx0;
      }
    }
  }

  lemma FilterIsSubsequence<T>(s: seq<T>, p: T -> bool)
    ensures IsSubsequence(Filter(s, p), s)
  {
    var idx := FilterEmbeds(s, p);
  }

  /** A subsequence of a sequence without repetitions has none either. */
  lemma SubsequenceDistinct<T>(a: seq<T>, b: seq<T>)
    requires IsSubsequence(a, b) && Distinct(b)
    ensures Distinct(a)
  {
    var idx :| Embeds(idx, a, b);
    forall i, j | 0 <= i < j < |a| ensures a[i] != a[j] {
      assert idx[i] < idx[j];
    }
  }

  lemma FilterDistinct<T>(s: seq<T>, p: T -> bool)
    requires Distinct(s)
    ensures Distinct(Filter(s, p))
  {
    FilterIsSubsequence(s, p);
    SubsequenceDistinct(Filter(s, p), s);
  }

  /** The elements of `s`, each once, in the order of their first occurrence (`list(dict.fromkeys(s))`). */
  function FirstOccurrences<T(==)>(s: seq<T>): (r: seq<T>)
    ensures Distinct(r)
    ensures forall k :: 0 <= k < |r| ==> r[k] in s
    ensures forall k :: 0 <= k < |s| ==> s[k] in r
  {
    if s == [] then []
    else
      var init, last := s[..|s| - 1], s[|s| - 1];
      var p := FirstOccurrences(init);
      if last in init then p else p + [last]
  }

  /** Without repetitions there is nothing to remove. */
  lemma {:induction false} FirstOccurrencesDistinct<T>(s: seq<T>)
    requires Distinct(s)
    ensures FirstOccurrences(s) == s
  {
    if s != [] {
      var init := s[..|s| - 1];
      FirstOccurrencesDistinct(init);
      assert s[|s| - 1] !in init;
      assert s == init + [s[|s| - 1]];
    }
  }

  /** The positions i < n with p(i), in increasing order. */
  function Where(n: nat, p: nat -> bool): (r: seq<nat>)
    ensures |r| <= n
    ensures forall i: nat :: i in r <==> i < n && p(i)
    ensures forall k :: 0 <= k < |r| ==> r[k] < n
    ensures StrictlyIncreasing(r)
  {
    if n == 0 then []
    else
      var init := Where(n - 1, p);
      init + (if p(n - 1) then [n - 1] else [])
  }

  lemma {:induction false} WhereAll(n: nat, p: nat -> bool)
    requires forall i :: 0 <= i < n ==> p(i)
    ensures Where(n, p) == Dense(n)
  {
    if n > 0 {
      WhereAll(n - 1, p);
      assert Where(n, p) == Dense(n - 1) + [n - 1];
      assert Dense(n) == Dense(n - 1) + [n - 1];
    }
  }

  lemma {:induction false} WhereNone(n: nat, p: nat -> bool)
    requires forall i: nat :: i < n ==> !p(i)
    ensures Where(n, p) == []
  {
    if n > 0 {
      WhereNone(n - 1, p);
    }
  }

  predicate StartsWith(s: string, prefix: string) {
    |prefix| <= |s| && s[..|prefix|] == prefix
  }

  predicate EndsWith(s: string, suffix: string) {
    |suffix| <= |s| && s[|s| - |suffix|..] == suffix
  }

  /** Two names that end in the same suffix are equal when what precedes the suffix is. */
  lemma AppendCancel(a: string, b: string, suffix: string)
    requires a + suffix == b + suffix
    ensures a == b
  {
    assert |a| == |b|;
    assert a == (a + suffix)[..|a|];
    assert b == (b + suffix)[..|b|];
  }

  function DigitChar(d: nat): char
    requires d < 10
  {
    "0123456789"[d]
  }

  /** Decimal notation of a natural number, as Python's `str` writes it. */
  function NatToString(n: nat): (s: string)
    ensures |s| >= 1
    decreases n
  {
    if n < 10 then [DigitChar(n)] else NatToString(n / 10) + [DigitChar(n % 10)]
  }

  /** Decimal notation of an integer, with a leading '-' when negative. */
  function IntToString(i: int): string {
    if i < 0 then "-" + NatToString(-i) else NatToString(i)
  }
}
