/**
 * A model of Python's `itertools.combinations`: the r-element combinations of
 * a sequence, as index sequences, in the order the library yields them
 * (lexicographic by position).
 */
module Combinations {
  import opened Common

  /** All elements of `c` lie in lo .. n - 1. */
  predicate InRange(c: seq<nat>, lo: nat, n: nat) {
    forall i :: 0 <= i < |c| ==> lo <= c[i] < n
  }

  /** `[x] + c` for every combination c of `cs`. */
  function Prepend(x: nat, cs: seq<seq<nat>>): (r: seq<seq<nat>>)
    ensures |r| == |cs| && forall k :: 0 <= k < |cs| ==> r[k] == [x] + cs[k]
  {
    seq(|cs|, k requires 0 <= k < |cs| => [x] + cs[k])
  }

  /**
   * The strictly increasing position sequences of length `size` drawn from
   * lo .. n - 1: first those starting with lo, then those that do not.
   */
  function Combos(lo: nat, n: nat, size: nat): (cs: seq<seq<nat>>)
    ensures forall k :: 0 <= k < |cs| ==>
      |cs[k]| == size && StrictlyIncreasing(cs[k]) && InRange(cs[k], lo, n)
    decreases n - lo
  {
    if size == 0 then [[]]
    else if lo >= n then []
    else Prepend(lo, Combos(lo + 1, n, size - 1)) + Combos(lo + 1, n, size)
  }

  /** Strict lexicographic order on position sequences. */
  predicate LexLess(a: seq<nat>, b: seq<nat>) {
    |a| > 0 && |b| > 0 && (a[0] < b[0] || (a[0] == b[0] && LexLess(a[1..], b[1..])))
  }

  /** Every strictly increasing sequence of `size` positions in lo .. n - 1 is enumerated. */
  lemma {:induction false} CombosComplete(lo: nat, n: nat, size: nat, c: seq<nat>)
    requires |c| == size && StrictlyIncreasing(c) && InRange(c, lo, n)
    ensures c in Combos(lo, n, size)
    decreases n - lo
  {
    if size > 0 {
      assert lo <= c[0] < n;
      if c[0] == lo {
        var tail := c[1..];
        assert InRange(tail, lo + 1, n) by {
          forall i | 0 <= i < |tail| ensures lo + 1 <= tail[i] < n {
            assert c[0] < c[i + 1];
          }
        }
        CombosComplete(lo + 1, n, size - 1, tail);
        var k :| 0 <= k < |Combos(lo + 1, n, size - 1)| && Combos(lo + 1, n, size - 1)[k] == tail;
        assert Prepend(lo, Combos(lo + 1, n, size - 1))[k] == c;
      } else {
        assert InRange(c, lo + 1, n) by {
          forall i | 0 <= i < |c| ensures lo + 1 <= c[i] {
            if i > 0 { assert c[0] < c[i]; }
          }
        }
        CombosComplete(lo + 1, n, size, c);
      }
    }
  }

  /** The enumeration is strictly increasing in lexicographic order, hence also repetition-free. */
  lemma {:induction false} CombosSorted(lo: nat, n: nat, size: nat, k1: nat, k2: nat)
    requires k1 < k2 < |Combos(lo, n, size)|
    ensures LexLess(Combos(lo, n, size)[k1], Combos(lo, n, size)[k2])
    decreases n - lo
  {
    var cs := Combos(lo, n, size);
    if size > 0 && lo < n {
      var with, without := Combos(lo + 1, n, size - 1), Combos(lo + 1, n, size);
      if k2 < |with| {
        CombosSorted(lo + 1, n, size - 1, k1, k2);
        assert cs[k1] == [lo] + with[k1] && cs[k2] == [lo] + with[k2];
        assert cs[k1][1..] == with[k1] && cs[k2][1..] == with[k2];
      } else if k1 < |with| {
        assert cs[k1] == [lo] + with[k1];
        assert cs[k2] == without[k2 - |with|];
        assert cs[k1][0] == lo < cs[k2][0];
      } else {
        CombosSorted(lo + 1, n, size, k1 - |with|, k2 - |with|);
        assert cs[k1] == without[k1 - |with|] && cs[k2] == without[k2 - |with|];
      }
    }
  }

  /** The elements of `s` at the positions `idx`. */
  function Pick<T>(s: seq<T>, idx: seq<nat>): (r: seq<T>)
    requires InRange(idx, 0, |s|)
    ensures |r| == |idx|
  {
    seq(|idx|, k requires 0 <= k < |idx| => s[idx[k]])
  }

  /** `itertools.combinations(s, size)` */
  function Choose<T>(s: seq<T>, size: nat): (r: seq<seq<T>>)
    ensures forall k :: 0 <= k < |r| ==> |r[k]| == size && IsSubsequence(r[k], s)
  {
    var cs := Combos(0, |s|, size);
    var r := seq(|cs|, k requires 0 <= k < |cs| => Pick(s, cs[k]));
    assert forall k :: 0 <= k < |r| ==> Embeds(cs[k], r[k], s);
    r
  }

  /** Every choice of `size` elements of `s` by increasing positions is among the combinations. */
  lemma ChooseComplete<T>(s: seq<T>, size: nat, idx: seq<nat>)
    requires |idx| == size && StrictlyIncreasing(idx) && InRange(idx, 0, |s|)
    ensures Pick(s, idx) in Choose(s, size)
  {
    CombosComplete(0, |s|, size, idx);
    var cs := Combos(0, |s|, size);
    var k :| 0 <= k < |cs| && cs[k] == idx;
    assert Choose(s, size)[k] == Pick(s, idx);
  }
}
