/**
 * The Kotlin list operations the service relies on: `sorted()` on a list of `Int`s, and
 * `drop`/`take`, and the closed-range window `index in start..end`.
 */
module Sequences {

  predicate IsSorted(s: seq<int>) { forall i, j :: 0 <= i < j < |s| ==> s[i] <= s[j] }

  /** `x` inserted in front of the first element not smaller than it. */
  function Insert(x: int, s: seq<int>): (r: seq<int>)
    requires IsSorted(s)
    ensures IsSorted(r)
    ensures multiset(r) == multiset(s) + multiset{x}
    ensures |r| == |s| + 1 && (r[0] == x || (|s| > 0 && r[0] == s[0]))
  {
    if |s| == 0 || x <= s[0] then [x] + s
    else
      var rest := Insert(x, s[1..]);
      assert s == [s[0]] + s[1..];
      [s[0]] + rest
  }

  /** Kotlin `sorted()` on a `List<Int>`: the ascending rearrangement of `s`. */
  function SortAscending(s: seq<int>): (r: seq<int>)
    ensures IsSorted(r)
    ensures multiset(r) == multiset(s)
  {
    if |s| == 0 then []
    else
      assert s == [s[0]] + s[1..];
      Insert(s[0], SortAscending(s[1..]))
  }

  /** A sorted rearrangement is unique, so `SortAscending` is the only result `sorted()` can give. */
  lemma {:induction false} SortedUnique(a: seq<int>, b: seq<int>)
    requires IsSorted(a) && IsSorted(b)
    requires multiset(a) == multiset(b)
    ensures a == b
  {
    if |a| == 0 {
      assert |multiset(b)| == 0;
    } else {
      assert |b| == |multiset(b)| == |a|;
      assert a[0] in multiset(b) && b[0] in multiset(a);
      SortedHeadLeast(a, b[0]);
      SortedHeadLeast(b, a[0]);
      SortedTail(a);
      SortedTail(b);
      assert a[0] == b[0];
      assert multiset(a[1..]) == multiset(b[1..]);
      SortedUnique(a[1..], b[1..]);
    }
  }

  /** The head of a sorted sequence is below each of its elements. */
  lemma SortedHeadLeast(s: seq<int>, x: int)
    requires IsSorted(s) && x in multiset(s)
    ensures |s| > 0 && s[0] <= x
  {
    var i :| 0 <= i < |s| && s[i] == x;
  }

  /** The tail of a sorted sequence is sorted and holds the other elements. */
  lemma SortedTail(s: seq<int>)
    requires IsSorted(s) && |s| > 0
    ensures IsSorted(s[1..])
    ensures multiset(s[1..]) == multiset(s) - multiset{s[0]}
  {
    assert s == [s[0]] + s[1..];
  }

  /** Kotlin `s.drop(n)`, defined for `n >= 0` (a negative count throws, see callers). */
  function Drop<T>(s: seq<T>, n: int): (r: seq<T>)
    requires n >= 0
    ensures r == s[if n <= |s| then n else |s|..]
  {
    if n >= |s| then [] else s[n..]
  }

  /** Kotlin `s.take(n)`, defined for `n >= 0`. */
  function Take<T>(s: seq<T>, n: int): (r: seq<T>)
    requires n >= 0
    ensures r == s[..if n <= |s| then n else |s|]
  {
    if n >= |s| then s else s[..n]
  }

  /** `s.drop(n).take(k)` is the slice of positions `n` to `n + k`, cut off at the end of `s`. */
  lemma DropTake<T>(s: seq<T>, n: int, k: int)
    requires n >= 0 && k >= 0
    ensures Take(Drop(s, n), k)
         == s[if n <= |s| then n else |s|..if n + k <= |s| then n + k else |s|]
  {
  }

  function Clamp(x: int, lo: int, hi: int): (r: int)
    requires lo <= hi
    ensures lo <= r <= hi
  {
    if x < lo then lo else if x > hi then hi else x
  }

  /**
   * The elements of `s` whose position `i` satisfies `lo <= i <= hi` (Kotlin `i in lo..hi`,
   * a closed range), in order: a contiguous run from the first such position that stops only
   * past `hi` or at the end of `s`.
   */
  function ClosedWindow<T>(s: seq<T>, lo: int, hi: int): (r: seq<T>)
    ensures var first := Clamp(lo, 0, |s|);
      && first + |r| <= |s| && r == s[first..first + |r|]
      && (|r| == 0 || (lo <= first && first + |r| <= hi + 1))
      && (first + |r| == |s| || hi < first + |r|)
  {
    var first := Clamp(lo, 0, |s|);
    s[first..Clamp(hi + 1, first, |s|)]
  }

  /** Growing the scanned prefix by one position adds that element exactly when it is in range. */
  lemma ClosedWindowStep<T>(s: seq<T>, i: nat, lo: int, hi: int)
    requires i < |s|
    ensures ClosedWindow(s[..i + 1], lo, hi)
         == ClosedWindow(s[..i], lo, hi) + (if lo <= i <= hi then [s[i]] else [])
  {
    var before, after := ClosedWindow(s[..i], lo, hi), ClosedWindow(s[..i + 1], lo, hi);
    var extra: seq<T> := if lo <= i <= hi then [s[i]] else [];
    assert |after| == |before| + |extra|;
    assert forall k :: 0 <= k < |after| ==> after[k] == (before + extra)[k];
  }
}
