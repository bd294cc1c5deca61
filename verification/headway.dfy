/** `calculate_headway`: the average gap, in minutes, between the sorted
    first-stop arrival times of a shape's trips in one period. Times are
    seconds after midnight (the difference of two parsed `HH:MM:SS`
    strings of the same day). */
module Headway {

  predicate Sorted(s: seq<int>) {
    forall i, j :: 0 <= i < j < |s| ==> s[i] <= s[j]
  }

  /** The sum of the consecutive gaps `t - s` over `zip(times, times[1:])`. */
  function SumGaps(s: seq<int>): int
    decreases |s|
  {
    if |s| < 2 then 0 else (s[1] - s[0]) + SumGaps(s[1..])
  }

  /** The gaps telescope: their sum is the last time minus the first. */
  lemma {:induction false} SumGapsTelescopes(s: seq<int>)
    requires |s| > 0
    ensures SumGaps(s) == s[|s| - 1] - s[0]
    decreases |s|
  {
    if |s| >= 2 {
      SumGapsTelescopes(s[1..]);
    }
  }

  function Dist(a: int, b: int): nat {
    if a <= b then b - a else a - b
  }

  /** Python's `round` of the quotient `num / den`: the nearest integer,
      a tie going to the even neighbour. */
  function RoundHalfEven(num: int, den: int): (q: int)
    requires den > 0
    ensures 2 * Dist(num, q * den) <= den
    ensures 2 * Dist(num, q * den) == den ==> q % 2 == 0
  {
    var f := num / den;
    var r := num % den;
    assert num == f * den + r;
    if 2 * r < den then f
    else if 2 * r > den then f + 1
    else if f % 2 == 0 then f
    else f + 1
  }

  /** The rounding is determined by its two properties. */
  lemma RoundUnique(num: int, den: int, q: int)
    requires den > 0
    requires 2 * Dist(num, q * den) <= den
    requires 2 * Dist(num, q * den) == den ==> q % 2 == 0
    ensures q == RoundHalfEven(num, den)
  {
    var p := RoundHalfEven(num, den);
    if q < p {
      ApartByMultiple(q, p, den);
    } else if q > p {
      ApartByMultiple(p, q, den);
    }
  }

  /** Distinct multiples of `den` are at least `den` apart, and exactly
      `den` apart only for neighbours. */
  lemma ApartByMultiple(lo: int, hi: int, den: int)
    requires lo < hi && den > 0
    ensures hi * den - lo * den >= den
    ensures hi * den - lo * den == den ==> hi == lo + 1
  {
    var k := hi - lo;
    assert hi * den - lo * den == k * den;
    assert (k - 1) * den >= 0;
    if k >= 2 {
      assert (k - 2) * den >= 0;
    }
  }

  function Min(s: seq<int>): (m: int)
    requires |s| > 0
    ensures m in s && forall x :: x in s ==> m <= x
  {
    if |s| == 1 then s[0]
    else
      var rest := Min(s[1..]);
      assert forall x :: x in s ==> x == s[0] || x in s[1..];
      if s[0] <= rest then s[0] else rest
  }

  function Max(s: seq<int>): (m: int)
    requires |s| > 0
    ensures m in s && forall x :: x in s ==> x <= m
  {
    if |s| == 1 then s[0]
    else
      var rest := Max(s[1..]);
      assert forall x :: x in s ==> x == s[0] || x in s[1..];
      if s[0] >= rest then s[0] else rest
  }

  /** The headway of a period, whatever order the times come in: zero
      below two trips, otherwise the span from the earliest to the latest
      time over the number of gaps, in minutes, rounded half to even. */
  function Headway(times: seq<int>): (h: int)
    ensures |times| < 2 ==> h == 0
    ensures |times| >= 2 ==> var den := (|times| - 1) * 60; 2 * Dist(Max(times) - Min(times), h * den) <= den
  {
    if |times| < 2 then 0 else RoundHalfEven(Max(times) - Min(times), (|times| - 1) * 60)
  }

  /** A sorted rearrangement starts at the minimum and ends at the maximum. */
  lemma SortedEnds(s: seq<int>, t: seq<int>)
    requires |s| > 0 && Sorted(t) && multiset(t) == multiset(s)
    ensures |t| == |s| && t[0] == Min(s) && t[|t| - 1] == Max(s)
  {
    assert |t| == |multiset(t)| == |multiset(s)| == |s|;
    assert forall x :: x in t <==> x in s by {
      forall x ensures x in t <==> x in s {
        assert x in t <==> x in multiset(t);
        assert x in s <==> x in multiset(s);
      }
    }
    assert t[0] in t && t[|t| - 1] in t;
    var lo := Min(s);
    var hi := Max(s);
    assert lo in t && hi in t;
    var i :| 0 <= i < |t| && t[i] == lo;
    var j :| 0 <= j < |t| && t[j] == hi;
    assert t[0] <= t[i] && t[j] <= t[|t| - 1];
  }

  /** `start_times.sort()`: sorts the caller's list in place. */
  method SortInPlace(a: array<int>)
    modifies a
    ensures Sorted(a[..]) && multiset(a[..]) == multiset(old(a[..]))
  {
    if a.Length == 0 {
      return;
    }
    var i := 1;
    while i < a.Length
      invariant 1 <= i <= a.Length
      invariant Sorted(a[..i])
      invariant multiset(a[..]) == multiset(old(a[..]))
    {
      InsertAt(a, i);
      i := i + 1;
    }
  }

  /** The order the insertion keeps once `a[i]` has moved down to `j`: the
      prefix up to `i` is sorted except around `j`, and everything after `j`
      is at least `a[j]`. */
  ghost predicate Ordered(s: seq<int>, j: nat, i: nat)
    requires j <= i < |s|
  {
    && (forall m, n :: 0 <= m < n <= i && m != j && n != j ==> s[m] <= s[n])
    && (forall n :: j < n <= i ==> s[j] <= s[n])
  }

  /** The state of the insertion: ordered as above, the elements those of
      `orig`, and nothing past `i` moved. */
  ghost predicate Inserting(s: seq<int>, orig: seq<int>, j: nat, i: nat) {
    && j <= i < |s| == |orig|
    && Ordered(s, j, i)
    && multiset(s) == multiset(orig)
    && (forall n :: i < n < |s| ==> s[n] == orig[n])
  }

  lemma SwapOrdered(s: seq<int>, j: nat, i: nat)
    requires j <= i < |s| && Ordered(s, j, i) && j > 0 && s[j - 1] > s[j]
    ensures Ordered(s[j - 1 := s[j]][j := s[j - 1]], j - 1, i)
  {
    var t := s[j - 1 := s[j]][j := s[j - 1]];
    forall m, n | 0 <= m < n <= i && m != j - 1 && n != j - 1 ensures t[m] <= t[n] {
      if n == j {
        assert t[n] == s[j - 1] && s[m] <= s[j - 1];
      } else if m == j {
        assert t[m] == s[j - 1] && s[j - 1] <= s[n];
      }
    }
    forall n | j - 1 < n <= i ensures t[j - 1] <= t[n] {
      if n > j {
        assert t[j - 1] == s[j] && s[j] <= s[n];
      }
    }
  }

  lemma SwapDown(s: seq<int>, orig: seq<int>, j: nat, i: nat)
    requires Inserting(s, orig, j, i) && j > 0 && s[j - 1] > s[j]
    ensures Inserting(s[j - 1 := s[j]][j := s[j - 1]], orig, j - 1, i)
  {
    SwapOrdered(s, j, i);
    SwapSameElements(s, j - 1, j);
  }

  lemma SwapSameElements(s: seq<int>, x: nat, y: nat)
    requires x < y < |s|
    ensures multiset(s[x := s[y]][y := s[x]]) == multiset(s)
  {
    var t1 := s[x := s[y]];
    assert multiset(t1) == multiset(s) - multiset{s[x]} + multiset{s[y]};
    assert multiset(t1[y := s[x]]) == multiset(t1) - multiset{s[y]} + multiset{s[x]};
  }

  lemma InsertDone(s: seq<int>, orig: seq<int>, j: nat, i: nat)
    requires Inserting(s, orig, j, i) && (j == 0 || s[j - 1] <= s[j])
    ensures Sorted(s[..i + 1]) && multiset(s) == multiset(orig)
    ensures s[i + 1..] == orig[i + 1..] && multiset(s[..i + 1]) == multiset(orig[..i + 1])
  {
    SameSuffixSamePrefix(s, orig, i + 1);
  }

  /** Moves `a[i]` left past every larger element of the sorted prefix. */
  method InsertAt(a: array<int>, i: nat)
    requires i < a.Length && Sorted(a[..i])
    modifies a
    ensures Sorted(a[..i + 1]) && multiset(a[..]) == multiset(old(a[..]))
    ensures a[i + 1..] == old(a[i + 1..]) && multiset(a[..i + 1]) == multiset(old(a[..i + 1]))
  {
    var j: nat := i;
    while j > 0 && a[j - 1] > a[j]
      invariant Inserting(a[..], old(a[..]), j, i)
    {
      SwapDown(a[..], old(a[..]), j, i);
      a[j - 1], a[j] := a[j], a[j - 1];
      j := j - 1;
    }
    InsertDone(a[..], old(a[..]), j, i);
  }

  /** Two arrangements of one multiset that agree from `k` on hold the same
      elements before `k`. */
  lemma SameSuffixSamePrefix(s: seq<int>, t: seq<int>, k: nat)
    requires |s| == |t| && k <= |s| && multiset(s) == multiset(t)
    requires forall n :: k <= n < |s| ==> s[n] == t[n]
    ensures s[k..] == t[k..] && multiset(s[..k]) == multiset(t[..k])
  {
    assert s[k..] == t[k..];
    assert s == s[..k] + s[k..] && t == t[..k] + t[k..];
    assert multiset(s) == multiset(s[..k]) + multiset(s[k..]);
    assert multiset(t) == multiset(t[..k]) + multiset(t[k..]);
    assert multiset(s[..k]) == multiset(s) - multiset(s[k..]);
  }

  /** `calculate_headway`. */
  method CalculateHeadway(times: array<int>) returns (h: int)
    modifies times
    ensures Sorted(times[..]) && multiset(times[..]) == multiset(old(times[..]))
    ensures h == Headway(old(times[..]))
  {
    SortInPlace(times);
    if times.Length < 2 {
      return 0;
    }
    var sorted := times[..];
    var total := SumGaps(sorted);
    SumGapsTelescopes(sorted);
    SortedEnds(old(times[..]), sorted);
    h := RoundHalfEven(total, (times.Length - 1) * 60);
  }
}
