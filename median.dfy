/** Sorting a neighbourhood and taking its middle element, as `findMedian` does
    with `sort.Slice` on the slice it is given. */
module Median {
  import opened GoNumeric

  predicate Sorted(s: seq<Byte>) {
    forall i, j :: 0 <= i < j < |s| ==> s[i] <= s[j]
  }

  /** Inserting into a sorted sequence keeps it sorted and adds one occurrence. */
  function Insert(v: Byte, s: seq<Byte>): (t: seq<Byte>)
    requires Sorted(s)
    ensures Sorted(t) && multiset(t) == multiset(s) + multiset{v} && |t| == |s| + 1
  {
    if |s| == 0 || v <= s[0] then [v] + s
    else
      var rest := Insert(v, s[1..]);
      assert s == [s[0]] + s[1..];
      assert rest[0] in multiset(s[1..]) + multiset{v};
      SortedCons(s[0], rest);
      [s[0]] + rest
  }

  lemma SortedCons(x: Byte, t: seq<Byte>)
    requires Sorted(t) && (|t| == 0 || x <= t[0])
    ensures Sorted([x] + t)
  {
    forall i, j | 0 <= i < j < |t| + 1
      ensures ([x] + t)[i] <= ([x] + t)[j]
    {
      if i > 0 {
        assert ([x] + t)[i] == t[i - 1];
      } else if j > 1 {
        assert t[0] <= t[j - 1];
      }
    }
  }

  /** A sorted permutation of `s`, the reference the in-place sort is held to. */
  function Sort(s: seq<Byte>): (t: seq<Byte>)
    ensures Sorted(t) && multiset(t) == multiset(s) && |t| == |s|
  {
    if |s| == 0 then []
    else
      assert s == [s[0]] + s[1..];
      Insert(s[0], Sort(s[1..]))
  }

  /** There is only one sorted arrangement of a multiset of bytes. */
  lemma {:induction false} SortedUnique(t: seq<Byte>, u: seq<Byte>)
    requires Sorted(t) && Sorted(u) && multiset(t) == multiset(u)
    ensures t == u
  {
    assert |t| == |multiset(t)| == |multiset(u)| == |u|;
    if |t| > 0 {
      LeastFirst(t, u[0]);
      LeastFirst(u, t[0]);
      TailsPermutation(t, u);
      SortedTail(t);
      SortedTail(u);
      SortedUnique(t[1..], u[1..]);
      assert t == [t[0]] + t[1..] && u == [u[0]] + u[1..];
    }
  }

  lemma TailsPermutation(t: seq<Byte>, u: seq<Byte>)
    requires |t| > 0 && |u| > 0 && t[0] == u[0] && multiset(t) == multiset(u)
    ensures multiset(t[1..]) == multiset(u[1..])
  {
    assert t == [t[0]] + t[1..] && u == [u[0]] + u[1..];
    assert multiset(t) == multiset{t[0]} + multiset(t[1..]);
    assert multiset(u) == multiset{t[0]} + multiset(u[1..]);
    Cancel(multiset(t[1..]), multiset(u[1..]), t[0]);
  }

  lemma Cancel(a: multiset<Byte>, b: multiset<Byte>, v: Byte)
    requires multiset{v} + a == multiset{v} + b
    ensures a == b
  {
    assert a == (multiset{v} + a) - multiset{v};
    assert b == (multiset{v} + b) - multiset{v};
  }

  /** The first entry of a sorted sequence is at most every value it holds. */
  lemma LeastFirst(t: seq<Byte>, v: Byte)
    requires Sorted(t) && |t| > 0 && v in multiset(t)
    ensures t[0] <= v
  {
    var k :| 0 <= k < |t| && t[k] == v;
    assert k == 0 || t[0] <= t[k];
  }

  lemma SortedTail(t: seq<Byte>)
    requires Sorted(t) && |t| > 0
    ensures Sorted(t[1..])
  {
    forall i, j | 0 <= i < j < |t| - 1
      ensures t[1..][i] <= t[1..][j]
    {
      assert t[1..][i] == t[i + 1] && t[1..][j] == t[j + 1];
    }
  }

  /** `sorted[len/2]`: the middle element of the sorted neighbourhood. */
  function MedianOf(s: seq<Byte>): (m: Byte)
    requires |s| > 0
    ensures m in s
  {
    var t := Sort(s);
    assert t[|s| / 2] in multiset(s);
    t[|s| / 2]
  }

  /** `findMedian`: sorts the slice in place (an insertion sort standing for
      `sort.Slice`) and returns its middle element. An empty slice would panic. */
  method FindMedian(pixels: array<Byte>) returns (median: Byte)
    requires pixels.Length > 0
    modifies pixels
    ensures Sorted(pixels[..]) && multiset(pixels[..]) == multiset(old(pixels[..]))
    ensures median == pixels[pixels.Length / 2] && median == MedianOf(old(pixels[..]))
  {
    ghost var original := pixels[..];
    for i := 1 to pixels.Length
      invariant Sorted(pixels[..i])
      invariant multiset(pixels[..]) == multiset(original)
    {
      InsertAt(pixels, i);
    }
    assert pixels[..pixels.Length] == pixels[..];
    SortedUnique(pixels[..], Sort(original));
    median := pixels[pixels.Length / 2];
  }

  /** Moves `pixels[i]` left past every larger element. */
  method InsertAt(pixels: array<Byte>, i: nat)
    requires i < pixels.Length && Sorted(pixels[..i])
    modifies pixels
    ensures Sorted(pixels[..i + 1]) && multiset(pixels[..]) == multiset(old(pixels[..]))
  {
    var j := i;
    while j > 0 && pixels[j - 1] > pixels[j]
      invariant 0 <= j <= i
      invariant multiset(pixels[..]) == multiset(old(pixels[..]))
      invariant SortedAround(pixels[..i + 1], j)
    {
      Swap(pixels, j - 1);
      j := j - 1;
    }
    SortedAroundDone(pixels[..i + 1], j);
  }

  /** The prefix is sorted except for the element at `j`, which is no larger than
      anything after it. */
  predicate SortedAround(s: seq<Byte>, j: nat) {
    j < |s| &&
    (forall a, b :: 0 <= a < b < |s| && a != j && b != j ==> s[a] <= s[b]) &&
    (forall b :: j < b < |s| ==> s[j] <= s[b])
  }

  lemma SortedAroundDone(s: seq<Byte>, j: nat)
    requires SortedAround(s, j) && (j == 0 || s[j - 1] <= s[j])
    ensures Sorted(s)
  {
  }

  method Swap(pixels: array<Byte>, i: nat)
    requires i + 1 < pixels.Length
    modifies pixels
    ensures pixels[..] == old(pixels[..])[i := old(pixels[i + 1])][i + 1 := old(pixels[i])]
    ensures multiset(pixels[..]) == multiset(old(pixels[..]))
  {
    pixels[i], pixels[i + 1] := pixels[i + 1], pixels[i];
  }

  // ------------------------------------------------------------- rank

  /** How many entries of `s` lie in `[lo, hi]`. */
  function CountBetween(s: seq<Byte>, lo: int, hi: int): (n: nat)
    ensures n <= |s|
  {
    if |s| == 0 then 0
    else (if lo <= s[0] <= hi then 1 else 0) + CountBetween(s[1..], lo, hi)
  }

  lemma {:induction false} CountAppend(a: seq<Byte>, b: seq<Byte>, lo: int, hi: int)
    ensures CountBetween(a + b, lo, hi) == CountBetween(a, lo, hi) + CountBetween(b, lo, hi)
  {
    if |a| == 0 {
      assert a + b == b;
    } else {
      assert (a + b)[0] == a[0] && (a + b)[1..] == a[1..] + b;
      CountAppend(a[1..], b, lo, hi);
    }
  }

  /** The count depends only on the multiset of entries. */
  lemma {:induction false} CountPermutation(s: seq<Byte>, t: seq<Byte>, lo: int, hi: int)
    requires multiset(s) == multiset(t)
    ensures CountBetween(s, lo, hi) == CountBetween(t, lo, hi)
  {
    if |s| > 0 {
      assert s[0] in multiset(t);
      var k :| 0 <= k < |t| && t[k] == s[0];
      var rest := t[..k] + t[k + 1..];
      RemoveAt(t, k, lo, hi);
      assert s == [s[0]] + s[1..];
      assert multiset(s) == multiset{s[0]} + multiset(s[1..]);
      Cancel(multiset(s[1..]), multiset(rest), s[0]);
      CountPermutation(s[1..], rest, lo, hi);
    }
  }

  /** Taking entry `k` out of `t` removes one occurrence and its share of the count. */
  lemma RemoveAt(t: seq<Byte>, k: nat, lo: int, hi: int)
    requires k < |t|
    ensures multiset(t) == multiset{t[k]} + multiset(t[..k] + t[k + 1..])
    ensures CountBetween(t, lo, hi) == (if lo <= t[k] <= hi then 1 else 0) + CountBetween(t[..k] + t[k + 1..], lo, hi)
  {
    assert t == t[..k] + ([t[k]] + t[k + 1..]);
    assert multiset(t) == multiset(t[..k]) + multiset{t[k]} + multiset(t[k + 1..]);
    CountAppend(t[..k], [t[k]] + t[k + 1..], lo, hi);
    CountAppend([t[k]], t[k + 1..], lo, hi);
    CountAppend(t[..k], t[k + 1..], lo, hi);
  }

  /** A run of `n` entries in range, starting at `start`, counts at least `n`. */
  lemma {:induction false} CountRun(s: seq<Byte>, lo: int, hi: int, start: nat, n: nat)
    requires start + n <= |s|
    requires forall i :: start <= i < start + n ==> lo <= s[i] <= hi
    ensures CountBetween(s, lo, hi) >= n
  {
    if |s| > 0 && n > 0 {
      if start == 0 {
        CountRun(s[1..], lo, hi, 0, n - 1);
      } else {
        CountRun(s[1..], lo, hi, start - 1, n);
      }
    }
  }

  /** More than half of the entries are at most the median, and at least half
      are at least it: for a 3x3 neighbourhood, five on each side. */
  lemma MedianRank(s: seq<Byte>)
    requires |s| > 0
    ensures CountBetween(s, 0, MedianOf(s)) >= |s| / 2 + 1
    ensures CountBetween(s, MedianOf(s), 255) >= |s| - |s| / 2
  {
    var t := Sort(s);
    SortedRank(t, |s| / 2);
    CountPermutation(s, t, 0, t[|s| / 2]);
    CountPermutation(s, t, t[|s| / 2], 255);
  }

  /** In a sorted sequence, entry `k` has `k + 1` entries at most it and
      `|t| - k` at least it. */
  lemma SortedRank(t: seq<Byte>, k: nat)
    requires Sorted(t) && k < |t|
    ensures CountBetween(t, 0, t[k]) >= k + 1
    ensures CountBetween(t, t[k], 255) >= |t| - k
  {
    forall i | 0 <= i < k + 1
      ensures 0 <= t[i] <= t[k]
    {
      assert i == k || t[i] <= t[k];
    }
    forall i | k <= i < |t|
      ensures t[k] <= t[i] <= 255
    {
      assert i == k || t[k] <= t[i];
    }
    CountRun(t, 0, t[k], 0, k + 1);
    CountRun(t, t[k], 255, k, |t| - k);
  }

  /** A neighbourhood of one repeated value has that value as its median. */
  lemma MedianOfConstant(s: seq<Byte>, v: Byte)
    requires |s| > 0 && forall i :: 0 <= i < |s| ==> s[i] == v
    ensures MedianOf(s) == v
  {
  }
}
