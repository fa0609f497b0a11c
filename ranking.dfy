/**
 * Ranking of scored candidates, as both strategies do it: an in-place
 * selection sort by descending score.  Each round scans the rest of the
 * array left to right for the first entry with the highest score (a later
 * entry wins only on a strictly higher score) and swaps it into place.
 *
 * SelectionSort is the value the sort computes; SortDescending is the
 * in-place algorithm proved to compute it.  The lemmas show the result is
 * a permutation of the input with non-increasing scores, and give the
 * counting facts the strategies need about prefixes of a ranking.
 */
module Ranking {

  /** A candidate with its score. */
  datatype Scored<T> = Scored(item: T, score: real)

  /** Scores never increase along s. */
  predicate NonIncreasing<T>(s: seq<Scored<T>>) {
    forall i, j :: 0 <= i < j < |s| ==> s[i].score >= s[j].score
  }

  /** The candidates of s without their scores, in order. */
  function Items<T>(s: seq<Scored<T>>): (r: seq<T>)
    ensures |r| == |s| && forall i :: 0 <= i < |s| ==> r[i] == s[i].item
  {
    seq(|s|, i requires 0 <= i < |s| => s[i].item)
  }

  /**
   * The index the inner scan of a round settles on over s[lo..hi]: the
   * first index holding the highest score.
   */
  function ArgMax<T>(s: seq<Scored<T>>, lo: int, hi: int): (m: int)
    requires 0 <= lo < hi <= |s|
    ensures lo <= m < hi
    ensures forall k :: lo <= k < hi ==> s[k].score <= s[m].score
    ensures forall k :: lo <= k < m ==> s[k].score < s[m].score
    decreases hi - lo
  {
    if hi == lo + 1 then lo
    else
      var m := ArgMax(s, lo, hi - 1);
      if s[hi - 1].score > s[m].score then hi - 1 else m
  }

  /** s with the entries at i and j exchanged. */
  function Swap<T>(s: seq<T>, i: int, j: int): (r: seq<T>)
    requires 0 <= i < |s| && 0 <= j < |s|
    ensures |r| == |s|
  {
    s[i := s[j]][j := s[i]]
  }

  /** The rounds of the selection sort from round i on; the last entry needs no round. */
  function SortFrom<T>(s: seq<Scored<T>>, i: nat): (r: seq<Scored<T>>)
    ensures |r| == |s|
    decreases |s| - i
  {
    if i + 1 >= |s| then s
    else SortFrom(Swap(s, i, ArgMax(s, i, |s|)), i + 1)
  }

  /** What the selection sort leaves in the array. */
  function SelectionSort<T>(s: seq<Scored<T>>): (r: seq<Scored<T>>)
    ensures |r| == |s|
  {
    SortFrom(s, 0)
  }

  lemma SwapPermutes<T>(s: seq<T>, i: int, j: int)
    requires 0 <= i < |s| && 0 <= j < |s|
    ensures multiset(Swap(s, i, j)) == multiset(s)
  {
    var t := s[i := s[j]];
    assert multiset(t) == multiset(s) - multiset{s[i]} + multiset{s[j]};
    assert t[j] == s[j];
  }

  lemma {:induction false} SortFromPermutes<T>(s: seq<Scored<T>>, i: nat)
    ensures multiset(SortFrom(s, i)) == multiset(s)
    decreases |s| - i
  {
    if i + 1 < |s| {
      var t := Swap(s, i, ArgMax(s, i, |s|));
      SwapPermutes(s, i, ArgMax(s, i, |s|));
      SortFromPermutes(t, i + 1);
    }
  }

  /** The sort permutes the candidates as it permutes the entries. */
  lemma {:induction false} SortFromPermutesItems<T>(s: seq<Scored<T>>, i: nat)
    ensures multiset(Items(SortFrom(s, i))) == multiset(Items(s))
    decreases |s| - i
  {
    if i + 1 < |s| {
      var m := ArgMax(s, i, |s|);
      var t := Swap(s, i, m);
      assert Items(t) == Swap(Items(s), i, m);
      SwapPermutes(Items(s), i, m);
      SortFromPermutesItems(t, i + 1);
    }
  }

  /** Entries before i outrank every entry from i on, and are themselves in order. */
  predicate SettledUpTo<T>(s: seq<Scored<T>>, i: nat) {
    i <= |s| && forall a, b :: 0 <= a < b < |s| && a < i ==> s[a].score >= s[b].score
  }

  /** One round keeps the settled prefix and settles one more entry. */
  lemma RoundSettles<T>(s: seq<Scored<T>>, i: nat)
    requires SettledUpTo(s, i) && i < |s|
    ensures SettledUpTo(Swap(s, i, ArgMax(s, i, |s|)), i + 1)
  {
    var m := ArgMax(s, i, |s|);
    var t := Swap(s, i, m);
    forall a, b | 0 <= a < b < |t| && a < i + 1
      ensures t[a].score >= t[b].score
    {
      if b < i {
        assert t[a] == s[a] && t[b] == s[b];
      } else {
        var b' := if b == m then i else if b == i then m else b;
        assert t[b] == s[b'] && i <= b' < |s|;
        if a == i {
          assert t[a] == s[m];
        } else {
          assert t[a] == s[a] && a < b';
        }
      }
    }
  }

  lemma {:induction false} SortFromSorted<T>(s: seq<Scored<T>>, i: nat)
    requires SettledUpTo(s, i)
    ensures NonIncreasing(SortFrom(s, i))
    decreases |s| - i
  {
    if i + 1 < |s| {
      RoundSettles(s, i);
      SortFromSorted(Swap(s, i, ArgMax(s, i, |s|)), i + 1);
    } else {
      assert SettledUpTo(s, |s|) by {
        forall a, b | 0 <= a < b < |s|
          ensures s[a].score >= s[b].score
        {
          assert a < i;
        }
      }
    }
  }

  /** The selection sort permutes its input and leaves the scores in non-increasing order. */
  lemma SelectionSortCorrect<T>(s: seq<Scored<T>>)
    ensures multiset(SelectionSort(s)) == multiset(s)
    ensures NonIncreasing(SelectionSort(s))
  {
    SortFromPermutes(s, 0);
    SortFromSorted(s, 0);
  }

  /**
   * After the sort, an entry of the input lies at index 0 or outranks
   * nothing above index 0; more precisely every input entry is at some
   * index k of the ranking, and then no entry after k scores higher.
   */
  lemma RankOf<T>(s: seq<Scored<T>>, x: Scored<T>) returns (k: int)
    requires x in s
    ensures 0 <= k < |SelectionSort(s)| && SelectionSort(s)[k] == x
    ensures forall j :: 0 <= j < k ==> SelectionSort(s)[j].score >= x.score
    ensures forall j :: k < j < |s| ==> SelectionSort(s)[j].score <= x.score
  {
    SelectionSortCorrect(s);
    var r := SelectionSort(s);
    assert x in multiset(r);
    k :| 0 <= k < |r| && r[k] == x;
  }

  /** The in-place sort: the array ends up holding SelectionSort of its old contents. */
  method SortDescending<T>(a: array<Scored<T>>)
    modifies a
    ensures a[..] == SelectionSort(old(a[..]))
  {
    if a.Length == 0 {
      return;
    }
    var i := 0;
    while i < a.Length - 1
      invariant 0 <= i <= a.Length - 1
      invariant SortFrom(a[..], i) == SelectionSort(old(a[..]))
    {
      var maxIdx := i;
      var j := i + 1;
      while j < a.Length
        invariant i < j <= a.Length
        invariant maxIdx == ArgMax(a[..], i, j)
      {
        if a[j].score > a[maxIdx].score {
          maxIdx := j;
        }
        j := j + 1;
      }
      ghost var before := a[..];
      a[i], a[maxIdx] := a[maxIdx], a[i];
      assert a[..] == Swap(before, i, maxIdx);
      i := i + 1;
    }
  }

  // ---------------------------------------------------------------------
  // Counting along a ranking

  /** The number of entries of s whose candidate satisfies p. */
  function CountIf<T>(s: seq<Scored<T>>, p: T -> bool): (n: nat)
    ensures n <= |s|
  {
    if s == [] then 0
    else CountIf(s[..|s| - 1], p) + (if p(s[|s| - 1].item) then 1 else 0)
  }

  lemma {:induction false} CountIfAppend<T>(a: seq<Scored<T>>, c: seq<Scored<T>>, p: T -> bool)
    ensures CountIf(a + c, p) == CountIf(a, p) + CountIf(c, p)
    decreases |c|
  {
    if c != [] {
      var c' := c[..|c| - 1];
      assert (a + c)[..|a + c| - 1] == a + c';
      assert (a + c)[|a + c| - 1] == c[|c| - 1];
      CountIfAppend(a, c', p);
    } else {
      assert a + c == a;
    }
  }

  /** Counting depends only on which entries occur, and how often: a permutation has the same count. */
  lemma {:induction false} CountIfPermutation<T>(s: seq<Scored<T>>, t: seq<Scored<T>>, p: T -> bool)
    requires multiset(s) == multiset(t)
    ensures CountIf(s, p) == CountIf(t, p)
    decreases |s|
  {
    if s != [] {
      var x := s[|s| - 1];
      var s' := s[..|s| - 1];
      assert s == s' + [x];
      assert multiset(s') == multiset(s) - multiset{x} by {
        assert multiset(s) == multiset(s') + multiset{x};
      }
      assert x in multiset(t);
      var k :| 0 <= k < |t| && t[k] == x;
      var t1, t2 := t[..k], t[k + 1..];
      assert t == t1 + [x] + t2;
      RemoveAtMultiset(t1, x, t2);
      CountIfPermutation(s', t1 + t2, p);
      CountIfRemoveAt(t1, x, t2, p);
    }
  }

  /** Removing one entry lowers the count by one exactly when the entry satisfies p. */
  lemma CountIfRemoveAt<T>(t1: seq<Scored<T>>, x: Scored<T>, t2: seq<Scored<T>>, p: T -> bool)
    ensures CountIf(t1 + [x] + t2, p) == CountIf(t1 + t2, p) + (if p(x.item) then 1 else 0)
  {
    CountIfAppend(t1 + [x], t2, p);
    CountIfAppend(t1, [x], p);
    CountIfAppend(t1, t2, p);
    assert CountIf([x], p) == (if p(x.item) then 1 else 0) by {
      assert [x][..0] == [];
    }
  }

  lemma RemoveAtMultiset<T>(t1: seq<T>, x: T, t2: seq<T>)
    ensures multiset(t1 + t2) == multiset(t1 + [x] + t2) - multiset{x}
  {
    assert multiset(t1 + [x] + t2) == multiset(t1) + multiset{x} + multiset(t2);
    assert multiset(t1 + t2) == multiset(t1) + multiset(t2);
  }

  /** Entries satisfying p all come before the entries that do not. */
  predicate PFirst<T>(s: seq<Scored<T>>, p: T -> bool) {
    forall i, j :: 0 <= i < j < |s| && p(s[j].item) ==> p(s[i].item)
  }

  lemma {:induction false} CountAll<T>(s: seq<Scored<T>>, p: T -> bool)
    requires forall i :: 0 <= i < |s| ==> p(s[i].item)
    ensures CountIf(s, p) == |s|
  {
    if s != [] {
      CountAll(s[..|s| - 1], p);
    }
  }

  lemma {:induction false} CountNone<T>(s: seq<Scored<T>>, p: T -> bool)
    requires forall i :: 0 <= i < |s| ==> !p(s[i].item)
    ensures CountIf(s, p) == 0
  {
    if s != [] {
      CountNone(s[..|s| - 1], p);
    }
  }

  /** A prefix grows by the next element. */
  lemma ExtendPrefix<T>(s: seq<T>, i: int)
    requires 0 <= i < |s|
    ensures s[..i + 1] == s[..i] + [s[i]]
  {
  }

  /**
   * When the entries satisfying p come first, a prefix of length c holds
   * as many of them as it can: the smaller of c and their total.
   */
  lemma PrefixCount<T>(s: seq<Scored<T>>, p: T -> bool, c: int)
    requires PFirst(s, p) && 0 <= c <= |s|
    ensures CountIf(s[..c], p) == if c < CountIf(s, p) then c else CountIf(s, p)
  {
    if c < |s| && p(s[c].item) {
      PrefixBeforeMatch(s, p, c);
    } else {
      PrefixCoversMatches(s, p, c);
    }
  }

  /** A prefix ending just before an entry satisfying p is made of such entries only, and is shorter than their total. */
  lemma PrefixBeforeMatch<T>(s: seq<Scored<T>>, p: T -> bool, c: int)
    requires PFirst(s, p) && 0 <= c < |s| && p(s[c].item)
    ensures CountIf(s[..c], p) == c < CountIf(s, p)
  {
    forall i | 0 <= i < c + 1
      ensures p(s[i].item)
    {
      if i < c {
        assert 0 <= i < c < |s| && p(s[c].item);
      }
    }
    CountAllPrefix(s, p, c);
    CountAllPrefix(s, p, c + 1);
    assert s == s[..c + 1] + s[c + 1..];
    CountIfAppend(s[..c + 1], s[c + 1..], p);
  }

  /** A prefix of n entries that all satisfy p counts n. */
  lemma CountAllPrefix<T>(s: seq<Scored<T>>, p: T -> bool, n: int)
    requires 0 <= n <= |s| && forall i :: 0 <= i < n ==> p(s[i].item)
    ensures CountIf(s[..n], p) == n
  {
    forall i | 0 <= i < n
      ensures p(s[..n][i].item)
    {
      assert s[..n][i] == s[i];
    }
    CountAll(s[..n], p);
  }

  /** A prefix after which no entry satisfies p holds all of them. */
  lemma PrefixCoversMatches<T>(s: seq<Scored<T>>, p: T -> bool, c: int)
    requires PFirst(s, p) && 0 <= c <= |s| && (c < |s| ==> !p(s[c].item))
    ensures CountIf(s[..c], p) == CountIf(s, p) <= c
  {
    var v := s[c..];
    forall i | 0 <= i < |v|
      ensures !p(v[i].item)
    {
      assert v[i] == s[c + i];
    }
    CountNone(v, p);
    assert s == s[..c] + v;
    CountIfAppend(s[..c], v, p);
  }
}
