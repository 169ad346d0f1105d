/**
 * The column aggregates pandas computes for the reports: `mode()`, `value_counts()`,
 * `min()` and `max()`. A value's frequency in a column `s` is `multiset(s)[v]`.
 */
module Frequency {
  import opened Outcomes
  import Text

  /** `less` orders values totally, as pandas' sort inside `mode()` needs. */
  ghost predicate StrictTotalOrder<T(!new)>(less: (T, T) -> bool)
  {
    && (forall a :: !less(a, a))
    && (forall a, b, c :: less(a, b) && less(b, c) ==> less(a, c))
    && (forall a, b :: a != b ==> less(a, b) || less(b, a))
  }

  /** `v` is a better answer for `mode()[0]` than `y`, or the same value. */
  predicate Beats<T(==)>(s: seq<T>, less: (T, T) -> bool, v: T, y: T)
  {
    multiset(s)[y] < multiset(s)[v] || (multiset(s)[y] == multiset(s)[v] && (y == v || less(v, y)))
  }

  /**
   * What `s.mode()[0]` means: a value of `s` that occurs at least as often as every other
   * value, and is the smallest of the values that occur that often (mode() sorts its result).
   */
  predicate IsMode<T(==)>(s: seq<T>, less: (T, T) -> bool, v: T)
  {
    v in s && forall j :: 0 <= j < |s| ==> Beats(s, less, v, s[j])
  }

  /** Scans `s[i..]`, keeping the best value so far. */
  function ModeFrom<T(==,!new)>(s: seq<T>, less: (T, T) -> bool, i: nat, best: T): (r: T)
    requires StrictTotalOrder(less)
    requires i <= |s| && best in s
    requires forall j :: 0 <= j < i ==> Beats(s, less, best, s[j])
    ensures IsMode(s, less, r)
    decreases |s| - i
  {
    if i == |s| then best
    else
      var x := s[i];
      if multiset(s)[best] < multiset(s)[x] || (multiset(s)[best] == multiset(s)[x] && less(x, best))
      then
        assert forall j :: 0 <= j < i ==> Beats(s, less, x, s[j]) by {
          forall j | 0 <= j < i ensures Beats(s, less, x, s[j]) {
            var y := s[j];
            assert Beats(s, less, best, y);
            if multiset(s)[y] == multiset(s)[x] && y != x && y != best {
              assert less(x, best) && less(best, y);
            }
          }
        }
        ModeFrom(s, less, i + 1, x)
      else ModeFrom(s, less, i + 1, best)
  }

  /** `s.mode()[0]`; on an empty column `mode()` is empty and `[0]` raises KeyError. */
  function Mode<T(==,!new)>(s: seq<T>, less: (T, T) -> bool): (r: Result<T>)
    requires StrictTotalOrder(less)
    ensures r.Ok? <==> |s| > 0
    ensures r.Ok? ==> IsMode(s, less, r.value)
    ensures r.Err? ==> r.error == EmptyColumn
  {
    if s == [] then Err(EmptyColumn) else Ok(ModeFrom(s, less, 1, s[0]))
  }

  /** There is only one answer for `mode()[0]`: the mode function is determined by its specification. */
  lemma ModeUnique<T(!new)>(s: seq<T>, less: (T, T) -> bool, v: T, w: T)
    requires StrictTotalOrder(less)
    requires IsMode(s, less, v) && IsMode(s, less, w)
    ensures v == w
  {
    var i :| 0 <= i < |s| && s[i] == w;
    var j :| 0 <= j < |s| && s[j] == v;
    assert Beats(s, less, v, s[i]) && Beats(s, less, w, s[j]);
  }

  /** Ordering of numeric columns. */
  function IntLess(a: int, b: int): bool { a < b }

  lemma IntLessIsOrder()
    ensures StrictTotalOrder(IntLess)
  {
  }

  /** Ordering of text columns: Python's string comparison. */
  function StringLess(a: string, b: string): bool { Text.StrLess(a, b) }

  lemma StringLessIsOrder()
    ensures StrictTotalOrder(StringLess)
  {
    forall a: string ensures !StringLess(a, a) {
      Text.StrLessIrreflexive(a);
    }
    forall a: string, b: string, c: string | StringLess(a, b) && StringLess(b, c)
      ensures StringLess(a, c)
    {
      Text.StrLessTransitive(a, b, c);
    }
    forall a: string, b: string | a != b ensures StringLess(a, b) || StringLess(b, a) {
      Text.StrLessTotal(a, b);
    }
  }

  /** Ordering of (start, end) station pairs: by start station, then by end station. */
  function PairLess(a: (string, string), b: (string, string)): bool
  {
    Text.StrLess(a.0, b.0) || (a.0 == b.0 && Text.StrLess(a.1, b.1))
  }

  lemma PairLessIsOrder()
    ensures StrictTotalOrder(PairLess)
  {
    StringLessIsOrder();
    forall a: (string, string) ensures !PairLess(a, a) {
      assert !StringLess(a.0, a.0) && !StringLess(a.1, a.1);
    }
    forall a: (string, string), b: (string, string), c: (string, string)
      | PairLess(a, b) && PairLess(b, c)
      ensures PairLess(a, c)
    {
      if Text.StrLess(a.0, b.0) && Text.StrLess(b.0, c.0) {
        assert StringLess(a.0, b.0) && StringLess(b.0, c.0);
      } else if a.0 == b.0 == c.0 {
        assert StringLess(a.1, b.1) && StringLess(b.1, c.1);
      }
    }
    forall a: (string, string), b: (string, string) | a != b
      ensures PairLess(a, b) || PairLess(b, a)
    {
      if a.0 != b.0 {
        assert StringLess(a.0, b.0) || StringLess(b.0, a.0);
      } else {
        assert StringLess(a.1, b.1) || StringLess(b.1, a.1);
      }
    }
  }

  // ---------------------------------------------------------------- value_counts()

  predicate DistinctKeys<T(==)>(r: seq<(T, nat)>)
  {
    forall i, j :: 0 <= i < j < |r| ==> r[i].0 != r[j].0
  }

  predicate NonIncreasing<T>(r: seq<(T, nat)>)
  {
    forall i, j :: 0 <= i < j < |r| ==> r[i].1 >= r[j].1
  }

  function Keys<T>(r: seq<(T, nat)>): (k: seq<T>)
    ensures |k| == |r| && forall i :: 0 <= i < |r| ==> k[i] == r[i].0
  {
    seq(|r|, i requires 0 <= i < |r| => r[i].0)
  }

  function SumCounts<T>(r: seq<(T, nat)>): nat
  {
    if r == [] then 0 else r[0].1 + SumCounts(r[1..])
  }

  /** The distinct values of `s`, in order of first appearance. */
  function Distinct<T(==,!new)>(s: seq<T>): (d: seq<T>)
    ensures forall x :: x in d <==> x in s
    ensures forall i, j :: 0 <= i < j < |d| ==> d[i] != d[j]
  {
    if s == [] then []
    else
      var d := Distinct(s[..|s| - 1]);
      assert forall x :: x in s <==> x in s[..|s| - 1] || x == s[|s| - 1] by {
        assert s == s[..|s| - 1] + [s[|s| - 1]];
      }
      if s[|s| - 1] in d then d else d + [s[|s| - 1]]
  }

  /** Each key paired with the number of times it occurs in `s`. */
  function CountsOf<T(==)>(keys: seq<T>, s: seq<T>): (r: seq<(T, nat)>)
    ensures Keys(r) == keys
    ensures forall i :: 0 <= i < |r| ==> r[i].1 == multiset(s)[r[i].0]
  {
    if keys == [] then [] else [(keys[0], multiset(s)[keys[0]])] + CountsOf(keys[1..], s)
  }

  /** Inserts `p` after every pair with a larger count, ahead of those with an equal or smaller one. */
  function InsertByCount<T(==,!new)>(r: seq<(T, nat)>, p: (T, nat)): (q: seq<(T, nat)>)
    ensures |q| == |r| + 1
    ensures forall x :: x in q <==> x in r || x == p
    ensures q[0] == p || (|r| > 0 && q[0] == r[0])
    ensures NonIncreasing(r) ==> NonIncreasing(q)
    ensures SumCounts(q) == SumCounts(r) + p.1
  {
    if r == [] then [p]
    else if r[0].1 <= p.1 then [p] + r
    else
      assert forall x :: x in r <==> x == r[0] || x in r[1..] by {
        assert r == [r[0]] + r[1..];
      }
      var tail := InsertByCount(r[1..], p);
      assert NonIncreasing(r) ==> forall j :: 0 <= j < |tail| ==> tail[j].1 <= r[0].1 by {
        assert forall j :: 0 <= j < |tail| ==> tail[j] in r[1..] || tail[j] == p;
      }
      [r[0]] + tail
  }

  /** A key that is in `r` is the key of one of its pairs. */
  lemma KeyOfMember<T>(r: seq<(T, nat)>, x: (T, nat))
    requires x in r
    ensures x.0 in Keys(r)
  {
    var k :| 0 <= k < |r| && r[k] == x;
    assert Keys(r)[k] == x.0;
  }

  /** Inserting a pair whose key is new keeps the keys distinct. */
  lemma {:induction false} InsertKeepsKeysDistinct<T(!new)>(r: seq<(T, nat)>, p: (T, nat))
    requires DistinctKeys(r) && p.0 !in Keys(r)
    ensures DistinctKeys(InsertByCount(r, p))
  {
    if r != [] && r[0].1 > p.1 {
      var rest := r[1..];
      assert Keys(r) == [r[0].0] + Keys(rest);
      InsertKeepsKeysDistinct(rest, p);
      var q := InsertByCount(r, p);
      assert q == [r[0]] + InsertByCount(rest, p);
      forall j | 0 < j < |q| ensures q[0].0 != q[j].0 {
        assert q[j] in rest || q[j] == p;
        if q[j] in rest {
          KeyOfMember(rest, q[j]);
        }
      }
    }
  }

  /**
   * An insertion sort by descending count. Each pair is inserted ahead of the later pairs with
   * the same count, so equal counts keep the order of `r`.
   */
  function SortByCount<T(==,!new)>(r: seq<(T, nat)>): (q: seq<(T, nat)>)
    ensures |q| == |r|
    ensures forall x :: x in q <==> x in r
    ensures NonIncreasing(q)
    ensures SumCounts(q) == SumCounts(r)
  {
    if r == [] then []
    else
      assert forall x :: x in r <==> x == r[0] || x in r[1..] by {
        assert r == [r[0]] + r[1..];
      }
      InsertByCount(SortByCount(r[1..]), r[0])
  }

  /** Sorting keeps the keys distinct. */
  lemma {:induction false} SortKeepsKeysDistinct<T(!new)>(r: seq<(T, nat)>)
    requires DistinctKeys(r)
    ensures DistinctKeys(SortByCount(r))
  {
    if r != [] {
      var rest := SortByCount(r[1..]);
      assert Keys(r) == [r[0].0] + Keys(r[1..]);
      SortKeepsKeysDistinct(r[1..]);
      forall i | 0 <= i < |rest| ensures Keys(rest)[i] != r[0].0 {
        assert rest[i] in r[1..];
        KeyOfMember(r[1..], rest[i]);
      }
      InsertKeepsKeysDistinct(rest, r[0]);
    }
  }

  /** Two pair lists holding the same pairs hold the same keys. */
  lemma SamePairsSameKeys<T(!new)>(r: seq<(T, nat)>, q: seq<(T, nat)>)
    requires forall x :: x in q <==> x in r
    ensures forall k :: k in Keys(q) <==> k in Keys(r)
  {
    forall k | k in Keys(q) ensures k in Keys(r) {
      var i :| 0 <= i < |q| && Keys(q)[i] == k;
      assert q[i] in r;
      var j :| 0 <= j < |r| && r[j] == q[i];
      assert Keys(r)[j] == k;
    }
    forall k | k in Keys(r) ensures k in Keys(q) {
      var j :| 0 <= j < |r| && Keys(r)[j] == k;
      assert r[j] in q;
      var i :| 0 <= i < |q| && q[i] == r[j];
      assert Keys(q)[i] == k;
    }
  }

  /** `s.value_counts()`: each distinct value with its number of occurrences, most frequent first. */
  function ValueCounts<T(==,!new)>(s: seq<T>): (r: seq<(T, nat)>)
    ensures forall x :: x in s <==> x in Keys(r)
    ensures forall i :: 0 <= i < |r| ==> r[i].1 == multiset(s)[r[i].0]
    ensures DistinctKeys(r)
    ensures NonIncreasing(r)
  {
    var keys := Distinct(s);
    var counted := CountsOf(keys, s);
    var r := SortByCount(counted);
    SamePairsSameKeys(counted, r);
    SortKeepsKeysDistinct(counted);
    assert forall i :: 0 <= i < |r| ==> r[i] in counted;
    r
  }

  lemma {:induction false} CountsOfSnoc<T>(keys: seq<T>, s: seq<T>, x: T)
    ensures SumCounts(CountsOf(keys, s + [x])) == SumCounts(CountsOf(keys, s)) + multiset(keys)[x]
  {
    if keys != [] {
      CountsOfSnoc(keys[1..], s, x);
      assert keys == [keys[0]] + keys[1..];
    }
  }

  lemma {:induction false} DistinctOccursOnce<T>(keys: seq<T>, x: T)
    requires forall i, j :: 0 <= i < j < |keys| ==> keys[i] != keys[j]
    requires x in keys
    ensures multiset(keys)[x] == 1
  {
    assert keys == [keys[0]] + keys[1..];
    if keys[0] == x {
      assert x !in keys[1..];
    } else {
      DistinctOccursOnce(keys[1..], x);
    }
  }

  /** Counting every distinct value of `s` once accounts for every row of `s`. */
  lemma {:induction false} CountsCoverColumn<T>(keys: seq<T>, s: seq<T>)
    requires forall i, j :: 0 <= i < j < |keys| ==> keys[i] != keys[j]
    requires forall x :: x in s ==> x in keys
    ensures SumCounts(CountsOf(keys, s)) == |s|
  {
    if s == [] {
      CountsOfEmpty(keys);
    } else {
      var init, last := s[..|s| - 1], s[|s| - 1];
      assert s == init + [last];
      CountsCoverColumn(keys, init);
      CountsOfSnoc(keys, init, last);
      DistinctOccursOnce(keys, last);
    }
  }

  lemma {:induction false} CountsOfEmpty<T>(keys: seq<T>)
    ensures SumCounts(CountsOf(keys, [])) == 0
  {
    if keys != [] {
      CountsOfEmpty(keys[1..]);
    }
  }

  /** The counts of `value_counts()` add up to the length of the column. */
  lemma ValueCountsTotal<T(!new)>(s: seq<T>)
    ensures SumCounts(ValueCounts(s)) == |s|
  {
    CountsCoverColumn(Distinct(s), s);
  }

  // ---------------------------------------------------------------- min(), max()

  /** `s.min()` of a non-empty numeric column. */
  function Min(s: seq<int>): (m: int)
    requires |s| > 0
    ensures m in s && forall i :: 0 <= i < |s| ==> m <= s[i]
  {
    if |s| == 1 then s[0]
    else
      var m := Min(s[1..]);
      assert forall i :: 1 <= i < |s| ==> s[i] == s[1..][i - 1];
      if s[0] <= m then s[0] else m
  }

  /** `s.max()` of a non-empty numeric column. */
  function Max(s: seq<int>): (m: int)
    requires |s| > 0
    ensures m in s && forall i :: 0 <= i < |s| ==> s[i] <= m
  {
    if |s| == 1 then s[0]
    else
      var m := Max(s[1..]);
      assert forall i :: 1 <= i < |s| ==> s[i] == s[1..][i - 1];
      if s[0] >= m then s[0] else m
  }

  /** Any value of a column lies between the column's minimum and maximum. */
  lemma BetweenMinAndMax(s: seq<int>, v: int)
    requires v in s
    ensures Min(s) <= v <= Max(s)
  {
  }
}
