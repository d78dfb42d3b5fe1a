/**
 * Range-partitioned sort of assignment11/parallel_sorter.py, run sequentially.
 *
 * `SliceData` is `slice_data`: bucket i keeps the input values v with
 * lo + delta*(i-1) < v <= lo + delta*i, where lo and hi are the minimum and
 * the maximum and delta = (hi - lo) / (size - 1) is a true division.
 * `PSort` is `psort` with the MPI communicator replaced by indexing: the local
 * bucket of rank q is bucket q of the slicing, and the gather is the list of
 * the local buckets in rank order.
 */
module ParallelSorter {
  import opened Wrappers

  /** The errors `psort` can raise. */
  datatype SortError =
    | TooFewProcesses  // `size < 2` raises ValueError before anything else
    | EmptyData        // `min` of an empty array raises ValueError

  predicate Sorted(s: seq<int>)
  {
    forall i, j :: 0 <= i < j < |s| ==> s[i] <= s[j]
  }

  // ---------------------------------------------------------------------------
  // Minimum and maximum (parallel_sorter.py:11)
  // ---------------------------------------------------------------------------

  function Min(s: seq<int>): (m: int)
    requires |s| > 0
    ensures m in s
    ensures forall x :: x in s ==> m <= x
  {
    if |s| == 1 then s[0]
    else
      var m' := Min(s[1..]);
      assert forall x :: x in s ==> x == s[0] || x in s[1..];
      if s[0] <= m' then s[0] else m'
  }

  function Max(s: seq<int>): (m: int)
    requires |s| > 0
    ensures m in s
    ensures forall x :: x in s ==> x <= m
  {
    if |s| == 1 then s[0]
    else
      var m' := Max(s[1..]);
      assert forall x :: x in s ==> x == s[0] || x in s[1..];
      if s[0] >= m' then s[0] else m'
  }

  // ---------------------------------------------------------------------------
  // The bucket mask (parallel_sorter.py:12-15)
  // ---------------------------------------------------------------------------

  /** `delta` of line 12: Python's `/` is a true division, modelled over the reals. */
  function Delta(lo: int, hi: int, size: int): real
    requires size >= 2
  {
    (hi - lo) as real / (size - 1) as real
  }

  /** The mask of line 15 for bucket i, exactly as written, over exact reals. */
  predicate MaskAsWritten(v: int, lo: int, delta: real, i: int)
  {
    v as real > lo as real + delta * (i - 1) as real && v as real <= lo as real + delta * i as real
  }

  /*
   * The model compares in integers: both sides of the mask are multiplied by
   * size - 1, so v passes the mask of bucket i exactly when its key
   * Mul(v - lo, size - 1) lies in (Upper(hi - lo, i - 1), Upper(hi - lo, i)].
   * MaskIsInRange proves the two forms agree.
   */

  /**
   * x * n as repeated addition. Unfolding it gives only linear terms, so the
   * products stay out of the proofs about filtering; MulIsProduct connects it
   * to `*` inside the arithmetic lemmas.
   */
  function Mul(x: int, n: int): int
    decreases if n < 0 then -n else n
  {
    if n == 0 then 0 else if n > 0 then Mul(x, n - 1) + x else Mul(x, n + 1) - x
  }

  lemma {:induction false} MulIsProduct(x: int, n: int)
    ensures Mul(x, n) == x * n
    decreases if n < 0 then -n else n
  {
    if n > 0 {
      MulIsProduct(x, n - 1);
    } else if n < 0 {
      MulIsProduct(x, n + 1);
    }
  }

  /** The upper end lo + delta*i of bucket i's interval, less lo and times size - 1. */
  function Upper(width: int, i: int): int
  {
    Mul(width, i)
  }

  /** A value together with its key, the value's distance above the minimum times size - 1. */
  datatype Keyed = Keyed(value: int, key: int)

  /** Every element of d paired with its key. */
  function Keys(d: seq<int>, lo: int, s1: int): (ks: seq<Keyed>)
    ensures |ks| == |d|
    ensures forall k :: 0 <= k < |d| ==> ks[k].value == d[k]
  {
    if d == [] then [] else [Keyed(d[0], Mul(d[0] - lo, s1))] + Keys(d[1..], lo, s1)
  }

  /** v passes the mask of bucket i, in integer form. */
  predicate InBucketRange(v: int, lo: int, hi: int, size: int, i: int)
  {
    Upper(hi - lo, i - 1) < Mul(v - lo, size - 1) <= Upper(hi - lo, i)
  }

  // ---------------------------------------------------------------------------
  // Slicing (parallel_sorter.py:8-17)
  // ---------------------------------------------------------------------------

  /** `data[mask]`: the values whose key lies in (lower, upper], in input order. */
  function Select(ks: seq<Keyed>, lower: int, upper: int): seq<int>
  {
    if ks == [] then []
    else (if lower < ks[0].key <= upper then [ks[0].value] else []) + Select(ks[1..], lower, upper)
  }

  /** Bucket i: the values whose keys lie in (Upper(width, i - 1), Upper(width, i)]. */
  function Bucket(ks: seq<Keyed>, width: int, i: int): seq<int>
  {
    Select(ks, Upper(width, i - 1), Upper(width, i))
  }

  /** The list comprehension of line 15, one bucket after another. */
  function Buckets(ks: seq<Keyed>, width: int, size: nat): (buckets: seq<seq<int>>)
    ensures |buckets| == size
  {
    if size == 0 then [] else Buckets(ks, width, size - 1) + [Bucket(ks, width, size - 1)]
  }

  /** The slicing with the bounds given: bucket i keeps the values of (lo + delta*(i-1), lo + delta*i]. */
  function SliceWith(data: seq<int>, lo: int, hi: int, size: nat): seq<seq<int>>
  {
    Buckets(Keys(data, lo, size - 1), hi - lo, size)
  }

  /** `slice_data(data, size)`: one bucket per rank, between the minimum and the maximum. */
  function SliceData(data: seq<int>, size: int): (buckets: seq<seq<int>>)
    requires |data| > 0 && size >= 2
    ensures |buckets| == size
  {
    SliceWith(data, Min(data), Max(data), size)
  }

  /** Flatten in rank order (`itertools.chain.from_iterable`). */
  function Flatten(bs: seq<seq<int>>): seq<int>
  {
    if bs == [] then [] else Flatten(bs[..|bs| - 1]) + bs[|bs| - 1]
  }

  // ---------------------------------------------------------------------------
  // Filtering by key
  // ---------------------------------------------------------------------------

  lemma {:induction false} KeyOf(d: seq<int>, lo: int, s1: int, k: int)
    requires 0 <= k < |d|
    ensures Keys(d, lo, s1)[k] == Keyed(d[k], Mul(d[k] - lo, s1))
  {
    if k > 0 {
      KeyOf(d[1..], lo, s1, k - 1);
    }
  }

  /** The values of a keyed sequence, in order. */
  function Values(ks: seq<Keyed>): seq<int>
  {
    if ks == [] then [] else [ks[0].value] + Values(ks[1..])
  }

  lemma {:induction false} ValuesOfKeys(d: seq<int>, lo: int, s1: int)
    ensures Values(Keys(d, lo, s1)) == d
  {
    if d != [] {
      ValuesOfKeys(d[1..], lo, s1);
      assert Keys(d, lo, s1)[1..] == Keys(d[1..], lo, s1);
    }
  }

  /** When every copy of v carries the key kv, the selection keeps all copies of v or none. */
  lemma {:induction false} SelectCountKeyed(ks: seq<Keyed>, lower: int, upper: int, v: int, kv: int)
    requires forall j :: 0 <= j < |ks| && ks[j].value == v ==> ks[j].key == kv
    ensures multiset(Select(ks, lower, upper))[v]
            == if lower < kv <= upper then multiset(Values(ks))[v] else 0
  {
    if ks != [] {
      assert forall j :: 0 <= j < |ks[1..]| ==> ks[1..][j] == ks[j + 1];
      SelectCountKeyed(ks[1..], lower, upper, v, kv);
      assert Values(ks) == [ks[0].value] + Values(ks[1..]);
    }
  }

  lemma {:induction false} SelectCount(d: seq<int>, lo: int, s1: int, lower: int, upper: int, v: int)
    ensures multiset(Select(Keys(d, lo, s1), lower, upper))[v]
            == if lower < Mul(v - lo, s1) <= upper then multiset(d)[v] else 0
  {
    var ks := Keys(d, lo, s1);
    forall j | 0 <= j < |ks| && ks[j].value == v
      ensures ks[j].key == Mul(v - lo, s1)
    {
      KeyOf(d, lo, s1, j);
    }
    SelectCountKeyed(ks, lower, upper, v, Mul(v - lo, s1));
    ValuesOfKeys(d, lo, s1);
  }

  /** The positions from `from` on whose keys pass the mask, in increasing order. */
  function MaskPositions(ks: seq<Keyed>, lower: int, upper: int, from: nat): seq<nat>
    decreases |ks| - from
  {
    if from >= |ks| then []
    else (if lower < ks[from].key <= upper then [from] else []) + MaskPositions(ks, lower, upper, from + 1)
  }

  /** Every position in idx lies in [from, n). */
  predicate Within(idx: seq<nat>, from: int, n: int)
  {
    forall j :: 0 <= j < |idx| ==> from <= idx[j] < n
  }

  /** The positions in idx strictly increase. */
  predicate Increasing(idx: seq<nat>)
  {
    forall j, j' :: 0 <= j < j' < |idx| ==> idx[j] < idx[j']
  }

  /** The mask positions from `from` on lie in [from, |ks|). */
  lemma {:induction false} MaskPositionsBounded(ks: seq<Keyed>, lower: int, upper: int, from: nat)
    requires from <= |ks|
    ensures Within(MaskPositions(ks, lower, upper, from), from, |ks|)
    decreases |ks| - from
  {
    if from < |ks| {
      var rest := MaskPositions(ks, lower, upper, from + 1);
      var head: seq<nat> := if lower < ks[from].key <= upper then [from] else [];
      assert MaskPositions(ks, lower, upper, from) == head + rest;
      MaskPositionsBounded(ks, lower, upper, from + 1);
      forall j | 0 <= j < |head + rest|
        ensures from <= (head + rest)[j] < |ks|
      {
        if j >= |head| {
          assert (head + rest)[j] == rest[j - |head|];
        } else {
          assert (head + rest)[j] == head[j] == from;
        }
      }
    }
  }

  /** The mask positions from `from` on are strictly increasing. */
  lemma {:induction false} MaskPositionsIncreasing(ks: seq<Keyed>, lower: int, upper: int, from: nat)
    requires from <= |ks|
    ensures Increasing(MaskPositions(ks, lower, upper, from))
    decreases |ks| - from
  {
    if from < |ks| {
      var rest := MaskPositions(ks, lower, upper, from + 1);
      var head: seq<nat> := if lower < ks[from].key <= upper then [from] else [];
      assert MaskPositions(ks, lower, upper, from) == head + rest;
      MaskPositionsIncreasing(ks, lower, upper, from + 1);
      MaskPositionsBounded(ks, lower, upper, from + 1);
      forall j, j' | 0 <= j < j' < |head + rest|
        ensures (head + rest)[j] < (head + rest)[j']
      {
        assert (head + rest)[j'] == rest[j' - |head|];
        assert from < rest[j' - |head|];
        if j >= |head| {
          assert (head + rest)[j] == rest[j - |head|];
        } else {
          assert (head + rest)[j] == head[j] == from;
        }
      }
    }
  }

  /** A position from `from` on is a mask position exactly when its key passes. */
  lemma {:induction false} MaskPositionsMembership(ks: seq<Keyed>, lower: int, upper: int, from: nat)
    requires from <= |ks|
    ensures var idx := MaskPositions(ks, lower, upper, from);
      forall k :: from <= k < |ks| ==> (k in idx <==> lower < ks[k].key <= upper)
    decreases |ks| - from
  {
    if from < |ks| {
      var rest := MaskPositions(ks, lower, upper, from + 1);
      var head: seq<nat> := if lower < ks[from].key <= upper then [from] else [];
      assert MaskPositions(ks, lower, upper, from) == head + rest;
      MaskPositionsMembership(ks, lower, upper, from + 1);
      MaskPositionsBounded(ks, lower, upper, from + 1);
      assert from !in rest;
    }
  }

  /** The mask positions from `from` on are increasing, and they are exactly the passing positions. */
  lemma {:induction false} MaskPositionsAre(ks: seq<Keyed>, lower: int, upper: int, from: nat)
    requires from <= |ks|
    ensures var idx := MaskPositions(ks, lower, upper, from);
      && Within(idx, from, |ks|)
      && Increasing(idx)
      && (forall k :: from <= k < |ks| ==> (k in idx <==> lower < ks[k].key <= upper))
  {
    MaskPositionsBounded(ks, lower, upper, from);
    MaskPositionsIncreasing(ks, lower, upper, from);
    MaskPositionsMembership(ks, lower, upper, from);
  }

  /** The selection from ks[from..] is the values at the mask positions. */
  lemma {:induction false} SelectAtMaskPositions(ks: seq<Keyed>, lower: int, upper: int, from: nat)
    requires from <= |ks|
    ensures var idx, sel := MaskPositions(ks, lower, upper, from), Select(ks[from..], lower, upper);
      && |idx| == |sel|
      && (forall j :: 0 <= j < |idx| ==> 0 <= idx[j] < |ks| && sel[j] == ks[idx[j]].value)
    decreases |ks| - from
  {
    if from < |ks| {
      SelectAtMaskPositions(ks, lower, upper, from + 1);
      var selRest := Select(ks[from + 1..], lower, upper);
      assert ks[from..][1..] == ks[from + 1..];
      assert ks[from..][0] == ks[from];
      var sel := Select(ks[from..], lower, upper);
      if lower < ks[from].key <= upper {
        assert sel == [ks[from].value] + selRest;
      } else {
        assert sel == selRest;
      }
    }
  }

  /**
   * A boolean-mask filter keeps order: the selection is the values at the
   * increasing list of positions whose keys pass the mask, and those are all
   * such positions.
   */
  lemma {:induction false} SelectIsMaskFilter(ks: seq<Keyed>, lower: int, upper: int)
    ensures var idx, sel := MaskPositions(ks, lower, upper, 0), Select(ks, lower, upper);
      && |idx| == |sel|
      && (forall j :: 0 <= j < |idx| ==> idx[j] < |ks| && sel[j] == ks[idx[j]].value)
      && (forall j, j' :: 0 <= j < j' < |idx| ==> idx[j] < idx[j'])
      && (forall k :: 0 <= k < |ks| ==> (k in idx <==> lower < ks[k].key <= upper))
  {
    MaskPositionsAre(ks, lower, upper, 0);
    SelectAtMaskPositions(ks, lower, upper, 0);
    assert ks[0..] == ks;
  }

  /** Splitting the key interval at an intermediate value splits the selection. */
  lemma {:induction false} SelectSplit(ks: seq<Keyed>, lower: int, mid: int, upper: int)
    requires lower <= mid <= upper
    ensures multiset(Select(ks, lower, upper))
            == multiset(Select(ks, lower, mid)) + multiset(Select(ks, mid, upper))
  {
    if ks != [] {
      SelectSplit(ks[1..], lower, mid, upper);
    }
  }

  /** An interval that holds every key keeps the whole sequence. */
  lemma {:induction false} SelectAllKeyed(ks: seq<Keyed>, lower: int, upper: int)
    requires forall j :: 0 <= j < |ks| ==> lower < ks[j].key <= upper
    ensures Select(ks, lower, upper) == Values(ks)
  {
    if ks != [] {
      assert forall j :: 0 <= j < |ks[1..]| ==> ks[1..][j] == ks[j + 1];
      SelectAllKeyed(ks[1..], lower, upper);
    }
  }

  lemma {:induction false} SelectAll(d: seq<int>, lo: int, s1: int, lower: int, upper: int)
    requires forall x :: x in d ==> lower < Mul(x - lo, s1) <= upper
    ensures Select(Keys(d, lo, s1), lower, upper) == d
  {
    var ks := Keys(d, lo, s1);
    forall j | 0 <= j < |ks|
      ensures lower < ks[j].key <= upper
    {
      KeyOf(d, lo, s1, j);
      assert d[j] in d;
    }
    SelectAllKeyed(ks, lower, upper);
    ValuesOfKeys(d, lo, s1);
  }

  /** An empty interval keeps nothing. */
  lemma {:induction false} SelectNone(ks: seq<Keyed>, lower: int, upper: int)
    requires upper <= lower
    ensures Select(ks, lower, upper) == []
  {
    if ks != [] {
      SelectNone(ks[1..], lower, upper);
    }
  }


  lemma {:induction false} MulKeepsOrder(c: int, x: int, y: int)
    requires c >= 0 && x <= y
    ensures c * x <= c * y
  {
    assert c * y - c * x == c * (y - x);
  }

  lemma {:induction false} MulMonotone(c: int, x: int, y: int)
    requires c >= 0 && x <= y
    ensures Mul(c, x) <= Mul(c, y)
  {
    MulIsProduct(c, x);
    MulIsProduct(c, y);
    MulKeepsOrder(c, x, y);
  }

  lemma {:induction false} BucketAt(ks: seq<Keyed>, width: int, size: nat, i: nat)
    requires i < size
    ensures Buckets(ks, width, size)[i] == Bucket(ks, width, i)
  {
    if i < size - 1 {
      BucketAt(ks, width, size - 1, i);
    }
  }

  /** Flattening one more bucket appends it. */
  lemma {:induction false} FlattenSnoc(a: seq<seq<int>>, b: seq<int>)
    ensures Flatten(a + [b]) == Flatten(a) + b
  {
    assert (a + [b])[..|a|] == a;
  }

  /** Flattening the buckets up to `size` appends the last one to those before it. */
  lemma {:induction false} BucketsSnoc(ks: seq<Keyed>, width: int, size: nat)
    requires size > 0
    ensures multiset(Flatten(Buckets(ks, width, size)))
            == multiset(Flatten(Buckets(ks, width, size - 1)))
               + multiset(Select(ks, Upper(width, size - 2), Upper(width, size - 1)))
  {
    FlattenSnoc(Buckets(ks, width, size - 1), Bucket(ks, width, size - 1));
  }

  /** The thresholds grow with the bucket index. */
  lemma {:induction false} ThresholdsOrdered(width: int, size: int)
    requires width >= 0 && size >= 2
    ensures Upper(width, -1) <= Upper(width, size - 2) <= Upper(width, size - 1)
  {
    MulMonotone(width, -1, size - 2);
    MulMonotone(width, size - 2, size - 1);
  }

  /** All the buckets together hold the keys in (Upper(width, -1), Upper(width, size - 1)]. */
  lemma {:induction false} AllBuckets(ks: seq<Keyed>, width: int, size: nat)
    requires width >= 0 && size > 0
    ensures multiset(Flatten(Buckets(ks, width, size)))
            == multiset(Select(ks, Upper(width, -1), Upper(width, size - 1)))
  {
    BucketsSnoc(ks, width, size);
    if size > 1 {
      AllBuckets(ks, width, size - 1);
      ThresholdsOrdered(width, size);
      SelectSplit(ks, Upper(width, -1), Upper(width, size - 2), Upper(width, size - 1));
    }
  }

  // ---------------------------------------------------------------------------
  // Arithmetic on keys and thresholds
  // ---------------------------------------------------------------------------

  /** Values in [lo, hi] lie in the union of all bucket intervals when lo < hi. */
  lemma {:induction false} InRangeAll(v: int, lo: int, hi: int, size: int)
    requires size >= 2 && lo < hi && lo <= v <= hi
    ensures Upper(hi - lo, -1) < Mul(v - lo, size - 1) <= Upper(hi - lo, size - 1)
  {
    MulIsProduct(hi - lo, -1);
    MulIsProduct(hi - lo, size - 1);
    MulIsProduct(v - lo, size - 1);
    MulKeepsOrder(size - 1, v - lo, hi - lo);
    MulKeepsOrder(size - 1, 0, v - lo);
  }

  /** A value of a lower bucket is strictly below a value of a higher one. */
  lemma {:induction false} InRangeOrdered(v: int, w: int, lo: int, hi: int, size: int, i: int, j: int)
    requires size >= 2 && lo <= hi && i < j
    requires InBucketRange(v, lo, hi, size, i) && InBucketRange(w, lo, hi, size, j)
    ensures v < w
  {
    MulMonotone(hi - lo, i, j - 1);
    if w <= v {
      MulIsProduct(v - lo, size - 1);
      MulIsProduct(w - lo, size - 1);
      MulKeepsOrder(size - 1, w - lo, v - lo);
    }
  }

  /** Bucket 0's interval holds lo when lo < hi, and no larger value. */
  lemma {:induction false} InRangeFirst(v: int, lo: int, hi: int, size: int)
    requires size >= 2 && lo < hi && lo <= v
    ensures InBucketRange(v, lo, hi, size, 0) <==> v == lo
  {
    MulIsProduct(hi - lo, -1);
    MulIsProduct(hi - lo, 0);
    MulIsProduct(v - lo, size - 1);
    if v > lo {
      MulKeepsOrder(size - 1, 1, v - lo);
    }
  }

  /** Rounding up: q = ceil(x / c) satisfies c*(q-1) < x <= c*q. */
  lemma {:induction false} CeilingDivision(x: int, c: int)
    requires x > 0 && c > 0
    ensures var q := (x + c - 1) / c; 1 <= q && c * (q - 1) < x <= c * q
  {
    var q, r := (x + c - 1) / c, (x + c - 1) % c;
    assert x + c - 1 == c * q + r && 0 <= r < c;
    assert c * (q - 1) == c * q - c;
  }

  /** The bucket index of v: 0 for the minimum, otherwise the least i with v <= lo + delta*i. */
  function BucketIndex(v: int, lo: int, hi: int, size: int): int
    requires lo < hi
  {
    if v <= lo then 0 else (Mul(v - lo, size - 1) + (hi - lo) - 1) / (hi - lo)
  }

  lemma {:induction false} BucketIndexFits(v: int, lo: int, hi: int, size: int)
    requires size >= 2 && lo < hi && lo <= v <= hi
    ensures 0 <= BucketIndex(v, lo, hi, size) < size
    ensures InBucketRange(v, lo, hi, size, BucketIndex(v, lo, hi, size))
  {
    var i := BucketIndex(v, lo, hi, size);
    var c := hi - lo;
    var x := (v - lo) * (size - 1);
    MulIsProduct(v - lo, size - 1);
    MulIsProduct(c, i - 1);
    MulIsProduct(c, i);
    if v == lo {
      assert x == 0;
    } else {
      assert 0 < x <= c * (size - 1) by {
        MulKeepsOrder(size - 1, 1, v - lo);
        MulKeepsOrder(size - 1, v - lo, c);
      }
      CeilingDivision(x, c);
      assert i < size by {
        if i > size - 1 {
          MulKeepsOrder(c, size, i);
        }
      }
    }
  }

  lemma {:induction false} RealMulKeepsStrictOrder(d: real, x: real, y: real)
    requires d > 0.0
    ensures x > y <==> x * d > y * d
  {
    assert x * d - y * d == (x - y) * d;
  }

  /** Multiplying the mask of line 15 through by size - 1, with exact products. */
  lemma {:induction false} MaskScaled(v: int, lo: int, hi: int, size: int, i: int)
    requires size >= 2
    ensures MaskAsWritten(v, lo, Delta(lo, hi, size), i)
            <==> (hi - lo) * (i - 1) < (v - lo) * (size - 1) <= (hi - lo) * i
  {
    var d := (size - 1) as real;
    var delta := Delta(lo, hi, size);
    assert delta * d == (hi - lo) as real;
    var x := (v - lo) as real;
    var below := delta * (i - 1) as real;
    var above := delta * i as real;
    assert below * d == ((hi - lo) * (i - 1)) as real;
    assert above * d == ((hi - lo) * i) as real;
    assert x * d == ((v - lo) * (size - 1)) as real;
    RealMulKeepsStrictOrder(d, x, below);
    RealMulKeepsStrictOrder(d, above, x);
  }

  /** The mask of line 15 and the integer comparison the model uses agree. */
  lemma {:induction false} MaskIsInRange(v: int, lo: int, hi: int, size: int, i: int)
    requires size >= 2
    ensures MaskAsWritten(v, lo, Delta(lo, hi, size), i) <==> InBucketRange(v, lo, hi, size, i)
  {
    MaskScaled(v, lo, hi, size, i);
    MulIsProduct(v - lo, size - 1);
    MulIsProduct(hi - lo, i - 1);
    MulIsProduct(hi - lo, i);
  }

  // ---------------------------------------------------------------------------
  // Properties of the slicing
  // ---------------------------------------------------------------------------

  /** Bucket i holds the values of its interval, every copy of each. */
  lemma {:induction false} BucketCount(data: seq<int>, lo: int, hi: int, size: int, i: int, v: int)
    requires size >= 2 && 0 <= i < size
    ensures multiset(SliceWith(data, lo, hi, size)[i])[v]
            == if InBucketRange(v, lo, hi, size, i) then multiset(data)[v] else 0
  {
    BucketAt(Keys(data, lo, size - 1), hi - lo, size, i);
    SelectCount(data, lo, size - 1, Upper(hi - lo, i - 1), Upper(hi - lo, i), v);
  }

  /** Bucket i is the input at the increasing positions whose values lie in its interval. */
  lemma {:induction false} BucketPositions(data: seq<int>, lo: int, hi: int, size: int, i: int) returns (idx: seq<nat>)
    requires size >= 2 && 0 <= i < size
    ensures |idx| == |SliceWith(data, lo, hi, size)[i]|
    ensures forall j :: 0 <= j < |idx| ==> idx[j] < |data| && SliceWith(data, lo, hi, size)[i][j] == data[idx[j]]
    ensures forall j, j' :: 0 <= j < j' < |idx| ==> idx[j] < idx[j']
    ensures forall k :: 0 <= k < |data| ==> (k in idx <==> InBucketRange(data[k], lo, hi, size, i))
  {
    var ks := Keys(data, lo, size - 1);
    var lower, upper := Upper(hi - lo, i - 1), Upper(hi - lo, i);
    BucketAt(ks, hi - lo, size, i);
    SelectIsMaskFilter(ks, lower, upper);
    idx := MaskPositions(ks, lower, upper, 0);
    forall k | 0 <= k < |data|
      ensures lower < ks[k].key <= upper <==> InBucketRange(data[k], lo, hi, size, i)
    {
      KeyOf(data, lo, size - 1, k);
    }
  }


  /** When lo < hi, the intervals of all the buckets together hold every value of [lo, hi]. */
  lemma {:induction false} SelectAllWith(data: seq<int>, lo: int, hi: int, size: int)
    requires size >= 2 && lo < hi
    requires forall x :: x in data ==> lo <= x <= hi
    ensures Select(Keys(data, lo, size - 1), Upper(hi - lo, -1), Upper(hi - lo, size - 1)) == data
  {
    forall x | x in data
      ensures Upper(hi - lo, -1) < Mul(x - lo, size - 1) <= Upper(hi - lo, size - 1)
    {
      InRangeAll(x, lo, hi, size);
    }
    SelectAll(data, lo, size - 1, Upper(hi - lo, -1), Upper(hi - lo, size - 1));
  }

  /** When the keys of all of ks pass the outer thresholds, the buckets hold exactly d. */
  lemma {:induction false} PartitionOf(ks: seq<Keyed>, width: int, size: nat, d: seq<int>)
    requires width >= 0 && size > 0
    requires Select(ks, Upper(width, -1), Upper(width, size - 1)) == d
    ensures multiset(Flatten(Buckets(ks, width, size))) == multiset(d)
  {
    AllBuckets(ks, width, size);
  }

  /** With lo < hi bounding every value, slicing loses and invents nothing. */
  lemma {:induction false} PartitionWith(data: seq<int>, lo: int, hi: int, size: int)
    requires size >= 2 && lo < hi
    requires forall x :: x in data ==> lo <= x <= hi
    ensures multiset(Flatten(SliceWith(data, lo, hi, size))) == multiset(data)
  {
    SelectAllWith(data, lo, hi, size);
    PartitionOf(Keys(data, lo, size - 1), hi - lo, size, data);
  }

  /** With lo == hi every interval is empty. */
  lemma {:induction false} EmptyWith(data: seq<int>, lo: int, size: int, i: int)
    requires size >= 2 && 0 <= i < size
    ensures SliceWith(data, lo, lo, size)[i] == []
  {
    BucketAt(Keys(data, lo, size - 1), 0, size, i);
    SelectNone(Keys(data, lo, size - 1), Upper(0, i - 1), Upper(0, i));
  }

  lemma {:induction false} SliceDataIs(data: seq<int>, size: int)
    requires |data| > 0 && size >= 2
    ensures SliceData(data, size) == SliceWith(data, Min(data), Max(data), size)
  {
  }

  /**
   * Bucket i holds every copy of each input value that passes the mask of line
   * 15 for i, and nothing else.
   */
  lemma {:induction false} BucketContents(data: seq<int>, size: int, i: int, v: int)
    requires |data| > 0 && size >= 2 && 0 <= i < size
    ensures multiset(SliceData(data, size)[i])[v]
            == if MaskAsWritten(v, Min(data), Delta(Min(data), Max(data), size), i) then multiset(data)[v] else 0
  {
    BucketCount(data, Min(data), Max(data), size, i, v);
    MaskIsInRange(v, Min(data), Max(data), size, i);
  }

  /** Bucket i is the input at the increasing positions whose values pass its mask. */
  lemma {:induction false} BucketKeepsInputOrder(data: seq<int>, size: int, i: int) returns (idx: seq<nat>)
    requires |data| > 0 && size >= 2 && 0 <= i < size
    ensures |idx| == |SliceData(data, size)[i]|
    ensures forall j :: 0 <= j < |idx| ==> idx[j] < |data| && SliceData(data, size)[i][j] == data[idx[j]]
    ensures forall j, j' :: 0 <= j < j' < |idx| ==> idx[j] < idx[j']
    ensures forall k :: 0 <= k < |data| ==>
              (k in idx <==> MaskAsWritten(data[k], Min(data), Delta(Min(data), Max(data), size), i))
  {
    idx := BucketPositions(data, Min(data), Max(data), size, i);
    forall k | 0 <= k < |data|
      ensures InBucketRange(data[k], Min(data), Max(data), size, i)
              <==> MaskAsWritten(data[k], Min(data), Delta(Min(data), Max(data), size), i)
    {
      MaskIsInRange(data[k], Min(data), Max(data), size, i);
    }
  }

  /** The membership facts of one bucket. */
  lemma {:induction false} InBucket(data: seq<int>, size: int, i: int, v: int)
    requires |data| > 0 && size >= 2 && 0 <= i < size && v in SliceData(data, size)[i]
    ensures v in data && InBucketRange(v, Min(data), Max(data), size, i)
  {
    BucketCount(data, Min(data), Max(data), size, i, v);
  }

  /** Every value of a lower bucket is strictly below every value of a higher one. */
  lemma {:induction false} BucketsOrdered(data: seq<int>, size: int, i: int, j: int, v: int, w: int)
    requires |data| > 0 && size >= 2 && 0 <= i < j < size
    requires v in SliceData(data, size)[i] && w in SliceData(data, size)[j]
    ensures v < w
  {
    InBucket(data, size, i, v);
    InBucket(data, size, j, w);
    InRangeOrdered(v, w, Min(data), Max(data), size, i, j);
  }

  /** When max > min, bucket 0 holds exactly the copies of the minimum. */
  lemma {:induction false} BucketZeroIsMinimum(data: seq<int>, size: int)
    requires |data| > 0 && size >= 2 && Min(data) < Max(data)
    ensures forall v :: v in SliceData(data, size)[0] ==> v == Min(data)
    ensures multiset(SliceData(data, size)[0])[Min(data)] == multiset(data)[Min(data)]
  {
    var lo, hi := Min(data), Max(data);
    forall v | v in SliceData(data, size)[0]
      ensures v == lo
    {
      InBucket(data, size, 0, v);
      InRangeFirst(v, lo, hi, size);
    }
    InRangeFirst(lo, lo, hi, size);
    BucketCount(data, lo, hi, size, 0, lo);
  }

  /** When max > min, the buckets are a multiset partition of the input. */
  lemma {:induction false} SliceDataIsPartition(data: seq<int>, size: int)
    requires |data| > 0 && size >= 2 && Min(data) < Max(data)
    ensures multiset(Flatten(SliceData(data, size))) == multiset(data)
  {
    SliceDataIs(data, size);
    PartitionWith(data, Min(data), Max(data), size);
  }

  /** When max > min, an input value lies in the bucket BucketIndex names. */
  lemma {:induction false} InItsBucket(data: seq<int>, size: int, v: int)
    requires |data| > 0 && size >= 2 && Min(data) < Max(data) && v in data
    ensures 0 <= BucketIndex(v, Min(data), Max(data), size) < size
    ensures v in SliceData(data, size)[BucketIndex(v, Min(data), Max(data), size)]
  {
    var i := BucketIndex(v, Min(data), Max(data), size);
    BucketIndexFits(v, Min(data), Max(data), size);
    BucketCount(data, Min(data), Max(data), size, i, v);
  }

  /** No value lies in two buckets. */
  lemma {:induction false} InOneBucketOnly(data: seq<int>, size: int, v: int, i: int, j: int)
    requires |data| > 0 && size >= 2 && 0 <= i < size && 0 <= j < size
    requires v in SliceData(data, size)[i] && v in SliceData(data, size)[j]
    ensures i == j
  {
    if i < j {
      BucketsOrdered(data, size, i, j, v, v);
    } else if j < i {
      BucketsOrdered(data, size, j, i, v, v);
    }
  }

  /** When max > min, every input value lands in exactly one bucket. */
  lemma {:induction false} ExactlyOneBucket(data: seq<int>, size: int, v: int)
    requires |data| > 0 && size >= 2 && Min(data) < Max(data) && v in data
    ensures var i := BucketIndex(v, Min(data), Max(data), size);
            0 <= i < size && v in SliceData(data, size)[i]
            && forall j :: 0 <= j < size && j != i ==> v !in SliceData(data, size)[j]
  {
    var i := BucketIndex(v, Min(data), Max(data), size);
    InItsBucket(data, size, v);
    forall j | 0 <= j < size && v in SliceData(data, size)[j]
      ensures j == i
    {
      InOneBucketOnly(data, size, v, i, j);
    }
  }

  /**
   * When max == min, delta is 0 and the mask of line 15 selects nothing: every
   * bucket is empty and the input values are lost.
   */
  lemma {:induction false} ConstantInputIsLost(data: seq<int>, size: int)
    requires |data| > 0 && size >= 2 && Min(data) == Max(data)
    ensures forall i :: 0 <= i < size ==> SliceData(data, size)[i] == []
  {
    forall i | 0 <= i < size
      ensures SliceData(data, size)[i] == []
    {
      EmptyWith(data, Min(data), size, i);
    }
  }

  // An example: [2,1,1,3,5,4] over 3 ranks: min 1, max 5, delta 2.
  // Scaled by size - 1 = 2, bucket 0 keeps keys in (-4, 0], bucket 1 in (0, 4], bucket 2 in (4, 8].

  lemma {:induction false} ExampleMin()
    ensures Min([2, 1, 1, 3, 5, 4]) == 1
  {
    var d := [2, 1, 1, 3, 5, 4];
    assert d[1] == 1;
    assert forall x :: x in d ==> 1 <= x;
  }

  lemma {:induction false} ExampleMax()
    ensures Max([2, 1, 1, 3, 5, 4]) == 5
  {
    var d := [2, 1, 1, 3, 5, 4];
    assert d[4] == 5;
    assert forall x :: x in d ==> x <= 5;
  }

  lemma {:induction false} ExampleKeys()
    ensures Keys([2, 1, 1, 3, 5, 4], 1, 2)
            == [Keyed(2, 2), Keyed(1, 0), Keyed(1, 0), Keyed(3, 4), Keyed(5, 8), Keyed(4, 6)]
  {
  }

  lemma {:induction false} ExampleBucketZero()
    ensures Bucket([Keyed(2, 2), Keyed(1, 0), Keyed(1, 0), Keyed(3, 4), Keyed(5, 8), Keyed(4, 6)], 4, 0) == [1, 1]
  {
  }

  lemma {:induction false} ExampleBucketOne()
    ensures Bucket([Keyed(2, 2), Keyed(1, 0), Keyed(1, 0), Keyed(3, 4), Keyed(5, 8), Keyed(4, 6)], 4, 1) == [2, 3]
  {
  }

  lemma {:induction false} ExampleBucketTwo()
    ensures Bucket([Keyed(2, 2), Keyed(1, 0), Keyed(1, 0), Keyed(3, 4), Keyed(5, 8), Keyed(4, 6)], 4, 2) == [5, 4]
  {
  }

  lemma {:induction false} ExampleBuckets()
    ensures SliceWith([2, 1, 1, 3, 5, 4], 1, 5, 3) == [[1, 1], [2, 3], [5, 4]]
  {
    ExampleKeys();
    ExampleBucketZero();
    ExampleBucketOne();
    ExampleBucketTwo();
  }

  /** Bucket 0 gets both copies of the minimum 1, bucket 1 gets (1, 3], bucket 2 gets (3, 5]. */
  lemma {:induction false} SliceDataExample()
    ensures SliceData([2, 1, 1, 3, 5, 4], 3) == [[1, 1], [2, 3], [5, 4]]
  {
    ExampleMin();
    ExampleMax();
    ExampleBuckets();
  }

  // ---------------------------------------------------------------------------
  // Local sort (parallel_sorter.py:44-45)
  // ---------------------------------------------------------------------------

  /** s with x inserted before its first element not below x. */
  function Insert(x: int, s: seq<int>): (r: seq<int>)
    ensures multiset(r) == multiset(s) + multiset{x}
  {
    if s == [] then [x]
    else if x <= s[0] then [x] + s
    else
      assert s == [s[0]] + s[1..];
      [s[0]] + Insert(x, s[1..])
  }

  /** Inserting into a sorted list keeps it sorted. */
  lemma {:induction false} InsertKeepsSorted(x: int, s: seq<int>)
    requires Sorted(s)
    ensures Sorted(Insert(x, s))
  {
    if s != [] && x > s[0] {
      var rest := Insert(x, s[1..]);
      InsertKeepsSorted(x, s[1..]);
      forall a, b | a in [s[0]] && b in rest
        ensures a <= b
      {
        assert b in multiset(rest);
        assert b == x || b in multiset(s[1..]);
      }
      SortedConcat([s[0]], rest);
    }
  }

  /**
   * `data_local.sort()`: numpy's sort is a library call, so the model uses an
   * insertion sort and relies only on its result being sorted and a permutation.
   */
  function LocalSort(s: seq<int>): (r: seq<int>)
    ensures Sorted(r)
    ensures multiset(r) == multiset(s)
  {
    if s == [] then []
    else
      assert s == [s[0]] + s[1..];
      InsertKeepsSorted(s[0], LocalSort(s[1..]));
      Insert(s[0], LocalSort(s[1..]))
  }

  /** Sorting a sorted bucket changes nothing. */
  lemma {:induction false} LocalSortOfSorted(s: seq<int>)
    requires Sorted(s)
    ensures LocalSort(s) == s
  {
    if s != [] {
      assert Sorted(s[1..]);
      LocalSortOfSorted(s[1..]);
      assert s == [s[0]] + s[1..];
    }
  }

  /** A bucket holding copies of a single value is sorted. */
  lemma {:induction false} ConstantIsSorted(s: seq<int>, m: int)
    requires forall v :: v in s ==> v == m
    ensures Sorted(s)
  {
    forall i, j | 0 <= i < j < |s|
      ensures s[i] <= s[j]
    {
      assert s[i] in s && s[j] in s;
    }
  }

  // ---------------------------------------------------------------------------
  // Scatter, local sort and gather (parallel_sorter.py:41-54)
  // ---------------------------------------------------------------------------

  /** What rank `rank` holds after lines 44-45: its bucket, sorted unless it is rank 0. */
  function LocalOf(rank: int, bucket: seq<int>): (local: seq<int>)
    ensures multiset(local) == multiset(bucket)
    ensures rank != 0 ==> Sorted(local)
  {
    if rank != 0 then LocalSort(bucket) else bucket
  }

  /** The local lists of ranks 0 .. |buckets| - 1, in rank order, as the gather of line 48 collects them. */
  function Locals(buckets: seq<seq<int>>): (locals: seq<seq<int>>)
    ensures |locals| == |buckets|
  {
    if buckets == [] then []
    else Locals(buckets[..|buckets| - 1]) + [LocalOf(|buckets| - 1, buckets[|buckets| - 1])]
  }

  /** The result on rank 0: the gathered local lists flattened in rank order (lines 51-52). */
  function Gather(data: seq<int>, size: int): seq<int>
    requires |data| > 0 && size >= 2
  {
    Flatten(Locals(SliceData(data, size)))
  }

  /** Every value of an earlier list is at most every value of a later one. */
  predicate InOrder(bs: seq<seq<int>>)
  {
    forall p, p', x, y :: 0 <= p < p' < |bs| && x in bs[p] && y in bs[p'] ==> x <= y
  }

  /** Every list is sorted. */
  predicate EachSorted(bs: seq<seq<int>>)
  {
    forall p :: 0 <= p < |bs| ==> Sorted(bs[p])
  }

  /** Rank q holds LocalOf(q, bucket q). */
  lemma {:induction false} LocalsAt(buckets: seq<seq<int>>, q: int)
    requires 0 <= q < |buckets|
    ensures Locals(buckets)[q] == LocalOf(q, buckets[q])
    decreases |buckets|
  {
    if q < |buckets| - 1 {
      LocalsAt(buckets[..|buckets| - 1], q);
    }
  }

  /** Adding one more rank's list extends the locals by that rank's list. */
  lemma {:induction false} LocalsSnoc(buckets: seq<seq<int>>, q: int)
    requires 0 <= q < |buckets|
    ensures Locals(buckets[..q + 1]) == Locals(buckets[..q]) + [LocalOf(q, buckets[q])]
  {
    assert buckets[..q + 1][..q] == buckets[..q];
  }

  /** A value of a flattened list comes from one of its lists. */
  lemma {:induction false} FlattenMember(bs: seq<seq<int>>, x: int) returns (p: int)
    requires x in Flatten(bs)
    ensures 0 <= p < |bs| && x in bs[p]
    decreases |bs|
  {
    var init := bs[..|bs| - 1];
    if x in Flatten(init) {
      p := FlattenMember(init, x);
      assert init[p] == bs[p];
    } else {
      p := |bs| - 1;
    }
  }

  /** Two sorted lists, the first wholly below the second, concatenate to a sorted list. */
  lemma {:induction false} SortedConcat(a: seq<int>, b: seq<int>)
    requires Sorted(a) && Sorted(b)
    requires forall x, y :: x in a && y in b ==> x <= y
    ensures Sorted(a + b)
  {
    forall i, j | 0 <= i < j < |a + b|
      ensures (a + b)[i] <= (a + b)[j]
    {
      if j < |a| {
        assert (a + b)[i] == a[i] && (a + b)[j] == a[j];
      } else if i >= |a| {
        assert (a + b)[i] == b[i - |a|] && (a + b)[j] == b[j - |a|];
      } else {
        assert (a + b)[i] == a[i] && (a + b)[j] == b[j - |a|];
        assert a[i] in a && b[j - |a|] in b;
      }
    }
  }

  /** Sorted lists in order flatten to a sorted list (the obligation the gather relies on). */
  lemma {:induction false} FlattenSorted(bs: seq<seq<int>>)
    requires EachSorted(bs) && InOrder(bs)
    ensures Sorted(Flatten(bs))
    decreases |bs|
  {
    if bs != [] {
      var init, last := bs[..|bs| - 1], bs[|bs| - 1];
      assert forall p :: 0 <= p < |init| ==> init[p] == bs[p];
      FlattenSorted(init);
      forall x, y | x in Flatten(init) && y in last
        ensures x <= y
      {
        var p := FlattenMember(init, x);
      }
      SortedConcat(Flatten(init), last);
    }
  }

  /** Lists that are pairwise permutations flatten to permutations. */
  lemma {:induction false} FlattenPermutes(a: seq<seq<int>>, b: seq<seq<int>>)
    requires |a| == |b|
    requires forall p :: 0 <= p < |a| ==> multiset(a[p]) == multiset(b[p])
    ensures multiset(Flatten(a)) == multiset(Flatten(b))
    decreases |a|
  {
    if a != [] {
      var n := |a| - 1;
      assert forall p :: 0 <= p < n ==> a[..n][p] == a[p] && b[..n][p] == b[p];
      FlattenPermutes(a[..n], b[..n]);
    }
  }

  /** Each local list is a permutation of its bucket. */
  lemma {:induction false} LocalsPermute(bs: seq<seq<int>>)
    ensures forall p :: 0 <= p < |bs| ==> multiset(Locals(bs)[p]) == multiset(bs[p])
  {
    forall p | 0 <= p < |bs|
      ensures multiset(Locals(bs)[p]) == multiset(bs[p])
    {
      LocalsAt(bs, p);
    }
  }

  /**
   * If bucket 0 is already sorted and the buckets are in order, the local lists
   * are sorted and in order, and they flatten to a sorted permutation of the buckets.
   */
  lemma {:induction false} GatherFromOrdered(bs: seq<seq<int>>)
    requires InOrder(bs)
    requires |bs| > 0 ==> Sorted(bs[0])
    ensures Sorted(Flatten(Locals(bs)))
    ensures multiset(Flatten(Locals(bs))) == multiset(Flatten(bs))
  {
    var locals := Locals(bs);
    LocalsPermute(bs);
    forall p | 0 <= p < |locals|
      ensures Sorted(locals[p])
    {
      LocalsAt(bs, p);
    }
    forall p, p', x, y | 0 <= p < p' < |locals| && x in locals[p] && y in locals[p']
      ensures x <= y
    {
      assert x in multiset(locals[p]) && y in multiset(locals[p']);
      assert x in bs[p] && y in bs[p'];
    }
    FlattenSorted(locals);
    FlattenPermutes(locals, bs);
  }

  /** The buckets of `slice_data` are in order and bucket 0 is sorted. */
  lemma {:induction false} SliceDataInOrder(data: seq<int>, size: int)
    requires |data| > 0 && size >= 2
    ensures InOrder(SliceData(data, size))
    ensures Sorted(SliceData(data, size)[0])
  {
    var bs := SliceData(data, size);
    forall p, p', x, y | 0 <= p < p' < |bs| && x in bs[p] && y in bs[p']
      ensures x <= y
    {
      BucketsOrdered(data, size, p, p', x, y);
    }
    if Min(data) < Max(data) {
      BucketZeroIsMinimum(data, size);
      ConstantIsSorted(bs[0], Min(data));
    } else {
      ConstantInputIsLost(data, size);
    }
  }

  /** Skipping the sort on rank 0 (line 44) leaves every rank with its sorted bucket. */
  lemma {:induction false} RankZeroNeedsNoSort(data: seq<int>, size: int)
    requires |data| > 0 && size >= 2
    ensures forall q :: 0 <= q < size ==> Locals(SliceData(data, size))[q] == LocalSort(SliceData(data, size)[q])
  {
    var bs := SliceData(data, size);
    SliceDataInOrder(data, size);
    LocalSortOfSorted(bs[0]);
    forall q | 0 <= q < size
      ensures Locals(bs)[q] == LocalSort(bs[q])
    {
      LocalsAt(bs, q);
    }
  }

  /** A flattened list of empty lists is empty. */
  lemma {:induction false} FlattenEmpty(bs: seq<seq<int>>)
    requires forall p :: 0 <= p < |bs| ==> bs[p] == []
    ensures Flatten(bs) == []
    decreases |bs|
  {
    if bs != [] {
      var n := |bs| - 1;
      assert forall p :: 0 <= p < n ==> bs[..n][p] == bs[p];
      FlattenEmpty(bs[..n]);
    }
  }

  /**
   * The result on rank 0 is sorted; when max > min it is a permutation of the
   * input, and when max == min it is empty, since the slicing lost every value.
   */
  lemma {:induction false} GatherCorrect(data: seq<int>, size: int)
    requires |data| > 0 && size >= 2
    ensures Sorted(Gather(data, size))
    ensures Min(data) < Max(data) ==> multiset(Gather(data, size)) == multiset(data)
    ensures Min(data) == Max(data) ==> Gather(data, size) == []
  {
    var bs := SliceData(data, size);
    SliceDataInOrder(data, size);
    GatherFromOrdered(bs);
    if Min(data) < Max(data) {
      SliceDataIsPartition(data, size);
    } else {
      ConstantInputIsLost(data, size);
      FlattenEmpty(bs);
      assert |Gather(data, size)| == |multiset(Gather(data, size))|;
    }
  }

  lemma {:induction false} LocalSortExample()
    ensures LocalSort([2, 3]) == [2, 3]
    ensures LocalSort([5, 4]) == [4, 5]
  {
    assert [2, 3][1..] == [3] && [3][1..] == [];
    assert [5, 4][1..] == [4] && [4][1..] == [];
    assert LocalSort([3]) == [3];
    assert LocalSort([4]) == [4];
  }

  lemma {:induction false} LocalsExample()
    ensures Locals([[1, 1], [2, 3], [5, 4]]) == [[1, 1], [2, 3], [4, 5]]
  {
    var bs := [[1, 1], [2, 3], [5, 4]];
    LocalSortExample();
    LocalsAt(bs, 0);
    LocalsAt(bs, 1);
    LocalsAt(bs, 2);
  }

  lemma {:induction false} FlattenExample()
    ensures Flatten([[1, 1], [2, 3], [4, 5]]) == [1, 1, 2, 3, 4, 5]
  {
    assert [[1, 1], [2, 3], [4, 5]][..2] == [[1, 1], [2, 3]];
    assert [[1, 1], [2, 3]][..1] == [[1, 1]];
    assert [[1, 1]][..0] == [];
  }

  /** Over 3 ranks, [2,1,1,3,5,4] comes back to rank 0 as [1,1,2,3,4,5]. */
  lemma {:induction false} GatherExample()
    ensures Gather([2, 1, 1, 3, 5, 4], 3) == [1, 1, 2, 3, 4, 5]
  {
    SliceDataExample();
    LocalsExample();
    FlattenExample();
  }

  /** Lines 41-45 on every rank: rank q receives bucket q and sorts it unless it is rank 0. */
  method ScatterAndSort(sliced: seq<seq<int>>) returns (locals: seq<seq<int>>)
    ensures locals == Locals(sliced)
  {
    locals := [];
    var q := 0;
    while q < |sliced|
      invariant 0 <= q <= |sliced|
      invariant locals == Locals(sliced[..q])
    {
      var local := sliced[q];
      if q != 0 {
        local := LocalSort(local);
      }
      LocalsSnoc(sliced, q);
      locals := locals + [local];
      q := q + 1;
    }
    assert sliced[..q] == sliced;
  }

  /** Lines 48-52 on rank 0: the gathered lists chained in rank order. */
  method GatherAndFlatten(locals: seq<seq<int>>) returns (result: seq<int>)
    ensures result == Flatten(locals)
  {
    result := [];
    var p := 0;
    while p < |locals|
      invariant 0 <= p <= |locals|
      invariant result == Flatten(locals[..p])
    {
      assert locals[..p + 1][..p] == locals[..p];
      result := result + locals[p];
      p := p + 1;
    }
    assert locals[..p] == locals;
  }

  /** Line 54 on every rank: rank 0 returns the flattened result, the others None. */
  method RankResults(result: seq<int>, size: int) returns (results: seq<Option<seq<int>>>)
    requires size >= 1
    ensures |results| == size
    ensures results[0] == Some(result)
    ensures forall q :: 1 <= q < size ==> results[q] == None
  {
    results := [Some(result)];
    while |results| < size
      invariant 1 <= |results| <= size
      invariant results[0] == Some(result)
      invariant forall q :: 1 <= q < |results| ==> results[q] == None
    {
      results := results + [None];
    }
  }

  /**
   * `psort()` run on every rank of a group of `size` processes, with `data` the
   * values rank 0 generated. The result holds each rank's return value in rank
   * order: rank 0 gets the flattened gather, every other rank None.
   */
  method PSort(data: seq<int>, size: int) returns (r: Result<seq<Option<seq<int>>>, SortError>)
    ensures size < 2 ==> r == Err(TooFewProcesses)
    ensures size >= 2 && data == [] ==> r == Err(EmptyData)
    ensures size >= 2 && data != [] ==>
      && r.Ok? && |r.value| == size
      && r.value[0] == Some(Gather(data, size))
      && Sorted(Gather(data, size))
      && (Min(data) < Max(data) ==> multiset(Gather(data, size)) == multiset(data))
      && (forall q :: 1 <= q < size ==> r.value[q] == None)
  {
    if size < 2 {
      return Err(TooFewProcesses);
    }
    if data == [] {
      return Err(EmptyData);
    }
    var sliced := SliceData(data, size);
    var locals := ScatterAndSort(sliced);
    var result := GatherAndFlatten(locals);
    GatherCorrect(data, size);
    var results := RankResults(result, size);
    return Ok(results);
  }
}
