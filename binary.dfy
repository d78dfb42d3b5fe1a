/**
 * `zbits(n, k)` of binary.py: the set of binary strings of length n with
 * exactly k zeros, built by writing '0' at every k-subset of the positions
 * 0 .. n-1 that `itertools.combinations` enumerates.
 */
module Binary {
  import opened Wrappers

  /** The ValueErrors `zbits` raises, in the order it checks for them. */
  datatype ZbitsError =
    | NotPositive    // n <= 0: "n must be greater than 0"
    | NegativeZeros  // k < 0: "k must be greater than or equal to 0"
    | TooManyZeros   // k > n: "k must be less than or equal to n"

  // ---------------------------------------------------------------------------
  // Binary strings
  // ---------------------------------------------------------------------------

  /** Every character of s is '0' or '1' (BinaryAt states it position by position). */
  predicate IsBinary(s: string)
  {
    s == [] || ((s[0] == '0' || s[0] == '1') && IsBinary(s[1..]))
  }

  /** The number of occurrences of c in s. */
  function Count(s: string, c: char): nat
  {
    if s == [] then 0 else (if s[0] == c then 1 else 0) + Count(s[1..], c)
  }

  /** What a member of zbits(len, k) must be: length len, only '0' and '1', exactly k zeros. */
  predicate HasZeros(s: string, len: nat, k: nat)
  {
    |s| == len && IsBinary(s) && Count(s, '0') == k
  }

  /** The binomial coefficient, by Pascal's rule. */
  function Binom(n: nat, k: nat): nat
  {
    if k == 0 then 1 else if n == 0 then 0 else Binom(n - 1, k - 1) + Binom(n - 1, k)
  }

  /** c repeated len times. */
  function Repeat(c: char, len: nat): (s: string)
    ensures |s| == len
  {
    if len == 0 then [] else [c] + Repeat(c, len - 1)
  }

  predicate Distinct<T(==)>(s: seq<T>)
  {
    forall i, j :: 0 <= i < j < |s| ==> s[i] != s[j]
  }

  /** The elements of s, as the set `result` collects them in order. */
  function ToSet(s: seq<string>): (r: set<string>)
    ensures forall x :: x in r <==> x in s
  {
    if s == [] then {} else ToSet(s[..|s| - 1]) + {s[|s| - 1]}
  }

  // ---------------------------------------------------------------------------
  // Index combinations (binary.py:43-46)
  // ---------------------------------------------------------------------------

  /** Every index list of cs with x in front. */
  function Prepend(x: nat, cs: seq<seq<nat>>): (r: seq<seq<nat>>)
    ensures |r| == |cs|
  {
    if cs == [] then [] else [[x] + cs[0]] + Prepend(x, cs[1..])
  }

  /**
   * `combinations(range(from, n), k)`: the k-element index tuples of
   * from .. n-1 in the lexicographic order itertools yields them.
   */
  function Combinations(from: nat, n: nat, k: nat): seq<seq<nat>>
    decreases n - from, k
  {
    if k == 0 then [[]]
    else if from >= n then []
    else Prepend(from, Combinations(from + 1, n, k - 1)) + Combinations(from + 1, n, k)
  }

  /** The index list is strictly increasing and lies in [from, n). */
  predicate IncreasingIn(c: seq<nat>, from: nat, n: nat)
  {
    && (forall j :: 0 <= j < |c| ==> from <= c[j] < n)
    && (forall j, j' :: 0 <= j < j' < |c| ==> c[j] < c[j'])
  }

  /** Every index list of cs has k indices, strictly increasing, from [from, n). */
  predicate Chosen(cs: seq<seq<nat>>, k: nat, from: nat, n: nat)
  {
    forall j :: 0 <= j < |cs| ==> |cs[j]| == k && IncreasingIn(cs[j], from, n)
  }

  /** Entry j of Prepend(x, cs) is x followed by cs[j]. */
  lemma {:induction false} PrependAt(x: nat, cs: seq<seq<nat>>)
    ensures forall j {:trigger Prepend(x, cs)[j]} :: 0 <= j < |cs| ==> Prepend(x, cs)[j] == [x] + cs[j]
  {
    if cs != [] {
      PrependAt(x, cs[1..]);
      var r := Prepend(x, cs);
      forall j | 0 <= j < |cs|
        ensures r[j] == [x] + cs[j]
      {
        if j > 0 {
          assert r[j] == Prepend(x, cs[1..])[j - 1];
        }
      }
    }
  }

  /** An index below all the others, put in front, keeps a list increasing. */
  lemma {:induction false} ConsIncreasing(x: nat, c: seq<nat>, n: nat)
    requires x < n && IncreasingIn(c, x + 1, n)
    ensures IncreasingIn([x] + c, x, n)
  {
    assert forall t :: 1 <= t < |[x] + c| ==> ([x] + c)[t] == c[t - 1];
  }

  /** The tail of an increasing list lies above its head. */
  lemma {:induction false} TailIncreasing(c: seq<nat>, from: nat, n: nat)
    requires c != [] && IncreasingIn(c, from, n)
    ensures IncreasingIn(c[1..], c[0] + 1, n)
  {
    assert forall t :: 0 <= t < |c[1..]| ==> c[1..][t] == c[t + 1];
  }

  lemma {:induction false} PrependChosen(x: nat, cs: seq<seq<nat>>, k: nat, n: nat)
    requires x < n && Chosen(cs, k, x + 1, n)
    ensures Chosen(Prepend(x, cs), k + 1, x, n)
  {
    var r := Prepend(x, cs);
    PrependAt(x, cs);
    forall j | 0 <= j < |r|
      ensures |r[j]| == k + 1 && IncreasingIn(r[j], x, n)
    {
      ConsIncreasing(x, cs[j], n);
    }
  }

  lemma {:induction false} AppendChosen(a: seq<seq<nat>>, b: seq<seq<nat>>, k: nat, from: nat, n: nat)
    requires Chosen(a, k, from, n) && Chosen(b, k, from, n)
    ensures Chosen(a + b, k, from, n)
  {
    forall j | 0 <= j < |a + b|
      ensures |(a + b)[j]| == k && IncreasingIn((a + b)[j], from, n)
    {
      if j < |a| {
        assert (a + b)[j] == a[j];
      } else {
        assert (a + b)[j] == b[j - |a|];
      }
    }
  }

  lemma {:induction false} WidenChosen(cs: seq<seq<nat>>, k: nat, from: nat, n: nat)
    requires Chosen(cs, k, from + 1, n)
    ensures Chosen(cs, k, from, n)
  {
  }

  /** Each combination has k indices, strictly increasing, from [from, n). */
  lemma {:induction false} CombinationsValid(from: nat, n: nat, k: nat)
    ensures Chosen(Combinations(from, n, k), k, from, n)
    decreases n - from, k
  {
    if k > 0 && from < n {
      var first, rest := Combinations(from + 1, n, k - 1), Combinations(from + 1, n, k);
      CombinationsValid(from + 1, n, k - 1);
      CombinationsValid(from + 1, n, k);
      PrependChosen(from, first, k - 1, n);
      WidenChosen(rest, k, from, n);
      AppendChosen(Prepend(from, first), rest, k, from, n);
    }
  }

  /** Every k-subset of [from, n), listed increasingly, is enumerated. */
  lemma {:induction false} CombinationsComplete(from: nat, n: nat, k: nat, c: seq<nat>)
    requires |c| == k && IncreasingIn(c, from, n)
    ensures c in Combinations(from, n, k)
    decreases n - from, k
  {
    if k > 0 {
      var first, rest := Combinations(from + 1, n, k - 1), Combinations(from + 1, n, k);
      assert from <= c[0] < n;
      if c[0] == from {
        TailIncreasing(c, from, n);
        CombinationsComplete(from + 1, n, k - 1, c[1..]);
        var j :| 0 <= j < |first| && first[j] == c[1..];
        PrependAt(from, first);
        assert Prepend(from, first)[j] == c;
        assert (Prepend(from, first) + rest)[j] == c;
      } else {
        CombinationsComplete(from + 1, n, k, c);
        var j :| 0 <= j < |rest| && rest[j] == c;
        assert (Prepend(from, first) + rest)[|first| + j] == c;
      }
    }
  }

  /** A strictly increasing list from [from, n) has at most n - from entries. */
  lemma {:induction false} IncreasingBound(c: seq<nat>, from: nat, n: nat)
    requires IncreasingIn(c, from, n)
    ensures c == [] || from + |c| <= n
    decreases |c|
  {
    if c != [] {
      TailIncreasing(c, from, n);
      IncreasingBound(c[1..], c[0] + 1, n);
    }
  }

  /** Putting the same index in front keeps index lists distinct. */
  lemma {:induction false} PrependDistinct(x: nat, cs: seq<seq<nat>>)
    requires Distinct(cs)
    ensures Distinct(Prepend(x, cs))
  {
    var r := Prepend(x, cs);
    PrependAt(x, cs);
    forall i, j | 0 <= i < j < |r|
      ensures r[i] != r[j]
    {
      assert r[i][1..] == cs[i] && r[j][1..] == cs[j];
    }
  }

  /** Two distinct lists with no element in common concatenate to a distinct list. */
  lemma {:induction false} DistinctAppend<T>(a: seq<T>, b: seq<T>)
    requires Distinct(a) && Distinct(b)
    requires forall i, j :: 0 <= i < |a| && 0 <= j < |b| ==> a[i] != b[j]
    ensures Distinct(a + b)
  {
    forall i, j | 0 <= i < j < |a + b|
      ensures (a + b)[i] != (a + b)[j]
    {
      if j < |a| {
        assert (a + b)[i] == a[i] && (a + b)[j] == a[j];
      } else if i >= |a| {
        assert (a + b)[i] == b[i - |a|] && (a + b)[j] == b[j - |a|];
      } else {
        assert (a + b)[i] == a[i] && (a + b)[j] == b[j - |a|];
      }
    }
  }

  /** No index tuple is enumerated twice. */
  lemma {:induction false} CombinationsDistinct(from: nat, n: nat, k: nat)
    ensures Distinct(Combinations(from, n, k))
    decreases n - from, k
  {
    if k > 0 && from < n {
      var first, rest := Combinations(from + 1, n, k - 1), Combinations(from + 1, n, k);
      var front := Prepend(from, first);
      CombinationsDistinct(from + 1, n, k - 1);
      CombinationsDistinct(from + 1, n, k);
      PrependDistinct(from, first);
      PrependAt(from, first);
      CombinationsValid(from + 1, n, k);
      forall i, j | 0 <= i < |front| && 0 <= j < |rest|
        ensures front[i] != rest[j]
      {
        assert front[i][0] == from < rest[j][0];
      }
      DistinctAppend(front, rest);
    }
  }

  /** There are C(n - from, k) index tuples. */
  lemma {:induction false} CombinationsCount(from: nat, n: nat, k: nat)
    requires from <= n
    ensures |Combinations(from, n, k)| == Binom(n - from, k)
    decreases n - from, k
  {
    if k > 0 && from < n {
      CombinationsCount(from + 1, n, k - 1);
      CombinationsCount(from + 1, n, k);
    }
  }

  // ---------------------------------------------------------------------------
  // The string written for one index tuple (binary.py:49)
  // ---------------------------------------------------------------------------

  /**
   * `''.join(['0' if x in c else '1' for x in range(from, n)])`: position i
   * holds '0' exactly when from + i is one of the chosen indices (WordAt).
   */
  function Word(c: seq<nat>, from: nat, n: nat): (w: string)
    requires from <= n
    ensures |w| == n - from
    ensures IsBinary(w)
    decreases n - from
  {
    if from == n then []
    else
      var rest := Word(c, from + 1, n);
      assert ([if from in c then '0' else '1'] + rest)[1..] == rest;
      [if from in c then '0' else '1'] + rest
  }

  /** The strings written for each index tuple of cs, in order. */
  function Words(cs: seq<seq<nat>>, from: nat, n: nat): (ws: seq<string>)
    requires from <= n
    ensures |ws| == |cs|
  {
    if cs == [] then [] else [Word(cs[0], from, n)] + Words(cs[1..], from, n)
  }

  /**
   * The positions, offset by from, at which s holds '0', in increasing
   * order: the index tuple that Word turns back into s.
   */
  function ZeroPositions(s: string, from: nat): seq<nat>
  {
    if s == [] then [] else (if s[0] == '0' then [from] else []) + ZeroPositions(s[1..], from + 1)
  }

  /** Position i of Word(c, from, n) is '0' exactly when from + i is chosen. */
  lemma {:induction false} WordAt(c: seq<nat>, from: nat, n: nat)
    requires from <= n
    ensures forall i {:trigger Word(c, from, n)[i]} :: 0 <= i < n - from ==> (Word(c, from, n)[i] == '0' <==> from + i in c)
    decreases n - from
  {
    if from < n {
      WordAt(c, from + 1, n);
      var w := Word(c, from, n);
      forall i | 0 <= i < n - from
        ensures w[i] == '0' <==> from + i in c
      {
        if i > 0 {
          assert w[i] == Word(c, from + 1, n)[i - 1];
        }
      }
    }
  }

  /** Entry j of Words(cs, from, n) is the string written for cs[j]. */
  lemma {:induction false} WordsAt(cs: seq<seq<nat>>, from: nat, n: nat)
    requires from <= n
    ensures forall j {:trigger Words(cs, from, n)[j]} :: 0 <= j < |cs| ==> Words(cs, from, n)[j] == Word(cs[j], from, n)
  {
    if cs != [] {
      WordsAt(cs[1..], from, n);
      var ws := Words(cs, from, n);
      forall j | 0 <= j < |cs|
        ensures ws[j] == Word(cs[j], from, n)
      {
        if j > 0 {
          assert ws[j] == Words(cs[1..], from, n)[j - 1];
        }
      }
    }
  }

  /** A string depends only on which positions from `from` on are chosen. */
  lemma {:induction false} WordSameAbove(c: seq<nat>, c': seq<nat>, from: nat, n: nat)
    requires from <= n
    requires forall x :: from <= x < n ==> (x in c <==> x in c')
    ensures Word(c, from, n) == Word(c', from, n)
    decreases n - from
  {
    if from < n {
      WordSameAbove(c, c', from + 1, n);
    }
  }

  /** The zero positions of s, offset by from, are increasing, in range, and as many as its zeros. */
  lemma {:induction false} ZeroPositionsValid(s: string, from: nat)
    ensures IncreasingIn(ZeroPositions(s, from), from, from + |s|)
    ensures |ZeroPositions(s, from)| == Count(s, '0')
  {
    if s != [] {
      var tail := ZeroPositions(s[1..], from + 1);
      ZeroPositionsValid(s[1..], from + 1);
      if s[0] == '0' {
        ConsIncreasing(from, tail, from + |s|);
      }
    }
  }

  /** Round trip: writing the zero positions of a binary string gives the string back. */
  lemma {:induction false} WordOfZeroPositions(s: string, from: nat)
    requires IsBinary(s)
    ensures Word(ZeroPositions(s, from), from, from + |s|) == s
  {
    if s != [] {
      var c, tail := ZeroPositions(s, from), ZeroPositions(s[1..], from + 1);
      var n := from + |s|;
      ZeroPositionsValid(s[1..], from + 1);
      WordOfZeroPositions(s[1..], from + 1);
      assert from in c <==> s[0] == '0';
      WordSameAbove(c, tail, from + 1, n);
      assert s == [s[0]] + s[1..];
    }
  }

  /** Round trip: the zero positions of the string written for an increasing tuple are the tuple. */
  lemma {:induction false} ZeroPositionsOfWord(c: seq<nat>, from: nat, n: nat)
    requires from <= n && IncreasingIn(c, from, n)
    ensures ZeroPositions(Word(c, from, n), from) == c
    decreases n - from
  {
    if from < n {
      var w := Word(c, from, n);
      assert w[1..] == Word(c, from + 1, n);
      if from in c {
        assert c[0] == from;
        TailIncreasing(c, from, n);
        assert c == [c[0]] + c[1..];
        WordSameAbove(c, c[1..], from + 1, n);
        ZeroPositionsOfWord(c[1..], from + 1, n);
      } else {
        ZeroPositionsOfWord(c, from + 1, n);
      }
    } else {
      IncreasingBound(c, from, n);
    }
  }

  /** The string written for an increasing tuple of k indices from [from, n) has k zeros. */
  lemma {:induction false} WordHasZeros(c: seq<nat>, from: nat, n: nat)
    requires from <= n && IncreasingIn(c, from, n)
    ensures HasZeros(Word(c, from, n), n - from, |c|)
  {
    ZeroPositionsOfWord(c, from, n);
    ZeroPositionsValid(Word(c, from, n), from);
  }

  /** Distinct increasing tuples are written as distinct strings. */
  lemma {:induction false} WordsDistinct(cs: seq<seq<nat>>, k: nat, from: nat, n: nat)
    requires from <= n && Distinct(cs) && Chosen(cs, k, from, n)
    ensures Distinct(Words(cs, from, n))
  {
    var ws := Words(cs, from, n);
    WordsAt(cs, from, n);
    forall i, j | 0 <= i < j < |ws|
      ensures ws[i] != ws[j]
    {
      ZeroPositionsOfWord(cs[i], from, n);
      ZeroPositionsOfWord(cs[j], from, n);
    }
  }

  // ---------------------------------------------------------------------------
  // The set zbits returns
  // ---------------------------------------------------------------------------

  /** The set the loop of lines 46-49 builds: one string per k-combination of range(n). */
  function ZbitsSet(n: nat, k: nat): set<string>
  {
    ToSet(Words(Combinations(0, n, k), 0, n))
  }

  /** Soundness: every string the loop writes is binary, of length n, with k zeros. */
  lemma {:induction false} WordsSound(n: nat, k: nat, s: string)
    requires s in Words(Combinations(0, n, k), 0, n)
    ensures HasZeros(s, n, k)
  {
    var cs := Combinations(0, n, k);
    var ws := Words(cs, 0, n);
    WordsAt(cs, 0, n);
    var j :| 0 <= j < |ws| && ws[j] == s;
    CombinationsValid(0, n, k);
    WordHasZeros(cs[j], 0, n);
  }

  /** Completeness: the loop writes every binary string of length n with k zeros. */
  lemma {:induction false} WordsComplete(n: nat, k: nat, s: string)
    requires HasZeros(s, n, k)
    ensures s in Words(Combinations(0, n, k), 0, n)
  {
    var cs := Combinations(0, n, k);
    var ws := Words(cs, 0, n);
    var c := ZeroPositions(s, 0);
    ZeroPositionsValid(s, 0);
    WordOfZeroPositions(s, 0);
    CombinationsComplete(0, n, k, c);
    var j :| 0 <= j < |cs| && cs[j] == c;
    WordsAt(cs, 0, n);
    assert ws[j] == s;
  }

  /** Soundness and completeness: exactly the binary strings of length n with k zeros. */
  lemma {:induction false} ZbitsMembership(n: nat, k: nat, s: string)
    ensures s in ZbitsSet(n, k) <==> HasZeros(s, n, k)
  {
    if s in ZbitsSet(n, k) {
      WordsSound(n, k, s);
    }
    if HasZeros(s, n, k) {
      WordsComplete(n, k, s);
    }
  }

  /** The set of a list without repeats has as many elements as the list. */
  lemma {:induction false} ToSetSize(s: seq<string>)
    requires Distinct(s)
    ensures |ToSet(s)| == |s|
  {
    if s != [] {
      var init := s[..|s| - 1];
      assert forall i :: 0 <= i < |init| ==> init[i] == s[i];
      ToSetSize(init);
      assert s[|s| - 1] !in init;
    }
  }

  /** The loop writes C(n, k) strings, none twice. */
  lemma {:induction false} WordsCount(n: nat, k: nat)
    ensures Distinct(Words(Combinations(0, n, k), 0, n))
    ensures |Words(Combinations(0, n, k), 0, n)| == Binom(n, k)
  {
    CombinationsValid(0, n, k);
    CombinationsDistinct(0, n, k);
    CombinationsCount(0, n, k);
    WordsDistinct(Combinations(0, n, k), k, 0, n);
  }

  /** There are C(n, k) of them: distinct index sets give distinct strings. */
  lemma {:induction false} ZbitsSize(n: nat, k: nat)
    ensures |ZbitsSet(n, k)| == Binom(n, k)
  {
    WordsCount(n, k);
    ToSetSize(Words(Combinations(0, n, k), 0, n));
  }

  /** IsBinary says exactly that every position holds '0' or '1'. */
  lemma {:induction false} BinaryAt(s: string)
    ensures IsBinary(s) <==> forall i :: 0 <= i < |s| ==> s[i] == '0' || s[i] == '1'
  {
    if s != [] {
      BinaryAt(s[1..]);
      assert forall i :: 1 <= i < |s| ==> s[i] == s[1..][i - 1];
    }
  }

  /** A binary string's '0's and '1's make up its length. */
  lemma {:induction false} ZerosAndOnes(s: string)
    requires IsBinary(s)
    ensures Count(s, '0') + Count(s, '1') == |s|
  {
    if s != [] {
      ZerosAndOnes(s[1..]);
    }
  }

  /** A binary string without zeros is all ones. */
  lemma {:induction false} NoZerosIsOnes(s: string, len: nat)
    ensures HasZeros(s, len, 0) <==> s == Repeat('1', len)
    decreases len
  {
    if len > 0 && s != [] {
      NoZerosIsOnes(s[1..], len - 1);
      assert Repeat('1', len)[1..] == Repeat('1', len - 1);
      assert s == [s[0]] + s[1..];
    }
  }

  /** A binary string of zeros only is all zeros. */
  lemma {:induction false} AllZerosIsZeros(s: string, len: nat)
    ensures HasZeros(s, len, len) <==> s == Repeat('0', len)
    decreases len
  {
    if s != [] {
      CountBound(s[1..], '0');
      if len > 0 {
        AllZerosIsZeros(s[1..], len - 1);
        assert Repeat('0', len)[1..] == Repeat('0', len - 1);
        assert s == [s[0]] + s[1..];
      }
    }
  }

  lemma {:induction false} CountBound(s: string, c: char)
    ensures Count(s, c) <= |s|
  {
    if s != [] {
      CountBound(s[1..], c);
    }
  }

  /** k == 0 yields only the all-'1' string. */
  lemma {:induction false} ZbitsNoZeros(n: nat)
    ensures ZbitsSet(n, 0) == {Repeat('1', n)}
  {
    forall s
      ensures s in ZbitsSet(n, 0) <==> s == Repeat('1', n)
    {
      ZbitsMembership(n, 0, s);
      NoZerosIsOnes(s, n);
    }
  }

  /** k == n yields only the all-'0' string. */
  lemma {:induction false} ZbitsAllZeros(n: nat)
    ensures ZbitsSet(n, n) == {Repeat('0', n)}
  {
    forall s
      ensures s in ZbitsSet(n, n) <==> s == Repeat('0', n)
    {
      ZbitsMembership(n, n, s);
      AllZerosIsZeros(s, n);
    }
  }

  /**
   * `zbits(n, k)`. The argument checks come first, in the order of lines 28-37;
   * then every k-combination of range(n) adds its string to `result`.
   */
  method Zbits(n: int, k: int) returns (r: Result<set<string>, ZbitsError>)
    ensures n <= 0 ==> r == Err(NotPositive)
    ensures n > 0 && k < 0 ==> r == Err(NegativeZeros)
    ensures n > 0 && k > n ==> r == Err(TooManyZeros)
    ensures n > 0 && 0 <= k <= n ==>
      && r == Ok(ZbitsSet(n, k))
      && (forall s :: s in r.value <==> HasZeros(s, n, k))
      && |r.value| == Binom(n, k)
  {
    if n <= 0 {
      return Err(NotPositive);
    }
    if k < 0 {
      return Err(NegativeZeros);
    }
    if k > n {
      return Err(TooManyZeros);
    }
    var result: set<string> := {};
    var combos := Combinations(0, n, k);
    ghost var words := Words(combos, 0, n);
    WordsAt(combos, 0, n);
    var i := 0;
    while i < |combos|
      invariant 0 <= i <= |combos|
      invariant result == ToSet(words[..i])
    {
      var word := Word(combos[i], 0, n);
      assert words[..i + 1][..i] == words[..i];
      result := result + {word};
      i := i + 1;
    }
    assert words[..i] == words;
    forall s
      ensures s in result <==> HasZeros(s, n, k)
    {
      ZbitsMembership(n, k, s);
    }
    ZbitsSize(n, k);
    return Ok(result);
  }

  // ---------------------------------------------------------------------------
  // The cases main() asserts (binary.py:71-73)
  // ---------------------------------------------------------------------------

  /** A subset as large as the finite set that holds it is that set. */
  lemma {:induction false} SameSizeSubset(a: set<string>, b: set<string>)
    requires a <= b && |a| == |b|
    ensures a == b
  {
    assert a * b == a;
    assert |b - a| == 0;
  }

  /** A set of C(n, k) strings with k zeros each is the whole of ZbitsSet(n, k). */
  lemma {:induction false} ZbitsFromMembers(n: nat, k: nat, expected: set<string>)
    requires forall s :: s in expected ==> HasZeros(s, n, k)
    requires |expected| == Binom(n, k)
    ensures ZbitsSet(n, k) == expected
  {
    forall s | s in expected
      ensures s in ZbitsSet(n, k)
    {
      ZbitsMembership(n, k, s);
    }
    ZbitsSize(n, k);
    SameSizeSubset(expected, ZbitsSet(n, k));
  }

  /** The strings of `zbits(4, 3)`, checked one by one. */
  lemma {:induction false} MembersFourThree()
    ensures HasZeros("0100", 4, 3) && HasZeros("0001", 4, 3) && HasZeros("0010", 4, 3) && HasZeros("1000", 4, 3)
  {
  }

  lemma {:induction false} SizeFourThree()
    ensures |{"0100", "0001", "0010", "1000"}| == Binom(4, 3)
  {
  }

  /** `assert zbits(4, 3) == {'0100', '0001', '0010', '1000'}` (line 71). */
  lemma {:induction false} ExampleFourThree()
    ensures ZbitsSet(4, 3) == {"0100", "0001", "0010", "1000"}
  {
    MembersFourThree();
    SizeFourThree();
    ZbitsFromMembers(4, 3, {"0100", "0001", "0010", "1000"});
  }

  /** The strings of `zbits(4, 1)`, checked one by one. */
  lemma {:induction false} MembersFourOne()
    ensures HasZeros("0111", 4, 1) && HasZeros("1011", 4, 1) && HasZeros("1101", 4, 1) && HasZeros("1110", 4, 1)
  {
  }

  lemma {:induction false} SizeFourOne()
    ensures |{"0111", "1011", "1101", "1110"}| == Binom(4, 1)
  {
  }

  /** `assert zbits(4, 1) == {'0111', '1011', '1101', '1110'}` (line 72). */
  lemma {:induction false} ExampleFourOne()
    ensures ZbitsSet(4, 1) == {"0111", "1011", "1101", "1110"}
  {
    MembersFourOne();
    SizeFourOne();
    ZbitsFromMembers(4, 1, {"0111", "1011", "1101", "1110"});
  }

  /** The strings of `zbits(5, 4)`, checked one by one. */
  lemma {:induction false} MembersFiveFour()
    ensures && HasZeros("00001", 5, 4) && HasZeros("00100", 5, 4) && HasZeros("01000", 5, 4)
            && HasZeros("10000", 5, 4) && HasZeros("00010", 5, 4)
  {
  }

  lemma {:induction false} SizeFiveFour()
    ensures |{"00001", "00100", "01000", "10000", "00010"}| == Binom(5, 4)
  {
  }

  /** `assert zbits(5, 4) == {'00001', '00100', '01000', '10000', '00010'}` (line 73). */
  lemma {:induction false} ExampleFiveFour()
    ensures ZbitsSet(5, 4) == {"00001", "00100", "01000", "10000", "00010"}
  {
    MembersFiveFour();
    SizeFiveFour();
    ZbitsFromMembers(5, 4, {"00001", "00100", "01000", "10000", "00010"});
  }
}
