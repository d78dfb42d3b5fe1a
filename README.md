# Parallel sorter and binary strings, in Dafny

This project models two small Python programs and proves what they compute.

- `assignment11/parallel_sorter.py` is a bucket sort over MPI processes. Rank 0
  draws the data and `slice_data` cuts it into one bucket per process. The
  buckets are value ranges between the minimum and the maximum, one range per
  process. Every rank gets its bucket with a scatter. Every rank except 0 sorts
  its bucket. Rank 0 gathers the buckets in rank order and flattens them.
  Rank 0 returns the flat list and every other rank returns `None`.
- `binary.py`'s `zbits(n, k)` returns the set of binary strings of length `n`
  with exactly `k` zeros. It writes a '0' at each `k`-combination of the
  positions `range(n)` and a '1' everywhere else.

Files:

- `wrappers.dfy` holds `Option` and `Result`.
- `parallel_sorter.dfy` (module `ParallelSorter`) covers the sorter:
  - the slicing is a pure function over sequences;
  - `psort` is a method whose loop replays, rank by rank, what each process
    does with its bucket. The data is a parameter. The group size is a
    parameter too.
- `binary.dfy` (module `Binary`) covers `zbits`:
  - `Combinations` enumerates k-subsets in the order `itertools.combinations`
    yields them;
  - `Word` turns one combination into its string;
  - the method `Zbits` is the loop of lines 46-49, with the argument checks
    of lines 28-37 in front.

Integers are unbounded. The mask of line 15 compares a value with
`min + delta*i`, where `delta` is a true division. The model compares exactly
by multiplying both sides by `size - 1`, and `MaskIsInRange` proves this
equals the mask over exact reals.

The code and its comment disagree on one point, and the model follows the code:

- The comment at line 14 says process 0 keeps the least number.
- When every value is equal (`max == min`), `delta` is 0 and no value passes
  any mask. Every bucket is empty and the sorted result is empty, not the data.
- `ConstantInputIsLost` states this, and `GatherCorrect` and `PSort` state the
  permutation property only when `min < max`.

## Model

| member | source | states |
|---|---|---|
| ParallelSorter.Min | assignment11/parallel_sorter.py:11 | the minimum is an element of the data and no element is smaller |
| ParallelSorter.Max | assignment11/parallel_sorter.py:11 | the maximum is an element of the data and no element is larger |
| ParallelSorter.MaskIsInRange | assignment11/parallel_sorter.py:12-15 | a value passes the mask of bucket i over the reals, with delta = (max - min)/(size - 1), exactly when it passes the integer form of the mask that the model uses |
| ParallelSorter.Delta | assignment11/parallel_sorter.py:12 | delta is (max - min) / (size - 1) as a true division, over exact reals |
| ParallelSorter.MaskAsWritten | assignment11/parallel_sorter.py:15 | the mask of bucket i as written: v > min + delta*(i-1) and v <= min + delta*i, over exact reals |
| ParallelSorter.Keys | assignment11/parallel_sorter.py:15 | pairs every value, in input order, with its key: its distance above the minimum times size - 1 |
| ParallelSorter.Select | assignment11/parallel_sorter.py:15 | boolean indexing `data[mask]`: the values whose keys lie in the given range, in input order |
| ParallelSorter.Bucket | assignment11/parallel_sorter.py:15 | one element of the comprehension: the values that pass the mask of bucket i |
| ParallelSorter.Buckets | assignment11/parallel_sorter.py:15 | the comprehension over `range(size)`: size buckets, bucket i at position i |
| ParallelSorter.SliceWith | assignment11/parallel_sorter.py:12-15 | the slicing for a given minimum and maximum |
| ParallelSorter.SliceData | assignment11/parallel_sorter.py:8-17 | slicing makes one bucket per process |
| ParallelSorter.BucketContents | assignment11/parallel_sorter.py:15 | bucket i holds each value as many times as the data holds it when the value passes bucket i's mask, and not at all otherwise |
| ParallelSorter.BucketKeepsInputOrder | assignment11/parallel_sorter.py:15 | bucket i is the subsequence of the data at the strictly increasing positions whose values pass the mask, which is boolean indexing in input order |
| ParallelSorter.SelectIsMaskFilter | assignment11/parallel_sorter.py:15 | selecting with a key range is the data at exactly the positions whose keys lie in the range, in increasing position order |
| ParallelSorter.InBucket | assignment11/parallel_sorter.py:15 | a value in bucket i comes from the data and lies in bucket i's interval |
| ParallelSorter.BucketsOrdered | assignment11/parallel_sorter.py:14-15 | every value in a lower-ranked bucket is strictly smaller than every value in a higher-ranked bucket |
| ParallelSorter.BucketZeroIsMinimum | assignment11/parallel_sorter.py:14-15 | when min < max, bucket 0 holds only the minimum, and it holds every copy of it |
| ParallelSorter.BucketIndexFits | assignment11/parallel_sorter.py:14-15 | every value between min and max (with min < max) has a bucket index in 0..size-1 whose interval contains it |
| ParallelSorter.InItsBucket | assignment11/parallel_sorter.py:14-15 | when min < max, every value of the data lies in the bucket BucketIndex computes for it |
| ParallelSorter.InOneBucketOnly | assignment11/parallel_sorter.py:15 | no value lies in two different buckets |
| ParallelSorter.ExactlyOneBucket | assignment11/parallel_sorter.py:14-15 | when min < max, each value of the data lies in its own bucket and in no other |
| ParallelSorter.SliceDataIsPartition | assignment11/parallel_sorter.py:8-17 | when min < max, the buckets together are a permutation of the data |
| ParallelSorter.ConstantInputIsLost | assignment11/parallel_sorter.py:11-15 | when min == max every bucket is empty: the data is lost, whatever the comment at line 14 says |
| ParallelSorter.SliceDataExample | assignment11/parallel_sorter.py:8-17 | slicing [2, 1, 1, 3, 5, 4] for 3 processes gives [[1, 1], [2, 3], [5, 4]] |
| ParallelSorter.Flatten | assignment11/parallel_sorter.py:52 | `itertools.chain.from_iterable`: the lists concatenated in rank order |
| ParallelSorter.Locals | assignment11/parallel_sorter.py:41-48 | the list the gather collects: one local list per rank, in rank order, rank q's being its bucket, sorted when q != 0 |
| ParallelSorter.Gather | assignment11/parallel_sorter.py:41-52 | rank 0's result: the local lists of the slicing, flattened in rank order |
| ParallelSorter.Insert | assignment11/parallel_sorter.py:45 | inserting x adds exactly one copy of x to the multiset |
| ParallelSorter.InsertKeepsSorted | assignment11/parallel_sorter.py:45 | inserting into a sorted sequence keeps it sorted |
| ParallelSorter.LocalSort | assignment11/parallel_sorter.py:45 | the sort of a bucket is sorted and a permutation of the bucket |
| ParallelSorter.LocalSortOfSorted | assignment11/parallel_sorter.py:45 | sorting a sequence that is already sorted leaves it unchanged |
| ParallelSorter.LocalOf | assignment11/parallel_sorter.py:44-45 | a rank's local data is a permutation of its bucket, and it is sorted on every rank except 0 |
| ParallelSorter.RankZeroNeedsNoSort | assignment11/parallel_sorter.py:44-45 | skipping the sort on rank 0 changes nothing: every rank's local data equals the sort of its bucket |
| ParallelSorter.SliceDataInOrder | assignment11/parallel_sorter.py:14-15 | the buckets are ordered across ranks, and bucket 0, which rank 0 leaves unsorted, is already sorted |
| ParallelSorter.FlattenSorted | assignment11/parallel_sorter.py:52 | flattening sorted buckets that are ordered across ranks gives a sorted sequence |
| ParallelSorter.FlattenPermutes | assignment11/parallel_sorter.py:52 | flattening bucket lists that agree bucket by bucket as multisets gives permutations of each other |
| ParallelSorter.GatherFromOrdered | assignment11/parallel_sorter.py:44-52 | for buckets ordered across ranks with bucket 0 sorted, the flattened local data is sorted and a permutation of the buckets |
| ParallelSorter.GatherCorrect | assignment11/parallel_sorter.py:41-52 | rank 0's result is always sorted; it is a permutation of the data when min < max, and empty when min == max |
| ParallelSorter.LocalsExample | assignment11/parallel_sorter.py:44-45 | the local data for buckets [[1, 1], [2, 3], [5, 4]] is [[1, 1], [2, 3], [4, 5]] |
| ParallelSorter.GatherExample | assignment11/test.py:22 | the sorter on [2, 1, 1, 3, 5, 4] with 3 processes returns [1, 1, 2, 3, 4, 5] on rank 0, which is its own sorted order |
| ParallelSorter.ScatterAndSort | assignment11/parallel_sorter.py:41-45 | the loop over ranks leaves each rank q with its bucket q, sorted when q != 0 |
| ParallelSorter.GatherAndFlatten | assignment11/parallel_sorter.py:48-52 | the loop over ranks appends the local data in rank order, giving the flattening |
| ParallelSorter.RankResults | assignment11/parallel_sorter.py:51-54 | rank 0 returns the flattened list and every other rank returns None |
| ParallelSorter.PSort | assignment11/parallel_sorter.py:19-54 | the run fails for fewer than 2 processes before anything else; with empty data the run fails too (`min` raises on rank 0), a case the program cannot reach because rank 0 always draws 10000 values; otherwise every rank returns a value, rank 0's is sorted and, when min < max, a permutation of the data, and the other ranks return None |
| Binary.Zbits | binary.py:7-51 | raises for n <= 0, then for k < 0, then for k > n; otherwise the set holds exactly the binary strings of length n with k zeros and has C(n, k) elements |
| Binary.ZbitsMembership | binary.py:43-51 | a string is in the result exactly when it is a binary string of length n with k zeros |
| Binary.ZbitsSize | binary.py:43-51 | the result has C(n, k) elements |
| Binary.WordsSound | binary.py:46-49 | every string built from a combination has length n, is binary and has k zeros |
| Binary.WordsComplete | binary.py:46-49 | every binary string of length n with k zeros is built from some combination |
| Binary.WordsCount | binary.py:46-49 | the strings built from the combinations are pairwise distinct and there are C(n, k) of them |
| Binary.Combinations | binary.py:46 | `combinations(range(from, n), k)`: the k-element index tuples of from..n-1, in the lexicographic order itertools yields |
| Binary.Words | binary.py:46-49 | the strings line 49 writes, one per index tuple, in the order of the tuples |
| Binary.ZbitsSet | binary.py:40-51 | the set the loop builds from the empty set: the strings written for every k-combination of range(n) |
| Binary.CombinationsValid | binary.py:46 | every enumerated combination is a strictly increasing k-sequence of positions in from..n-1 |
| Binary.CombinationsComplete | binary.py:46 | every strictly increasing k-sequence of positions in from..n-1 is enumerated |
| Binary.CombinationsDistinct | binary.py:46 | no combination is enumerated twice |
| Binary.CombinationsCount | binary.py:46 | there are C(n - from, k) combinations |
| Binary.Word | binary.py:49 | the string built from a combination has one character per position and is binary |
| Binary.WordAt | binary.py:49 | position i of the string is '0' exactly when i is in the combination |
| Binary.WordSameAbove | binary.py:49 | two combinations that hold the same positions build the same string |
| Binary.WordHasZeros | binary.py:49 | the string built from a strictly increasing combination has as many zeros as the combination has positions |
| Binary.WordOfZeroPositions | binary.py:49 | every binary string is the string built from its own zero positions |
| Binary.ZeroPositionsOfWord | binary.py:49 | reading back the zero positions of a string built from a strictly increasing combination gives the combination |
| Binary.ZeroPositionsValid | binary.py:49 | the zero positions of a string are strictly increasing, lie within the string, and there are as many as the string has zeros |
| Binary.WordsDistinct | binary.py:46-49 | distinct combinations build distinct strings |
| Binary.ZerosAndOnes | binary.py:49 | in a binary string the zeros and the ones together are its length |
| Binary.BinaryAt | binary.py:49 | a string is binary exactly when each of its characters is '0' or '1' |
| Binary.NoZerosIsOnes | binary.py:46-49 | the only binary string of length n without zeros is n ones |
| Binary.AllZerosIsZeros | binary.py:46-49 | the only binary string of length n with n zeros is n zeros |
| Binary.ZbitsNoZeros | binary.py:43-51 | for k = 0 the result is the single string of n ones |
| Binary.ZbitsAllZeros | binary.py:43-51 | for k = n the result is the single string of n zeros |
| Binary.ExampleFourThree | binary.py:71 | zbits(4, 3) is {'0100', '0001', '0010', '1000'} |
| Binary.ExampleFourOne | binary.py:72 | zbits(4, 1) is {'0111', '1011', '1101', '1110'} |
| Binary.ExampleFiveFour | binary.py:73 | zbits(5, 4) is {'00001', '00100', '01000', '10000', '00010'} |

## Left out

- The MPI communicator of parallel_sorter.py:23-25, 41 and 48 is not modelled as processes. The group size is a parameter. The scatter is indexing by rank. The gather is the list of local buckets in rank order. Processes, messages and interleavings are not part of this model.
- The random data of parallel_sorter.py:34 (10000 integers from `np.random.randint(0, LENGTH, LENGTH)`) is a parameter. The model accepts any sequence of integers, including ones of other lengths and ranges.
- ParallelSorter.SliceData: requires size >= 2 and non-empty data. `psort` only calls it after its own size check, and rank 0's array is never empty there. With one process, `slice_data` divides by zero. Numpy then gives inf and nan instead of raising, and that case is not modelled.
- The floating-point rounding of `delta` and of `min_num + delta*i` is not modelled: the mask is compared over exact arithmetic. At run time rounding can move a value lying on a bucket boundary into the neighbouring bucket, and it can drop the maximum altogether. The top boundary `min_num + delta*(size-1)` can round below `max_num`: in IEEE doubles `9999/39*39` is `9998.999999999998`, so data with minimum 0 and maximum 9999 on 40 processes loses every copy of 9999, and `1/49*49` is `0.9999999999999999`, so `[0, 1]` on 50 processes loses the 1.
- ParallelSorter.SliceDataIsPartition: the permutation it states holds over exact arithmetic only; with the rounding above, the buckets can miss every copy of the maximum.
- ParallelSorter.GatherCorrect: its permutation clause holds over exact arithmetic only, for the same reason; sortedness holds either way.
- ParallelSorter.PSort: its permutation clause holds over exact arithmetic only, for the same reason. For empty data only rank 0 raises in the program and the other ranks would wait in `scatter`; the model returns `Err(EmptyData)` for the whole run.
- ParallelSorter.LocalSort: numpy's in-place sort algorithm is a library call. The model uses insertion sort on values, specified as sorted plus permutation, and proves nothing about numpy's algorithm.
- Binary.Zbits: the checks at binary.py:19-25, which reject arguments that are not integers in value, are left out because the model's arguments are typed `int`.
- `print_zbits` (binary.py:54-66), `main`'s printing and the `__main__` blocks are output only and are left out. The three assertions of `main` are the Example lemmas.
- Binary.Zbits returns a Dafny `set<string>`. Python's hashing and set iteration order are not part of this model.
