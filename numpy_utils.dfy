/**
 * The array helpers of swcgeom/utils/numpy.py: forcing a one-dimensional
 * array to a fixed length, and counting samples into fixed-width buckets.
 */
module NumpyUtils {
  import opened Wrappers

  // ---------------------------------------------------------------------
  // Arrays and element kinds
  // ---------------------------------------------------------------------

  /** The element kinds of a NumPy array, as a closed set of tags. */
  datatype DType =
    | Bool
    | Int8 | Int16 | Int32 | Int64
    | UInt8 | UInt16 | UInt32 | UInt64
    | Float16 | Float32 | Float64

  /** A one-dimensional NumPy array: its element kind and its elements. */
  datatype Array1d = Array1d(dtype: DType, elems: seq<real>)

  /** `np.zeros(n, dtype=t)`. */
  function Zeros(n: nat, t: DType): Array1d
  {
    Array1d(t, seq(n, _ => 0.0))
  }

  /** `np.full(k, value, dtype=t)`. */
  function Full(k: nat, value: real, t: DType): Array1d
  {
    Array1d(t, seq(k, _ => value))
  }

  /** `v.astype(t)`: retags the array; the numeric conversion of the elements is not modelled. */
  function AsType(v: Array1d, t: DType): Array1d
  {
    Array1d(t, v.elems)
  }

  /** The element kind `padding1d` settles on: the explicit one, else the input's, else float32. */
  function ResolveDType(dtype: Option<DType>, v: Option<Array1d>): (t: DType)
    ensures dtype.Some? ==> t == dtype.value
    ensures dtype.None? && v.Some? ==> t == v.value.dtype
    ensures dtype.None? && v.None? ==> t == Float32
  {
    if dtype.Some? then dtype.value
    else if v.Some? then v.value.dtype
    else Float32
  }

  // ---------------------------------------------------------------------
  // padding1d
  // ---------------------------------------------------------------------

  /**
   * `padding1d(n, v, padding_value, dtype)`: the input (or `n` zeros when
   * there is none), cast to the resolved element kind, then cut to its
   * first `n` elements or extended with copies of `paddingValue`.
   */
  function Padding1d(n: nat, v: Option<Array1d>, paddingValue: real := 0.0, dtype: Option<DType> := None): (r: Array1d)
    ensures |r.elems| == n
    ensures dtype.Some? ==> r.dtype == dtype.value
    ensures dtype.None? && v.Some? ==> r.dtype == v.value.dtype
    ensures dtype.None? && v.None? ==> r.dtype == Float32
    ensures v.None? ==> forall i :: 0 <= i < n ==> r.elems[i] == 0.0
    ensures v.Some? ==> forall i :: 0 <= i < n ==>
              r.elems[i] == if i < |v.value.elems| then v.value.elems[i] else paddingValue
  {
    var t := ResolveDType(dtype, v);
    var w := if v.None? then Zeros(n, t) else v.value;
    var w := if w.dtype != t then AsType(w, t) else w;
    if |w.elems| >= n then
      Array1d(w.dtype, w.elems[..n])
    else
      var padding := Full(n - |w.elems|, paddingValue, t);
      Array1d(t, w.elems + padding.elems)
  }

  /** An input at least `n` long is cut to its first `n` elements. */
  lemma PaddingTruncates(n: nat, v: Array1d, paddingValue: real, dtype: Option<DType>)
    requires |v.elems| >= n
    ensures Padding1d(n, Some(v), paddingValue, dtype).elems == v.elems[..n]
  {
  }

  /** A shorter input is kept whole and followed by `n - |v|` copies of the padding value. */
  lemma PaddingExtends(n: nat, v: Array1d, paddingValue: real, dtype: Option<DType>)
    requires |v.elems| < n
    ensures Padding1d(n, Some(v), paddingValue, dtype).elems
            == v.elems + seq(n - |v.elems|, _ => paddingValue)
  {
  }

  /** With no input the result is `n` zeros, whatever the padding value. */
  lemma PaddingNoInput(n: nat, p: real, q: real, dtype: Option<DType>)
    ensures Padding1d(n, None, p, dtype).elems == seq(n, _ => 0.0)
    ensures Padding1d(n, None, p, dtype) == Padding1d(n, None, q, dtype)
  {
  }

  /** Padding an already padded array to the same length changes nothing. */
  lemma PaddingIdempotent(n: nat, v: Option<Array1d>, paddingValue: real, dtype: Option<DType>)
    ensures var r := Padding1d(n, v, paddingValue, dtype);
            Padding1d(n, Some(r), paddingValue, dtype) == r
  {
  }

  /** Padding to `m` and then to `n <= m` is the same as padding to `n` at once. */
  lemma PaddingShrinks(m: nat, n: nat, v: Option<Array1d>, paddingValue: real, dtype: Option<DType>)
    requires n <= m
    ensures Padding1d(n, Some(Padding1d(m, v, paddingValue, dtype)), paddingValue, dtype)
            == Padding1d(n, v, paddingValue, dtype)
  {
  }

  // ---------------------------------------------------------------------
  // to_distribution
  // ---------------------------------------------------------------------

  /** Why `to_distribution` can fail: no samples means no largest bucket. */
  datatype DistributionError = NoSamples

  /** `floor(value / step)`: the bucket `[b * step, (b + 1) * step)` that holds `value`. */
  function BucketIndex(value: int, step: int): (b: int)
    requires step > 0
    ensures b * step <= value < b * step + step
    ensures value >= 0 ==> b >= 0
  {
    value / step
  }

  /** The bucket index of every sample, in order. */
  function BucketIndices(values: seq<int>, step: int): (idx: seq<int>)
    requires step > 0
    ensures |idx| == |values|
    ensures forall i :: 0 <= i < |values| ==> idx[i] * step <= values[i] < idx[i] * step + step
    ensures forall i :: 0 <= i < |values| ==> values[i] >= 0 ==> idx[i] >= 0
  {
    seq(|values|, i requires 0 <= i < |values| => BucketIndex(values[i], step))
  }

  /** `indices.max()`: the largest element of a non-empty sequence. */
  function MaxOf(s: seq<int>): (m: int)
    requires |s| > 0
    ensures m in s
    ensures forall i :: 0 <= i < |s| ==> s[i] <= m
  {
    if |s| == 1 then s[0]
    else
      var rest := MaxOf(s[1..]);
      if s[0] >= rest then s[0] else rest
  }

  /** The histogram of bucket indices over buckets `0 .. len - 1`: slot `b` counts the occurrences of `b`. */
  function Histogram(idx: seq<int>, len: nat): seq<nat>
  {
    seq(len, b => multiset(idx)[b])
  }

  /** The total of a sequence of counts. */
  function Sum(s: seq<int>): int
  {
    if s == [] then 0 else s[0] + Sum(s[1..])
  }

  lemma {:induction false} SumZeros(len: nat)
    ensures Sum(seq(len, _ => 0)) == 0
  {
    if len > 0 {
      assert seq(len, _ => 0)[1..] == seq(len - 1, _ => 0);
      SumZeros(len - 1);
    }
  }

  lemma {:induction false} SumIncrement(s: seq<int>, x: nat)
    requires x < |s|
    ensures Sum(s[x := s[x] + 1]) == Sum(s) + 1
  {
    if x > 0 {
      assert s[x := s[x] + 1][1..] == s[1..][x - 1 := s[x] + 1];
      SumIncrement(s[1..], x - 1);
    }
  }

  /** Counting one more sample in bucket `x` adds one to slot `x` and leaves the others alone. */
  lemma HistogramSnoc(idx: seq<int>, x: nat, len: nat)
    requires x < len
    ensures Histogram(idx + [x], len) == Histogram(idx, len)[x := Histogram(idx, len)[x] + 1]
  {
  }

  /** One turn of the counting loop: counting sample `k` turns the histogram of the first `k` samples into that of the first `k + 1`. */
  lemma CountStep(idx: seq<int>, k: nat, len: nat)
    requires k < |idx| && 0 <= idx[k] < len
    ensures var h := Histogram(idx[..k], len);
            Histogram(idx[..k + 1], len) == h[idx[k] := h[idx[k]] + 1]
  {
    assert idx[..k + 1] == idx[..k] + [idx[k]];
    HistogramSnoc(idx[..k], idx[k], len);
  }

  /** Every sample lands in exactly one slot, so the counts add up to the number of samples. */
  lemma {:induction false} HistogramSum(idx: seq<int>, len: nat)
    requires forall i :: 0 <= i < |idx| ==> 0 <= idx[i] < len
    ensures Sum(Histogram(idx, len)) == |idx|
  {
    if idx == [] {
      assert Histogram(idx, len) == seq(len, _ => 0);
      SumZeros(len);
    } else {
      var front, x := idx[..|idx| - 1], idx[|idx| - 1];
      assert idx == front + [x];
      HistogramSum(front, len);
      HistogramSnoc(front, x, len);
      SumIncrement(Histogram(front, len), x);
    }
  }

  /** Sized by the largest bucket index, the histogram's last slot holds at least one sample. */
  lemma HistogramLastBucket(idx: seq<int>)
    requires |idx| > 0 && MaxOf(idx) >= 0
    ensures Histogram(idx, MaxOf(idx) + 1)[MaxOf(idx)] > 0
  {
  }

  /** Samples 0, 5, 15 and 19 in buckets of width 10 give two samples per bucket. */
  lemma DistributionExample()
    ensures var idx := BucketIndices([0, 5, 15, 19], 10);
            MaxOf(idx) == 1 && Histogram(idx, 2) == [2, 2]
  {
    var idx := BucketIndices([0, 5, 15, 19], 10);
    assert idx == [0, 0, 1, 1];
    assert multiset(idx) == multiset{0, 0, 1, 1};
  }

  /**
   * `to_distribution(values, step)`: a zeroed count array one longer than
   * the largest bucket index, incremented once per sample.
   */
  method ToDistribution(values: seq<int>, step: int) returns (r: Result<array<int>, DistributionError>)
    requires step > 0
    requires forall i :: 0 <= i < |values| ==> values[i] >= 0
    ensures r.Err? <==> values == []
    ensures r.Ok? && values != [] ==>
              var idx := BucketIndices(values, step);
              r.value.Length == MaxOf(idx) + 1 && r.value[..] == Histogram(idx, r.value.Length)
    ensures r.Ok? ==> Sum(r.value[..]) == |values|
    ensures r.Ok? ==> r.value.Length > 0 && r.value[r.value.Length - 1] > 0
  {
    if |values| == 0 {
      return Err(NoSamples);
    }
    var indices := BucketIndices(values, step);
    var top := MaxOf(indices);
    var dist := new int[top + 1](_ => 0);
    assert dist[..] == Histogram(indices[..0], dist.Length);
    for k := 0 to |indices|
      invariant dist[..] == Histogram(indices[..k], dist.Length)
    {
      var i := indices[k];
      ghost var before := dist[..];
      CountStep(indices, k, dist.Length);
      dist[i] := dist[i] + 1;
      assert dist[..] == before[i := before[i] + 1];
    }
    assert indices[..|indices|] == indices;
    HistogramSum(indices, dist.Length);
    HistogramLastBucket(indices);
    assert dist[..] == Histogram(indices, dist.Length);
    r := Ok(dist);
  }
}
