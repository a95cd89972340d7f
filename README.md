# swcgeom array helpers in Dafny

A verified model of the two array helpers of `swcgeom/utils/numpy.py`:

- `padding1d` forces a one-dimensional array to exactly `n` elements. It keeps
  the first `n` elements of a long input, extends a short one with copies of a
  padding value, and starts from `n` zeros when no input is given. Its element
  kind is the explicit `dtype`, else the input's, else `float32`. It is modelled
  as the pure function `NumpyUtils.Padding1d` over `Array1d`, a datatype pairing
  an element-kind tag with a `seq<real>` of elements.
- `to_distribution` is a fixed-width histogram. Each sample goes to bucket
  `floor(value / step)`, a zeroed count array of length `max bucket + 1` is
  allocated, and one slot is incremented per sample. It is modelled as the
  method `NumpyUtils.ToDistribution`. The method allocates an `array<int>`,
  runs the same counting loop, and is proved equal to the specification
  function `Histogram`. Slot `b` of `Histogram` is the number of occurrences
  of `b` among the bucket indices. Samples are integers and `step` a positive
  integer, so Dafny's `/` is exactly floor division.

`wrappers.dfy` holds the `Option` and `Result` datatypes. `numpy_utils.dfy`
holds the module `NumpyUtils`.

## Model

| member | source | states |
|---|---|---|
| NumpyUtils.Padding1d | swcgeom/utils/numpy.py:12-43 | the padding value defaults to 0 and `dtype` to none, as in the source; the result has exactly `n` elements; its element kind is the explicit `dtype`, else the input's, else `float32`; with no input every element is 0; otherwise element `i` is the input's element `i` where the input has one and the padding value after that |
| NumpyUtils.ResolveDType | swcgeom/utils/numpy.py:34 | the element kind is the explicit `dtype` when one is given, else the input's when there is an input, else `float32` |
| NumpyUtils.PaddingTruncates | swcgeom/utils/numpy.py:39-40 | an input of at least `n` elements gives exactly its prefix of length `n` |
| NumpyUtils.PaddingExtends | swcgeom/utils/numpy.py:42-43 | a shorter input gives the input followed by `n - len(v)` copies of the padding value |
| NumpyUtils.PaddingNoInput | swcgeom/utils/numpy.py:34-35 | with no input the result is `n` zeros and does not depend on the padding value |
| NumpyUtils.PaddingIdempotent | swcgeom/utils/numpy.py:34-43 | padding an already padded result to the same length with the same arguments returns it unchanged, element kind included |
| NumpyUtils.PaddingShrinks | swcgeom/utils/numpy.py:39-43 | padding to `m` and then to `n <= m` equals padding to `n` directly |
| NumpyUtils.BucketIndex | swcgeom/utils/numpy.py:47 | the bucket `b` of a sample satisfies `b * step <= value < (b + 1) * step`, i.e. it is the floor of `value / step`; a non-negative sample has a non-negative bucket |
| NumpyUtils.BucketIndices | swcgeom/utils/numpy.py:47 | there is one bucket index per sample, and index `i` is the floor of `values[i] / step`, i.e. `idx[i] * step <= values[i] < (idx[i] + 1) * step`; non-negative samples get non-negative indices |
| NumpyUtils.MaxOf | swcgeom/utils/numpy.py:48 | the maximum of a non-empty sequence is one of its elements and no element exceeds it |
| NumpyUtils.HistogramSnoc | swcgeom/utils/numpy.py:49-50 | counting one more sample in bucket `x` increments slot `x` and leaves every other slot unchanged |
| NumpyUtils.CountStep | swcgeom/utils/numpy.py:49-50 | one turn of the counting loop: incrementing the slot of sample `k` in the histogram of the first `k` samples gives the histogram of the first `k + 1` |
| NumpyUtils.HistogramSum | swcgeom/utils/numpy.py:48-50 | when every index lies in `[0, len)` the histogram's counts add up to the number of samples |
| NumpyUtils.HistogramLastBucket | swcgeom/utils/numpy.py:48 | a histogram sized by the largest index has a non-zero last slot, so it is the shortest histogram holding every sample |
| NumpyUtils.DistributionExample | swcgeom/utils/numpy.py:47-50 | samples 0, 5, 15, 19 with bucket width 10 have largest bucket 1 and counts `[2, 2]` |
| NumpyUtils.ToDistribution | swcgeom/utils/numpy.py:46-52 | fails exactly when there are no samples; otherwise returns an array of length `max bucket + 1` whose slot `b` is the number of samples in bucket `b`, whose counts sum to the number of samples and whose last slot is non-zero |

## Left out

- `printoptions` (swcgeom/utils/numpy.py:55-63) saves and restores NumPy's process-wide print settings. That is global state of a foreign library and only changes how arrays are displayed.
- NumpyUtils.Padding1d: `n` is a `nat`, so a negative `n` is not modelled. In the source, `padding1d(-1, array([1., 2., 3.]))` takes the `v[:n]` branch (swcgeom/utils/numpy.py:39-40) and drops the last element, returning 2 elements rather than `n`. With no input, `np.zeros(-1)` (swcgeom/utils/numpy.py:35) raises.
- NumpyUtils.Padding1d: `np.full(..., padding_value, dtype=dtype)` (swcgeom/utils/numpy.py:42) converts the padding value to the chosen element kind; the model stores the padding value unconverted. For example, padding an `int32` array with 0.7 stores 0 in the source and 0.7 in the model.
- NumpyUtils.ToDistribution: `step` must be positive. The source does not check its `step: float` argument (swcgeom/utils/numpy.py:46), and a zero step divides by zero.
- NumpyUtils.AsType: numeric conversion by `astype` (swcgeom/utils/numpy.py:36) is not modelled; changing the element kind keeps the element values.
- NumpyUtils.BucketIndex: samples and `step` are integers, not floating-point numbers; rounding in `values / step` and the `int32` cast of line 47 are not modelled.
- NumpyUtils.ToDistribution: negative samples are excluded by a precondition. In NumPy a negative bucket index wraps around to the end of the array or raises, and a negative maximum gives an invalid or empty allocation (swcgeom/utils/numpy.py:48-50).
- NumpyUtils.ToDistribution: counts are unbounded integers; `int32` overflow of a count is not modelled.
- NumpyUtils.ToDistribution: the empty-input failure, an exception raised by `indices.max()` in the source, is the error value `Err(NoSamples)`.
- NumpyUtils.ToDistribution: the contract does not state that the returned array is newly allocated.
- Whether `v[:n]` is a view sharing memory with the input (swcgeom/utils/numpy.py:40) is not modelled; arrays are values.
- The `ndim == 1` assertion (swcgeom/utils/numpy.py:37) holds by construction, since an `Array1d` is one-dimensional.
- The `padding_value` and the elements are modelled as `real`; an arbitrary Python object as padding value is not.
