# TFchirp S-Transform core, modelled in Dafny

TFchirp computes a discrete S-Transform spectrogram of a time series and a quick approximate
inverse. This project models the exact, index-level logic around the numeric kernels. FFT,
IFFT and the Gaussian generator are left uninterpreted.

- **WindowGenerator** (`_window_normal`, module `Window`): the Gaussian curve is clamped to an
  elevation floor. It is then rotated by `length // 2` by slicing the curve laid end to end
  twice.
- **STransformEngine** (`sTransform`, module `STransform`):
  - the frequency range is mapped to FFT bins;
  - a table of `int((Nhigh - Nlow) / frate) + 1` rows of `N` samples is preallocated;
  - the spectrum is doubled;
  - row 0 is filled from the unshifted spectrum;
  - a stepped loop fills row `i / frate` from the slice of the doubled spectrum at offset
    `Nlow + i`.

  The method `STransform.STransform` works in place on an `array` of rows. It is proved equal
  to the pure table `STransform.Table`, which is written with circular shifts instead of the
  doubled buffer. The lemmas about the table are proved on `Table`.
- **InverseApproximator** (`inverse_S`, module `Inverse`): only row 0 of the table is read.
  Its FFT is divided elementwise by the default elevated window, and the IFFT is applied.

Module `Signal` holds the shared vocabulary:
- exact complex samples and elementwise weighting and division by a real window;
- the `Kernels` record. The assumption made about it everywhere (`LengthPreserving`) is that
  `fft`, `ifft` and `gaussian` return as many values as asked for. Only
  `Inverse.QuickInverseRecoversSignal` assumes more: that `fft` and `ifft` undo each other;
- Python's slice clamping (`PySlice`);
- the circular shift `Rotate`, and the lemma that a length-`N` slice of the doubled buffer is
  that shift exactly when it starts at most `N` in.

Integer division and products of variables are written as repeated subtraction and addition
(`FloorDiv`, `TruncDiv`, `Steps`, `Wrap`), so that the solver reasons linearly. Lemmas tie them
to `/`, `%` and `*`:
- `FloorDivIsDiv` ties `FloorDiv` to `/`;
- `WrapIsModulo` ties `Wrap` to `%`;
- `StepsIsProduct` ties `Steps` to `*`.

The contracts of `Bin`, `RowCount` and `RowOffset` are stated with `/` and `*`.

The defaults of the source are the parameters' default values:
- `lo := 0`, `hi := 800` and `frate := 1` for `Table` and `STransform`;
- `lowFreq := 0` for `QuickInverse`.

Errors are modelled as a `Result`, in the order in which the code would raise them:
1. `ZeroSampleRate`: division by zero on line 36.
2. `ZeroStep`: division by zero on line 38.
3. `EmptySignal`: the FFT of an empty series on line 39.
4. `NoRows`: a row count below 1 leaves no row 0 on lines 38 and 42.
5. `InvalidRange`: a row's slice is shorter than `N` on line 44.

`EmptySignal` and `NoRows` are never both possible: an empty signal maps both bounds to bin 0,
which gives one row. The inverse fails only on a table without a row 0 (`EmptyTable`) or with
empty rows (`EmptyRow`).

## Model

| member | source | states |
|---|---|---|
| Window.Elevate | TFchirp/__init__.py:63 | each value is raised to at least the floor and never lowered; each result is either the original value or the floor |
| Window.ElevateIdempotent | TFchirp/__init__.py:63 | clamping twice to the same floor is clamping once |
| Window.Base | TFchirp/__init__.py:62-66 | the curve that is split has the Gaussian's length; with elevation on every value is at least the elevation and at least the Gaussian's, and with elevation off it is the Gaussian itself |
| Window.Split | TFchirp/__init__.py:64-66 | the slice `[len//2 : len//2 + len]` of the doubled curve has exactly `len` values, and value `j` is the curve's value at `(len//2 + j)` wrapped around `len` |
| Window.WindowNormal | TFchirp/__init__.py:48-68 | the window has exactly `length` values for every length |
| Window.WindowIsRotation | TFchirp/__init__.py:64-66 | the window is the (elevated) Gaussian rotated by `length // 2`, so its first value is the curve's midpoint value |
| Window.WindowIndex | TFchirp/__init__.py:64-66 | window value `j` is the curve's value at `(length // 2 + j) % length` |
| Window.WindowAboveFloor | TFchirp/__init__.py:62-64 | with elevation on, no window value is below the elevation (for a real-valued Gaussian) |
| Window.WindowPermutesBase | TFchirp/__init__.py:65-66 | the window is a permutation (equal multiset) of the curve, which with elevation off is the unclamped Gaussian |
| Signal.PySlice | TFchirp/__init__.py:64 | Python's `s[lo:hi]`: its length is `min(hi, len(s)) - lo`, or 0 when the range is empty or starts past the end, and value `j` is `s[lo + j]` |
| Signal.Scale | TFchirp/__init__.py:44 | the elementwise product of a spectrum and a window of the same length has that length |
| Signal.Quotient | TFchirp/__init__.py:81 | the elementwise quotient of a spectrum by a window without zeros has the spectrum's length |
| Signal.DoubledSlice | TFchirp/__init__.py:40-44 | a length-`N` slice of `s + s` is full length exactly when it starts at most `N` in; then it is the circular shift of `s` by its start, and further in it has a computed shorter length |
| Signal.RotatePermutes | TFchirp/__init__.py:64-66 | a circular shift by at most the length (the window's shift is `length // 2`) is a permutation of its input |
| Signal.WrapIsModulo | TFchirp/__init__.py:64-66 | the wrap-around index used by the circular shift is `a % n` |
| Signal.QuotientUndoesScale | TFchirp/__init__.py:81 | dividing elementwise by a window without zeros undoes weighting by it, and conversely |
| STransform.FloorDiv | TFchirp/__init__.py:36 | the bin index is the largest number of whole steps of the sample rate that fit in `freq * N` |
| STransform.FloorDivIsDiv | TFchirp/__init__.py:36 | the repeated-subtraction quotient is Python's integer quotient `a // b` |
| STransform.Bin | TFchirp/__init__.py:36 | the bin of frequency `f` is `f * N // sample_rate` |
| STransform.RowCount | TFchirp/__init__.py:38 | the row count is `(Nhigh - Nlow) // frate + 1` when `Nlow <= Nhigh`, and `1 - (Nlow - Nhigh) // frate` otherwise, as `int()` truncates toward zero |
| STransform.RowOffset | TFchirp/__init__.py:44 | row `r`'s slice starts at `Nlow + r * frate`, which is `Nfreq[0] + i` for the loop's `i = r * frate` |
| STransform.StepsIsProduct | TFchirp/__init__.py:43-44 | the offset after `m` steps of `frate` is `m * frate` |
| STransform.TruncDiv | TFchirp/__init__.py:38 | Python's `int(a / b)`: the multiple of `b` nearest to `a` on the side of zero, for negative `a` too |
| STransform.FrequencyRow | TFchirp/__init__.py:44 | a row has as many samples as the spectrum |
| STransform.Table | TFchirp/__init__.py:35-44 | a successful table has `RowCount(Nlow, Nhigh, frate)` rows, which is `(Nhigh - Nlow) // frate + 1` for `Nlow <= Nhigh`, each of `N` samples, and success needs a non-zero sample rate and step and a non-empty signal |
| STransform.RangeValidity | TFchirp/__init__.py:43-44 | the table exists exactly when every row's slice of the doubled spectrum is full length |
| STransform.RowsFromDoubledSpectrum | TFchirp/__init__.py:40-44 | every row `r >= 1` of the table is the inverse transform of its full-length doubled-spectrum slice at `Nlow + r * frate`, weighted by the window for that frequency |
| STransform.RowZeroIndependent | TFchirp/__init__.py:42 | row 0 is the same for every sample rate, range and step, and is the row for the unshifted spectrum |
| STransform.DivideMultiple | TFchirp/__init__.py:44 | the row index `i / frate` of the `m`-th multiple of `frate` is `m` |
| STransform.StepInTable | TFchirp/__init__.py:43-44 | every `i` the loop visits gives a row index inside the preallocated table |
| STransform.LoopEnd | TFchirp/__init__.py:43 | when the loop stops, it has visited exactly the rows after row 0 |
| STransform.BufferRow | TFchirp/__init__.py:44 | the weighted inverse transform of a full slice of the doubled spectrum is the table's row for that offset, and the offset is at most `N` |
| STransform.WriteRow | TFchirp/__init__.py:44 | one pass of the loop body writes row `m`, the table's row `m`, exactly when its slice is full, and touches no other row; a short slice means the last row is out of range too |
| STransform.FillRows | TFchirp/__init__.py:43-44 | the loop succeeds exactly when the last row's offset is at most `N`; it leaves row 0 alone, fills rows `1 ..` with the table's rows, and writes each of them once, in increasing order |
| STransform.STransform | TFchirp/__init__.py:22-46 | the in-place computation returns exactly `Table`, error cases included, and writes every row exactly once, row 0 first |
| STransform.ExampleShape | TFchirp/__init__.py:35-38 | eight samples at rate 8 over `[0, 4]` in steps of 1 give a table of 5 rows of 8 samples |
| STransform.ExampleInvalidRange | TFchirp/__init__.py:43-44 | the same signal over `[0, 10000]` is rejected as an invalid range whose last row would start 10000 bins into a spectrum of 8 |
| Inverse.DivisorWindow | TFchirp/__init__.py:81 | the divisor window has the row's length and every value is at least the default elevation, so it is never zero |
| Inverse.QuickInverse | TFchirp/__init__.py:78-83 | a series is returned exactly when row 0 exists and is non-empty, and it is as long as row 0 |
| Inverse.QuickInverseReadsRowZero | TFchirp/__init__.py:80 | tables that agree on row 0 have the same quick inverse |
| Inverse.QuickInverseRecoversSignal | TFchirp/__init__.py:80-83 | with an exact FFT pair, the quick inverse at frequency 0 of any table the transform produces is the original signal |

## Left out

- FFT, IFFT and the Gaussian: library floating-point code. They are fields of `Kernels`,
  assumed only to preserve length. The standard deviation `freq / (2 pi factor)` is inside
  `gaussian`.
- The nan of the zero-width Gaussian, which the model's real-valued `gaussian` cannot return:
  - At frequency 0 and an odd length `N >= 3`, the centre value of
    `scipy.signal.gaussian(N, std=0)` is `-0.0 / 0.0`, which is nan.
  - Line 63 does not clamp nan, and the split on line 64 moves it to index 0.
  - So in the program, row 0 of every table and `inverse_S(table, 0)` are all nan.
  - `Window.WindowAboveFloor`, `Inverse.DivisorWindow` and `Inverse.QuickInverseRecoversSignal`
    therefore hold for a real-valued Gaussian, not for the program at frequency 0 with odd
    lengths.
- complex64 storage and rounding: samples are exact complex numbers over the reals.
- Fractional frequencies and sample rates: the inputs are natural numbers. The float division
  and `int()` truncation of line 36 become whole-number floor division.
- Negative sample rates and steps: the types exclude them.
- numpy broadcasting of a slice of length exactly 1 against the window: the model reports every
  slice shorter than `N` as `InvalidRange`. numpy raises a shape error for most of them.
- STransform.STransform: reports the offset of the table's last row in `InvalidRange`, not the
  first offset at which numpy would raise.
- The `np.copy` calls (lines 37, 78): Dafny sequences are immutable, so the inputs can never be
  changed.
- Time-frequency localization and reconstruction quality: these are numerical claims, not
  contracts of the code.
- Behaviour of `sTransform` a caller might not expect:
  - `sTransform` makes no explicit range check. A range is invalid exactly when the last row
    starts more than `N` bins in. The last row never starts past `Nhigh`, but an `Nhigh`
    above `N` is accepted when the steps skip over the bins past `N`.
  - For `Nhigh < Nlow` the row count rounds toward zero, so a span shorter than `frate` below
    `Nlow` still gives one row.
- Division by an exact zero in `inverse_S` cannot arise: it always uses the default elevated
  window, which is never zero (`Inverse.DivisorWindow`).
