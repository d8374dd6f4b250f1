/** Values shared by the window generator, the S-Transform engine and the quick
    inverse: complex spectrum samples (exact, over the reals), the numeric kernels
    that TFchirp borrows from numpy and scipy, numpy's slice semantics and the
    circular rotation that the doubled-buffer slices amount to. */
module Signal {

  datatype Result<+T, +E> = Success(value: T) | Failure(error: E)

  /** A complex sample. The source stores complex64; here the arithmetic is exact. */
  datatype Complex = Complex(re: real, im: real)

  const Zero: Complex := Complex(0.0, 0.0)

  /** A row of `n` zeros, as `np.zeros` preallocates it. */
  function Zeros(n: nat): (r: seq<Complex>)
    ensures |r| == n
  {
    seq(n, _ => Zero)
  }

  /** A complex sample times a real weight. */
  function Weighted(c: Complex, w: real): Complex {
    Complex(c.re * w, c.im * w)
  }

  /** A complex sample divided by a non-zero real weight. */
  function Divided(c: Complex, w: real): Complex
    requires w != 0.0
  {
    Complex(c.re / w, c.im / w)
  }

  lemma WeightingUndone(c: Complex, w: real)
    requires w != 0.0
    ensures Divided(Weighted(c, w), w) == c
    ensures Weighted(Divided(c, w), w) == c
  {
    assert c.re * w / w == c.re;
    assert c.im * w / w == c.im;
    assert c.re / w * w == c.re;
    assert c.im / w * w == c.im;
  }

  /** numpy's `x * w` for a complex array `x` and a real array `w` of the same shape. */
  function Scale(x: seq<Complex>, w: seq<real>): (r: seq<Complex>)
    requires |x| == |w|
    ensures |r| == |x|
  {
    seq(|x|, j requires 0 <= j < |x| => Weighted(x[j], w[j]))
  }

  ghost predicate NoZero(w: seq<real>) {
    forall j :: 0 <= j < |w| ==> w[j] != 0.0
  }

  /** numpy's `x / w` for a complex array `x` and a real array `w` without zeros. */
  function Quotient(x: seq<Complex>, w: seq<real>): (r: seq<Complex>)
    requires |x| == |w| && NoZero(w)
    ensures |r| == |x|
  {
    seq(|x|, j requires 0 <= j < |x| => Divided(x[j], w[j]))
  }

  /** Dividing by a window without zeros undoes weighting by it, and conversely. */
  lemma QuotientUndoesScale(x: seq<Complex>, w: seq<real>)
    requires |x| == |w| && NoZero(w)
    ensures Quotient(Scale(x, w), w) == x
    ensures Scale(Quotient(x, w), w) == x
  {
    forall j | 0 <= j < |x|
      ensures Quotient(Scale(x, w), w)[j] == x[j]
      ensures Scale(Quotient(x, w), w)[j] == x[j]
    {
      WeightingUndone(x[j], w[j]);
    }
  }

  /** The numeric kernels the source takes from its libraries, left uninterpreted:
      `fft` and `ifft` stand for `np.fft.fft` and `np.fft.ifft`, and
      `gaussian(length, freq, factor)` for `scipy.signal.gaussian(length,
      std = freq / (2 pi factor))`. */
  datatype Kernels = Kernels(
    fft: seq<Complex> -> seq<Complex>,
    ifft: seq<Complex> -> seq<Complex>,
    gaussian: (nat, int, real) -> seq<real>)

  /** The one thing assumed about the kernels: they return as many values as asked for. */
  ghost predicate LengthPreserving(k: Kernels) {
    && (forall s :: |k.fft(s)| == |s|)
    && (forall s :: |k.ifft(s)| == |s|)
    && (forall n, freq, factor :: |k.gaussian(n, freq, factor)| == n)
  }

  function Min(a: int, b: int): int {
    if a <= b then a else b
  }

  /** Python's `s[lo:hi]` for non-negative bounds: both bounds are cut down to
      `len(s)`, and a range whose end is not past its start is empty. */
  function PySlice<T>(s: seq<T>, lo: nat, hi: nat): (r: seq<T>)
    ensures |r| == if hi <= lo || |s| <= lo then 0 else Min(hi, |s|) - lo
    ensures forall j :: 0 <= j < |r| ==> r[j] == s[lo + j]
  {
    var a, b := Min(lo, |s|), Min(hi, |s|);
    if a <= b then s[a..b] else []
  }

  /** `a mod n` by repeated subtraction. */
  function Wrap(a: nat, n: nat): (r: nat)
    requires n > 0
    ensures r < n
  {
    if a < n then a else Wrap(a - n, n)
  }

  /** The remainder of `q * n + r` by `n` is `r` when `r < n`. */
  lemma ModOfSum(q: nat, n: nat, r: nat)
    requires r < n
    ensures (q * n + r) % n == r
  {
    var a := q * n + r;
    var quotient, remainder := a / n, a % n;
    assert a == quotient * n + remainder;
    if quotient < q {
      MulGap(quotient, q, n);
    } else if quotient > q {
      MulGap(q, quotient, n);
    }
  }

  /** Multiples of `n` at different factors lie at least `n` apart. */
  lemma {:induction false} MulGap(x: nat, y: nat, n: nat)
    requires x < y
    ensures x * n + n <= y * n
  {
    if x + 1 < y {
      MulGap(x, y - 1, n);
      assert (y - 1) * n + n == y * n;
    } else {
      assert (x + 1) * n == x * n + n;
    }
  }

  /** Repeated subtraction computes Dafny's (and Python's) `%` on naturals. */
  lemma {:induction false} WrapIsModulo(a: nat, n: nat)
    requires n > 0
    ensures Wrap(a, n) == a % n
  {
    if a >= n {
      WrapIsModulo(a - n, n);
      var q, r := (a - n) / n, (a - n) % n;
      assert a == (q + 1) * n + r;
      ModOfSum(q + 1, n, r);
    }
  }

  /** An index below twice the length wraps around at most once. */
  lemma WrapOnce(a: nat, n: nat)
    requires n > 0 && a < n + n
    ensures Wrap(a, n) == if a < n then a else a - n
  {
    if a >= n {
      assert Wrap(a - n, n) == a - n;
    }
  }

  /** The circular shift of `s` by `k`: element `j` is `s[(k + j) mod |s|]`. */
  function Rotate<T>(s: seq<T>, k: nat): (r: seq<T>)
    ensures |r| == |s|
  {
    seq(|s|, j requires 0 <= j < |s| => s[Wrap(k + j, |s|)])
  }

  /** A length-`n` slice of the doubled buffer `s + s` is full exactly when it
      starts at most `n` in; then it is the circular shift of `s` by its start,
      and past that it is shorter than `n`. */
  lemma DoubledSlice<T>(s: seq<T>, k: nat)
    ensures |PySlice(s + s, k, k + |s|)| == |s| <==> (k <= |s| || |s| == 0)
    ensures k > |s| ==> |PySlice(s + s, k, k + |s|)| == (if k < 2 * |s| then 2 * |s| - k else 0)
    ensures k <= |s| ==> PySlice(s + s, k, k + |s|) == Rotate(s, k)
  {
    var n := |s|;
    if k <= n {
      var r := PySlice(s + s, k, k + n);
      forall j | 0 <= j < n
        ensures r[j] == Rotate(s, k)[j]
      {
        WrapOnce(k + j, n);
      }
    }
  }

  /** A circular shift is a permutation. */
  lemma RotatePermutes<T>(s: seq<T>, k: nat)
    requires k <= |s|
    ensures multiset(Rotate(s, k)) == multiset(s)
  {
    var n := |s|;
    assert Rotate(s, k) == s[k..] + s[..k] by {
      forall j | 0 <= j < n
        ensures Rotate(s, k)[j] == (s[k..] + s[..k])[j]
      {
        WrapOnce(k + j, n);
      }
    }
    assert s == s[..k] + s[k..];
  }
}
