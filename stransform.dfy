/** The STransformEngine of TFchirp (`sTransform`): the frequency range is mapped
    to FFT bins, a table of rows is preallocated, the spectrum is doubled, row 0
    is filled from the unshifted spectrum and the other rows, one per frequency
    step, from length-N slices of the doubled spectrum, each weighted by its
    window and inverse transformed. */
module STransform {
  import opened Signal
  import opened Window

  /** The ways `sTransform` fails instead of returning a table. */
  datatype TransformError =
    | ZeroSampleRate                          // the bin mapping divides by the sample rate
    | ZeroStep                                // the row count divides by the frequency step
    | EmptySignal                             // the FFT of an empty series is undefined
    | NoRows(rows: int)                       // the row count leaves no row 0
    | InvalidRange(lastOffset: nat, length: nat)  // a row's slice runs past the doubled spectrum

  /** `int(freq * length / sample_rate)` for a non-negative whole frequency: the
      FFT bin at or below `freq`. */
  function Bin(freq: nat, length: nat, sampleRate: nat): (bin: nat)
    requires sampleRate > 0
    ensures bin == freq * length / sampleRate
  {
    FloorDivIsDiv(freq * length, sampleRate);
    FloorDiv(freq * length, sampleRate)
  }

  /** `count * step`, written as repeated addition: the offset reached after
      `count` steps of `step`. `StepsIsProduct` shows it is the product. */
  function Steps(count: nat, step: nat): nat {
    if count == 0 then 0 else Steps(count - 1, step) + step
  }

  lemma {:induction false} StepsIsProduct(count: nat, step: nat)
    ensures Steps(count, step) == count * step
  {
    if count > 0 {
      StepsIsProduct(count - 1, step);
    }
  }

  lemma {:induction false} StepsMonotonic(a: nat, b: nat, step: nat)
    requires a <= b
    ensures Steps(a, step) <= Steps(b, step)
  {
    if a < b {
      StepsMonotonic(a, b - 1, step);
    }
  }

  lemma StepsCancel(a: nat, b: nat, step: nat)
    requires Steps(a, step) < Steps(b, step)
    ensures a < b
  {
    if b <= a {
      StepsMonotonic(b, a, step);
    }
  }

  /** The quotient of non-negative whole numbers rounded down, by repeated
      subtraction: the number of whole steps of `b` that fit in `a`. */
  function FloorDiv(a: nat, b: nat): (q: nat)
    requires b > 0
    ensures Steps(q, b) <= a < Steps(q, b) + b
  {
    if a < b then 0 else FloorDiv(a - b, b) + 1
  }

  /** Repeated subtraction computes Dafny's (and Python's) `//` on naturals. */
  lemma FloorDivIsDiv(a: nat, b: nat)
    requires b > 0
    ensures FloorDiv(a, b) == a / b
  {
    var q := FloorDiv(a, b);
    StepsIsProduct(q, b);
    ModOfSum(q, b, a - q * b);
    var d := a / b;
    assert a == d * b + a % b;
    if d < q {
      MulGap(d, q, b);
    } else if d > q {
      MulGap(q, d, b);
    }
  }

  /** Python's `int(a / b)` for a positive `b`: the quotient truncated toward
      zero, so `b` times it is the multiple of `b` nearest to `a` on the side of 0. */
  function TruncDiv(a: int, b: nat): (q: int)
    requires b > 0
    ensures a >= 0 ==> q >= 0 && Steps(q, b) <= a < Steps(q, b) + b
    ensures a < 0 ==> q <= 0 && Steps(-q, b) <= -a < Steps(-q, b) + b
  {
    if a >= 0 then FloorDiv(a, b) else -(FloorDiv(-a, b) as int)
  }

  /** `int((Nhigh - Nlow) / frate) + 1`, the number of rows `np.zeros` is asked for:
      the quotient is rounded down for a non-negative span and up for a negative one. */
  function RowCount(nLow: nat, nHigh: nat, frate: nat): (count: int)
    requires frate > 0
    ensures nLow <= nHigh ==> count == (nHigh - nLow) / frate + 1
    ensures nHigh < nLow ==> count == 1 - (nLow - nHigh) / frate
  {
    if nLow <= nHigh then
      FloorDivIsDiv(nHigh - nLow, frate);
      TruncDiv(nHigh - nLow, frate) + 1
    else
      FloorDivIsDiv(nLow - nHigh, frate);
      TruncDiv(nHigh - nLow, frate) + 1
  }

  /** The spectrum offset (and window frequency) of row `r >= 1`: `Nlow + i` for
      the loop's `i = r * frate`. */
  function RowOffset(nLow: nat, r: nat, frate: nat): (offset: nat)
    ensures offset == nLow + r * frate
  {
    StepsIsProduct(r, frate);
    nLow + Steps(r, frate)
  }

  /** The row for spectrum offset `offset`: the spectrum shifted circularly by the
      offset, weighted by the elevated window for frequency `offset`, inverse
      transformed. Row 0 is the one at offset 0. */
  function FrequencyRow(k: Kernels, spectrum: seq<Complex>, offset: nat): (row: seq<Complex>)
    requires LengthPreserving(k)
    ensures |row| == |spectrum|
  {
    k.ifft(Scale(Rotate(spectrum, offset), WindowNormal(k, |spectrum|, offset, 1.0, true, DefaultElevation)))
  }

  /** The first `count` rows of a table over `spectrum`: row 0 at offset 0, row
      `r >= 1` at offset `Nlow + r * frate`. */
  function Rows(k: Kernels, spectrum: seq<Complex>, nLow: nat, frate: nat, count: nat): (t: seq<seq<Complex>>)
    requires LengthPreserving(k)
    ensures |t| == count && forall j :: 0 <= j < count ==> |t[j]| == |spectrum|
  {
    var t := seq(count, r requires 0 <= r < count => FrequencyRow(k, spectrum, if r == 0 then 0 else RowOffset(nLow, r, frate)));
    assert forall j :: 0 <= j < count ==> |t[j]| == |spectrum| by {
      forall j | 0 <= j < count
        ensures |t[j]| == |spectrum|
      {
        var offset: nat := if j == 0 then 0 else RowOffset(nLow, j, frate);
        assert t[j] == FrequencyRow(k, spectrum, offset);
      }
    }
    t
  }

  /** Row `r >= 1` of the table is the row for offset `Nlow + r * frate`. */
  lemma RowOfTable(k: Kernels, spectrum: seq<Complex>, nLow: nat, frate: nat, count: nat, r: nat)
    requires LengthPreserving(k) && 1 <= r < count
    ensures Rows(k, spectrum, nLow, frate, count)[r] == FrequencyRow(k, spectrum, RowOffset(nLow, r, frate))
  {
  }

  /** The outcome of `sTransform(ts, sampleRate, [lo, hi], frate)`, stated with
      circular indexing instead of the doubled buffer. */
  function Table(k: Kernels, ts: seq<Complex>, sampleRate: nat, lo: nat := 0, hi: nat := 800, frate: nat := 1)
    : (r: Result<seq<seq<Complex>>, TransformError>)
    requires LengthPreserving(k)
    ensures r.Success? ==> sampleRate > 0 && frate > 0 && |ts| > 0
    ensures r.Success? ==>
      |r.value| == RowCount(Bin(lo, |ts|, sampleRate), Bin(hi, |ts|, sampleRate), frate)
    ensures r.Success? ==> forall j :: 0 <= j < |r.value| ==> |r.value[j]| == |ts|
  {
    if sampleRate == 0 then Failure(ZeroSampleRate)
    else if frate == 0 then Failure(ZeroStep)
    else
      var n := |ts|;
      var nLow, nHigh := Bin(lo, n, sampleRate), Bin(hi, n, sampleRate);
      var rows := RowCount(nLow, nHigh, frate);
      if n == 0 then Failure(EmptySignal)
      else if rows < 1 then Failure(NoRows(rows))
      else if rows > 1 && RowOffset(nLow, rows - 1, frate) > n then
        Failure(InvalidRange(RowOffset(nLow, rows - 1, frate), n))
      else
        Success(Rows(k, k.fft(ts), nLow, frate, rows))
  }

  /** A range is valid exactly when every row's slice of the doubled spectrum is
      full length, that is, starts at most one spectrum length in; only the last
      row needs checking because the offsets grow with the row index. */
  lemma RangeValidity(k: Kernels, ts: seq<Complex>, sampleRate: nat, lo: nat, hi: nat, frate: nat)
    requires LengthPreserving(k)
    requires sampleRate > 0 && frate > 0 && |ts| > 0
    requires RowCount(Bin(lo, |ts|, sampleRate), Bin(hi, |ts|, sampleRate), frate) >= 1
    ensures Table(k, ts, sampleRate, lo, hi, frate).Success?
        <==> forall r :: 1 <= r < RowCount(Bin(lo, |ts|, sampleRate), Bin(hi, |ts|, sampleRate), frate) ==>
               |PySlice(k.fft(ts) + k.fft(ts), RowOffset(Bin(lo, |ts|, sampleRate), r, frate),
                        RowOffset(Bin(lo, |ts|, sampleRate), r, frate) + |ts|)| == |ts|
  {
    var n := |ts|;
    var spectrum := k.fft(ts);
    var nLow := Bin(lo, n, sampleRate);
    var rows := RowCount(nLow, Bin(hi, n, sampleRate), frate);
    forall r | 1 <= r < rows
      ensures |PySlice(spectrum + spectrum, RowOffset(nLow, r, frate), RowOffset(nLow, r, frate) + n)| == n
          <==> RowOffset(nLow, r, frate) <= n
    {
      DoubledSlice(spectrum, RowOffset(nLow, r, frate));
    }
    assert Table(k, ts, sampleRate, lo, hi, frate).Success? <==> !(rows > 1 && RowOffset(nLow, rows - 1, frate) > n);
    if rows > 1 {
      forall r | 1 <= r < rows
        ensures RowOffset(nLow, r, frate) <= RowOffset(nLow, rows - 1, frate)
      {
        StepsMonotonic(r, rows - 1, frate);
      }
    }
  }

  /** Each row of a table is what the source computes from its slice of the
      doubled spectrum, and that slice is full length. */
  lemma RowsFromDoubledSpectrum(k: Kernels, ts: seq<Complex>, sampleRate: nat, lo: nat, hi: nat, frate: nat, r: nat)
    requires LengthPreserving(k)
    requires Table(k, ts, sampleRate, lo, hi, frate).Success?
    requires 1 <= r < |Table(k, ts, sampleRate, lo, hi, frate).value|
    ensures var n, spectrum, offset := |ts|, k.fft(ts), RowOffset(Bin(lo, |ts|, sampleRate), r, frate);
      && |PySlice(spectrum + spectrum, offset, offset + n)| == n
      && Table(k, ts, sampleRate, lo, hi, frate).value[r]
         == k.ifft(Scale(PySlice(spectrum + spectrum, offset, offset + n),
                         WindowNormal(k, n, offset, 1.0, true, DefaultElevation)))
  {
    var n, spectrum := |ts|, k.fft(ts);
    var nLow := Bin(lo, n, sampleRate);
    var rows := RowCount(nLow, Bin(hi, n, sampleRate), frate);
    var offset := RowOffset(nLow, r, frate);
    assert Table(k, ts, sampleRate, lo, hi, frate).value[r] == FrequencyRow(k, spectrum, offset);
    StepsMonotonic(r, rows - 1, frate);
    DoubledSlice(spectrum, offset);
    assert PySlice(spectrum + spectrum, offset, offset + n) == Rotate(spectrum, offset);
  }

  /** Row 0 depends on the signal alone: the sample rate, the frequency range and
      the frequency step do not change it. */
  lemma RowZeroIndependent(k: Kernels, ts: seq<Complex>,
                           sampleRate: nat, lo: nat, hi: nat, frate: nat,
                           sampleRate': nat, lo': nat, hi': nat, frate': nat)
    requires LengthPreserving(k)
    requires Table(k, ts, sampleRate, lo, hi, frate).Success?
    requires Table(k, ts, sampleRate', lo', hi', frate').Success?
    ensures Table(k, ts, sampleRate, lo, hi, frate).value[0] == Table(k, ts, sampleRate', lo', hi', frate').value[0]
    ensures Table(k, ts, sampleRate, lo, hi, frate).value[0] == FrequencyRow(k, k.fft(ts), 0)
  {
  }

  lemma DivideMultiple(m: nat, f: nat)
    requires f > 0
    ensures FloorDiv(Steps(m, f), f) == m
  {
    var q := FloorDiv(Steps(m, f), f);
    StepsCancel(m, q + 1, f);
    if q > m {
      StepsMonotonic(m + 1, q, f);
    }
  }

  /** A slice of the doubled spectrum is full length exactly when it starts at
      most one spectrum length in. */
  lemma FullSlice(spectrum: seq<Complex>, offset: nat)
    requires |spectrum| > 0
    ensures |PySlice(spectrum + spectrum, offset, offset + |spectrum|)| == |spectrum| <==> offset <= |spectrum|
  {
    DoubledSlice(spectrum, offset);
  }

  /** One more step of the row loop stays inside the table and writes row `m`. */
  lemma StepInTable(m: nat, frate: nat, span: int, rows: int)
    requires frate > 0 && rows == TruncDiv(span, frate) + 1
    requires Steps(m, frate) <= span
    ensures m < rows && FloorDiv(Steps(m, frate), frate) == m
  {
    var q: nat := TruncDiv(span, frate);
    assert Steps(m, frate) < Steps(q + 1, frate) by {
      assert Steps(q, frate) <= span < Steps(q, frate) + frate;
    }
    StepsCancel(m, q + 1, frate);
    DivideMultiple(m, frate);
  }

  /** The row loop stops exactly after the last row. */
  lemma LoopEnd(m: nat, frate: nat, span: int, rows: int)
    requires frate > 0 && rows == TruncDiv(span, frate) + 1
    requires 1 <= m <= rows && Steps(m, frate) > span
    ensures m == rows
  {
    if span >= 0 {
      StepsCancel(rows - 1, m, frate);
    }
  }

  /** Line 44's row: the slice of the doubled spectrum at `offset`, weighted by
      the window for frequency `offset`, inverse transformed. When the slice is
      full it is the specification's row for that offset. */
  function BufferRow(k: Kernels, ghost spectrum: seq<Complex>, vec: seq<Complex>, n: nat, offset: nat): (row: seq<Complex>)
    requires LengthPreserving(k) && n == |spectrum| > 0 && vec == spectrum + spectrum
    requires |PySlice(vec, offset, offset + n)| == n
    ensures offset <= n && row == FrequencyRow(k, spectrum, offset)
  {
    var slice := PySlice(vec, offset, offset + n);
    DoubledSlice(spectrum, offset);
    assert slice == Rotate(spectrum, offset);
    k.ifft(Scale(slice, WindowNormal(k, n, offset, 1.0, true, DefaultElevation)))
  }

  /** The arithmetic of one pass of the loop body: the row index is `m`, inside
      the table, and the slice is full exactly when row `m`'s offset is at most
      one spectrum length in; if it is not, neither is the last row's. */
  lemma StepFacts(spectrum: seq<Complex>, vec: seq<Complex>, nLow: nat, frate: nat, span: int, rows: int, m: nat, i: nat)
    requires |spectrum| > 0 && vec == spectrum + spectrum && frate > 0
    requires rows == TruncDiv(span, frate) + 1
    requires 1 <= m && i == Steps(m, frate) && i <= span
    ensures m < rows && FloorDiv(i, frate) == m
    ensures |PySlice(vec, nLow + i, nLow + i + |spectrum|)| == |spectrum| <==> RowOffset(nLow, m, frate) <= |spectrum|
    ensures RowOffset(nLow, m, frate) > |spectrum| ==> RowOffset(nLow, rows - 1, frate) > |spectrum|
  {
    StepInTable(m, frate, span, rows);
    FullSlice(spectrum, nLow + i);
    StepsMonotonic(m, rows - 1, frate);
  }

  /** One pass of the loop body at `i`, the `m`-th multiple of `frate`: when the
      slice of `vec` at offset `Nlow + i` is full, row `i / frate`, which is `m`,
      becomes line 44's row for that offset, which is row `m` of the table;
      otherwise nothing is written and the range is invalid. */
  method WriteRow(k: Kernels, spectrum: seq<Complex>, vec: seq<Complex>, nLow: nat, nHigh: nat, frate: nat,
                  amp: array<seq<Complex>>, i: nat, ghost m: nat)
    returns (full: bool, index: nat)
    requires LengthPreserving(k) && |spectrum| > 0 && vec == spectrum + spectrum && frate > 0
    requires amp.Length == RowCount(nLow, nHigh, frate)
    requires 1 <= m && i == Steps(m, frate) && i <= nHigh - nLow
    modifies amp
    ensures index == m < amp.Length
    ensures full <==> RowOffset(nLow, m, frate) <= |spectrum|
    ensures full ==> amp[m] == Rows(k, spectrum, nLow, frate, amp.Length)[m]
    ensures forall j :: 0 <= j < amp.Length && (j != m || !full) ==> amp[j] == old(amp[j])
    ensures !full ==> RowOffset(nLow, amp.Length - 1, frate) > |spectrum|
  {
    var n := |spectrum|;
    var offset := nLow + i;
    StepFacts(spectrum, vec, nLow, frate, nHigh - nLow, amp.Length, m, i);
    index := FloorDiv(i, frate);
    if |PySlice(vec, offset, offset + n)| != n {
      return false, index;
    }
    var row := BufferRow(k, spectrum, vec, n, offset);
    assert offset == RowOffset(nLow, m, frate);
    RowOfTable(k, spectrum, nLow, frate, amp.Length, m);
    amp[index] := row;
    full := true;
  }

  /** The stepped loop of `sTransform`: for `i = frate, 2 frate, ...` up to
      `Nhigh - Nlow` it writes row `i / frate` from the slice of the doubled
      spectrum `vec` at offset `Nlow + i`. It stops with `ok` false at the first
      slice that is not full length (numpy's shape error). `written` lists the
      rows written, in order. */
  method FillRows(k: Kernels, spectrum: seq<Complex>, vec: seq<Complex>, nLow: nat, nHigh: nat, frate: nat, amp: array<seq<Complex>>)
    returns (ok: bool, ghost written: seq<nat>)
    requires LengthPreserving(k) && |spectrum| > 0 && vec == spectrum + spectrum && frate > 0
    requires amp.Length == RowCount(nLow, nHigh, frate) >= 1
    modifies amp
    ensures ok <==> !(amp.Length > 1 && RowOffset(nLow, amp.Length - 1, frate) > |spectrum|)
    ensures amp[0] == old(amp[0])
    ensures ok ==> amp[1..] == Rows(k, spectrum, nLow, frate, amp.Length)[1..]
    ensures ok ==> |written| == amp.Length - 1 && forall j :: 0 <= j < |written| ==> written[j] == j + 1
  {
    var n, rows := |spectrum|, amp.Length;
    ghost var want := Rows(k, spectrum, nLow, frate, rows);
    written := [];
    ghost var m: nat := 1;
    var i: nat := frate;
    while i <= nHigh - nLow
      invariant i == Steps(m, frate) && 1 <= m <= rows
      invariant m > 1 ==> RowOffset(nLow, m - 1, frate) <= n
      invariant amp[0] == old(amp[0])
      invariant amp[1..m] == want[1..m]
      invariant |written| == m - 1 && forall j :: 0 <= j < |written| ==> written[j] == j + 1
    {
      ghost var before := amp[..];
      var full, index := WriteRow(k, spectrum, vec, nLow, nHigh, frate, amp, i, m);
      if !full {
        return false, written;
      }
      ExtendPrefix(before, amp[..], want, m);
      written := written + [index];
      i := i + frate;
      m := m + 1;
    }
    LoopEnd(m, frate, nHigh - nLow, rows);
    assert amp[1..] == want[1..m];
    ok := true;
  }

  /** Writing element `m` of `want` into a sequence that agrees with `want` on
      `[1, m)` makes it agree on `[1, m]`, and leaves element 0 alone. */
  lemma ExtendPrefix<T>(before: seq<T>, after: seq<T>, want: seq<T>, m: nat)
    requires 1 <= m < |before| == |after| == |want|
    requires before[1..m] == want[1..m]
    requires after[m] == want[m]
    requires forall j :: 0 <= j < |before| && j != m ==> after[j] == before[j]
    ensures after[1..m + 1] == want[1..m + 1]
    ensures after[0] == before[0]
  {
    assert after[1..m + 1] == before[1..m] + [want[m]];
    assert want[1..m + 1] == want[1..m] + [want[m]];
  }

  lemma SameHeadAndTail<T>(a: seq<T>, b: seq<T>)
    requires |a| == |b| > 0 && a[0] == b[0] && a[1..] == b[1..]
    ensures a == b
  {
    assert a == [a[0]] + a[1..];
    assert b == [b[0]] + b[1..];
  }

  /** A table whose row 0 is the unshifted row and whose other rows are those of
      a valid range is the specification's table. */
  lemma TableFromRows(k: Kernels, ts: seq<Complex>, sampleRate: nat, lo: nat, hi: nat, frate: nat, t: seq<seq<Complex>>)
    requires LengthPreserving(k) && sampleRate > 0 && frate > 0 && |ts| > 0
    requires var nLow := Bin(lo, |ts|, sampleRate);
      var rows := RowCount(nLow, Bin(hi, |ts|, sampleRate), frate);
      && |t| == rows >= 1
      && !(rows > 1 && RowOffset(nLow, rows - 1, frate) > |ts|)
      && t[0] == FrequencyRow(k, k.fft(ts), 0)
      && t[1..] == Rows(k, k.fft(ts), nLow, frate, rows)[1..]
    ensures Table(k, ts, sampleRate, lo, hi, frate) == Success(t)
  {
    var nLow := Bin(lo, |ts|, sampleRate);
    var rows := RowCount(nLow, Bin(hi, |ts|, sampleRate), frate);
    SameHeadAndTail(t, Rows(k, k.fft(ts), nLow, frate, rows));
  }

  /** `sTransform(ts, sampleRate, [lo, hi], frate)`: the table is preallocated
      with zero rows and filled in place, row 0 first and then the others in
      the stepped loop; `written` lists the rows in the order they are written. */
  method STransform(k: Kernels, ts: seq<Complex>, sampleRate: nat, lo: nat := 0, hi: nat := 800, frate: nat := 1)
    returns (r: Result<seq<seq<Complex>>, TransformError>, ghost written: seq<nat>)
    requires LengthPreserving(k)
    ensures r == Table(k, ts, sampleRate, lo, hi, frate)
    ensures r.Success? ==> |written| == |r.value| && forall j :: 0 <= j < |written| ==> written[j] == j
  {
    written := [];
    var n := |ts|;
    if sampleRate == 0 {
      return Failure(ZeroSampleRate), written;
    }
    var nLow, nHigh := Bin(lo, n, sampleRate), Bin(hi, n, sampleRate);
    if frate == 0 {
      return Failure(ZeroStep), written;
    }
    var rows := RowCount(nLow, nHigh, frate);
    if n == 0 {
      return Failure(EmptySignal), written;
    }
    if rows < 1 {
      return Failure(NoRows(rows)), written;
    }
    var spectrum := k.fft(ts);
    var vec := spectrum + spectrum;
    var amp := new seq<Complex>[rows](_ => Zeros(n));
    amp[0] := BufferRow(k, spectrum, vec, n, 0);
    ghost var head := amp[0];
    var ok, rest := FillRows(k, spectrum, vec, nLow, nHigh, frate, amp);
    if !ok {
      return Failure(InvalidRange(RowOffset(nLow, rows - 1, frate), n)), written;
    }
    written := [0] + rest;
    var t := amp[..];
    assert t[0] == head == FrequencyRow(k, spectrum, 0);
    assert t[1..] == amp[1..] == Rows(k, spectrum, nLow, frate, rows)[1..];
    TableFromRows(k, ts, sampleRate, lo, hi, frate, t);
    r := Success(t);
  }

  /** Eight samples at sample rate 8 over the range [0, 4] in steps of 1: bins 0
      and 4, five rows of eight samples each. */
  lemma ExampleShape(k: Kernels, ts: seq<Complex>)
    requires LengthPreserving(k) && |ts| == 8
    ensures Table(k, ts, 8, 0, 4, 1).Success?
    ensures |Table(k, ts, 8, 0, 4, 1).value| == 5
    ensures forall r :: 0 <= r < 5 ==> |Table(k, ts, 8, 0, 4, 1).value[r]| == 8
  {
    assert Bin(0, 8, 8) == 0;
    assert Bin(4, 8, 8) == 4 by {
      StepsIsProduct(Bin(4, 8, 8), 8);
    }
    assert RowCount(0, 4, 1) == 5 by {
      StepsIsProduct(TruncDiv(4, 1), 1);
    }
    assert RowOffset(0, 4, 1) == 4 by {
      StepsIsProduct(4, 1);
    }
  }

  /** The same signal over the range [0, 10000]: the last row would start 10000
      bins into a spectrum of 8, so the range is rejected. */
  lemma ExampleInvalidRange(k: Kernels, ts: seq<Complex>)
    requires LengthPreserving(k) && |ts| == 8
    ensures Table(k, ts, 8, 0, 10000, 1) == Failure(InvalidRange(10000, 8))
  {
    var nHigh := Bin(10000, 8, 8);
    assert nHigh == 10000 by {
      StepsIsProduct(nHigh, 8);
    }
    assert TruncDiv(10000, 1) == 10000 by {
      StepsIsProduct(TruncDiv(10000, 1), 1);
    }
    assert RowOffset(0, 10000, 1) == 10000 by {
      StepsIsProduct(10000, 1);
    }
  }
}
