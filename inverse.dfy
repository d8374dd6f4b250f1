/** The InverseApproximator of TFchirp (`inverse_S`): a time series recovered from
    row 0 of a spectrogram table alone, by dividing that row's spectrum by the
    default (elevated) window and inverse transforming. */
module Inverse {
  import opened Signal
  import opened Window
  import opened STransform

  /** The ways `inverse_S` fails instead of returning a series. */
  datatype InverseError =
    | EmptyTable   // the table has no row 0
    | EmptyRow     // the FFT of an empty row is undefined

  /** The window `inverse_S` divides by: `_window_normal(length, lowFreq)` with
      its defaults (factor 1, elevated to `10e-8`). None of its values is zero. */
  function DivisorWindow(k: Kernels, length: nat, lowFreq: int): (win: seq<real>)
    requires LengthPreserving(k)
    ensures |win| == length
    ensures forall j :: 0 <= j < length ==> win[j] >= DefaultElevation > 0.0
  {
    WindowAboveFloor(k, length, lowFreq, 1.0, DefaultElevation);
    WindowNormal(k, length, lowFreq, 1.0, true, DefaultElevation)
  }

  /** `inverse_S(table, lowFreq)`: a table with a non-empty row 0 gives a series as
      long as that row. */
  function QuickInverse(k: Kernels, table: seq<seq<Complex>>, lowFreq: int := 0): (r: Result<seq<Complex>, InverseError>)
    requires LengthPreserving(k)
    ensures r.Success? <==> |table| > 0 && |table[0]| > 0
    ensures r.Success? ==> |r.value| == |table[0]|
    ensures |table| == 0 ==> r == Failure(EmptyTable)
  {
    if |table| == 0 then Failure(EmptyTable)
    else
      var row := table[0];
      if |row| == 0 then Failure(EmptyRow)
      else Success(k.ifft(Quotient(k.fft(row), DivisorWindow(k, |row|, lowFreq))))
  }

  /** Only row 0 is read: tables that agree on row 0 have the same inverse. */
  lemma QuickInverseReadsRowZero(k: Kernels, table: seq<seq<Complex>>, table': seq<seq<Complex>>, lowFreq: int)
    requires LengthPreserving(k)
    requires |table| > 0 && |table'| > 0 && table[0] == table'[0]
    ensures QuickInverse(k, table, lowFreq) == QuickInverse(k, table', lowFreq)
  {
  }

  /** With an exact FFT pair, the quick inverse of a table's row 0 at frequency 0
      is the signal the table was computed from: row 0 carries the whole
      spectrum weighted by a window without zeros, and dividing by the same
      window gives the spectrum back. */
  lemma QuickInverseRecoversSignal(k: Kernels, ts: seq<Complex>, sampleRate: nat, lo: nat, hi: nat, frate: nat)
    requires LengthPreserving(k)
    requires forall s :: k.fft(k.ifft(s)) == s
    requires forall s :: k.ifft(k.fft(s)) == s
    requires Table(k, ts, sampleRate, lo, hi, frate).Success?
    ensures QuickInverse(k, Table(k, ts, sampleRate, lo, hi, frate).value, 0) == Success(ts)
  {
    var table := Table(k, ts, sampleRate, lo, hi, frate).value;
    var n, spectrum := |ts|, k.fft(ts);
    var win := DivisorWindow(k, n, 0);
    RowZeroIndependent(k, ts, sampleRate, lo, hi, frate, sampleRate, lo, hi, frate);
    assert Rotate(spectrum, 0) == spectrum by {
      DoubledSlice(spectrum, 0);
    }
    assert table[0] == k.ifft(Scale(spectrum, win));
    QuotientUndoesScale(spectrum, win);
  }
}
