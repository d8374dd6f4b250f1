/** The WindowGenerator of TFchirp (`_window_normal`): a Gaussian of the requested
    length, optionally raised to a floor ("elevated"), then split at its midpoint
    and swapped end for end by slicing the doubled curve, so that its peak lands
    at index 0 the way frequency 0 sits at index 0 of a spectrum. */
module Window {
  import opened Signal

  /** The default elevation of `_window_normal`, written `10e-8` there. */
  const DefaultElevation: real := 0.0000001

  /** `np.where(g < floor, floor, g)`: each value becomes the least number that is
      at least both itself and the floor. */
  function Elevate(g: seq<real>, floor: real): (r: seq<real>)
    ensures |r| == |g|
    ensures forall j :: 0 <= j < |g| ==> r[j] >= floor && r[j] >= g[j]
    ensures forall j :: 0 <= j < |g| ==> r[j] == g[j] || r[j] == floor
  {
    seq(|g|, j requires 0 <= j < |g| => if g[j] < floor then floor else g[j])
  }

  /** Elevating twice to the same floor is elevating once. */
  lemma ElevateIdempotent(g: seq<real>, floor: real)
    ensures Elevate(Elevate(g, floor), floor) == Elevate(g, floor)
  {
    var once := Elevate(g, floor);
    forall j | 0 <= j < |g|
      ensures Elevate(once, floor)[j] == once[j]
    {
      assert once[j] >= floor;
    }
  }

  /** `np.hstack((g, g))[length//2 : length//2 + length]` with `length == len(g)`:
      the second half of `g` followed by its first half. */
  function Split(g: seq<real>): (w: seq<real>)
    ensures |w| == |g|
    ensures forall j :: 0 <= j < |g| ==> w[j] == g[Wrap(|g| / 2 + j, |g|)]
  {
    DoubledSlice(g, |g| / 2);
    PySlice(g + g, |g| / 2, |g| / 2 + |g|)
  }

  /** The curve before it is split: the Gaussian, elevated or not. */
  function Base(gauss: seq<real>, elevated: bool, elevation: real): (b: seq<real>)
    ensures |b| == |gauss|
    ensures elevated ==> forall j :: 0 <= j < |b| ==> b[j] >= elevation && b[j] >= gauss[j]
    ensures !elevated ==> b == gauss
  {
    if elevated then Elevate(gauss, elevation) else gauss
  }

  /** `_window_normal(length, freq, factor, elevated, elevation)`. */
  function WindowNormal(k: Kernels, length: nat, freq: int, factor: real, elevated: bool, elevation: real): (win: seq<real>)
    requires LengthPreserving(k)
    ensures |win| == length
  {
    Split(Base(k.gaussian(length, freq, factor), elevated, elevation))
  }

  /** The window is the (elevated) Gaussian rotated by `length / 2`; in particular
      its first value is the one at the Gaussian's midpoint. */
  lemma WindowIsRotation(k: Kernels, length: nat, freq: int, factor: real, elevated: bool, elevation: real)
    requires LengthPreserving(k)
    ensures WindowNormal(k, length, freq, factor, elevated, elevation)
         == Rotate(Base(k.gaussian(length, freq, factor), elevated, elevation), length / 2)
    ensures length > 0 ==>
      WindowNormal(k, length, freq, factor, elevated, elevation)[0]
      == Base(k.gaussian(length, freq, factor), elevated, elevation)[length / 2]
  {
    var b := Base(k.gaussian(length, freq, factor), elevated, elevation);
    DoubledSlice(b, length / 2);
  }

  /** Index by index: window value `j` is the curve's value at
      `(length // 2 + j) % length`. */
  lemma WindowIndex(k: Kernels, length: nat, freq: int, factor: real, elevated: bool, elevation: real)
    requires LengthPreserving(k)
    ensures forall j :: 0 <= j < length ==>
      WindowNormal(k, length, freq, factor, elevated, elevation)[j]
      == Base(k.gaussian(length, freq, factor), elevated, elevation)[(length / 2 + j) % length]
  {
    forall j | 0 <= j < length
      ensures WindowNormal(k, length, freq, factor, elevated, elevation)[j]
           == Base(k.gaussian(length, freq, factor), elevated, elevation)[(length / 2 + j) % length]
    {
      WrapIsModulo(length / 2 + j, length);
    }
  }

  /** With elevation on, no window value is below the elevation. */
  lemma WindowAboveFloor(k: Kernels, length: nat, freq: int, factor: real, elevation: real)
    requires LengthPreserving(k)
    ensures forall j :: 0 <= j < length ==> WindowNormal(k, length, freq, factor, true, elevation)[j] >= elevation
  {
    var b := Base(k.gaussian(length, freq, factor), true, elevation);
    var w := WindowNormal(k, length, freq, factor, true, elevation);
    forall j | 0 <= j < length
      ensures w[j] >= elevation
    {
      assert w[j] == b[Wrap(length / 2 + j, length)];
    }
  }

  /** The split only reorders: the window holds exactly the values of the curve
      it was cut from, which is the Gaussian itself when elevation is off. */
  lemma WindowPermutesBase(k: Kernels, length: nat, freq: int, factor: real, elevated: bool, elevation: real)
    requires LengthPreserving(k)
    ensures multiset(WindowNormal(k, length, freq, factor, elevated, elevation))
         == multiset(Base(k.gaussian(length, freq, factor), elevated, elevation))
    ensures !elevated ==>
      multiset(WindowNormal(k, length, freq, factor, elevated, elevation)) == multiset(k.gaussian(length, freq, factor))
  {
    var b := Base(k.gaussian(length, freq, factor), elevated, elevation);
    WindowIsRotation(k, length, freq, factor, elevated, elevation);
    RotatePermutes(b, length / 2);
  }
}
