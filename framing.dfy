/** `framing` and `frame_energy` of lab2/exercises_blank.py: the signal is
    zero-padded, cut into overlapping windows of `window` samples every
    `shift` samples, each window is multiplied by the Hamming coefficients,
    and each frame is reduced to the sum of its samples. */
module Framing {
  import opened PySlice
  import opened IndexArith

  /** `|a - b|` on sample counts. */
  function Dist(a: nat, b: nat): nat {
    if a < b then b - a else a - b
  }

  /** `int(np.ceil(float(np.abs(L - window)) / shift))`: the number of
      frames, computed from the distance between the signal length and the
      window length (not the usual `(L - window) / shift + 1`). */
  function FrameCount(signalLength: nat, window: nat, shift: nat): (n: nat)
    requires shift > 0
    ensures n * shift >= Dist(signalLength, window)
    ensures n == 0 || (n - 1) * shift < Dist(signalLength, window)
  {
    CeilDiv(Dist(signalLength, window), shift)
  }

  /** `int((L - window) / shift + 1)`, the row count of the `shape` that
      `framing` passes to `np.zeros` before it computes the frame count:
      `(L - window) / shift + 1` is `d / shift` with `d = L + shift - window`,
      and Python's `int` truncates that quotient toward zero. The row count
      is negative, and `np.zeros` raises ValueError, exactly when the signal
      is at least two shifts shorter than the window. */
  function ShapeRows(signalLength: nat, window: nat, shift: nat): (rows: int)
    requires shift > 0
    ensures rows < 0 <==> signalLength + 2 * shift <= window
    ensures window <= signalLength + shift ==> rows >= 0
  {
    var d := signalLength + shift - window;
    if d >= 0 then d / shift
    else
      var q := (window - signalLength - shift) / shift;
      assert q >= 1 <==> window - signalLength - shift >= shift by {
        if q >= 1 { MulMonotone(1, q, shift); }
      }
      -q
  }

  /** `pad_signal_length = num_frames * shift + window`. */
  function PaddedLength(signalLength: nat, window: nat, shift: nat): nat
    requires shift > 0
  {
    FrameCount(signalLength, window, shift) * shift + window
  }

  /** Sample `t` of the zero-padded signal. */
  function SampleAt(signal: seq<real>, t: nat): real {
    if t < |signal| then signal[t] else 0.0
  }

  /** The padding `np.zeros(pad_signal_length - signal_length)` never has a
      negative length, so np.zeros does not raise: for a signal at least one
      window long the frames reach past its end, and for a shorter one the
      window alone does. */
  lemma PaddingNonNegative(signalLength: nat, window: nat, shift: nat)
    requires shift > 0
    ensures PaddedLength(signalLength, window, shift) >= signalLength
  {
  }

  /** Every frame slice `[i * shift, i * shift + window)` lies inside the
      padded signal, so numpy never shortens it. */
  lemma {:induction false} FrameInsidePadding(signalLength: nat, window: nat, shift: nat, i: nat)
    requires shift > 0
    requires i < FrameCount(signalLength, window, shift)
    ensures i * shift + window <= PaddedLength(signalLength, window, shift)
  {
    MulMonotone(i, FrameCount(signalLength, window, shift), shift);
  }

  /** A signal has no frame at all exactly when it is one window long. */
  lemma {:induction false} NoFramesIffOneWindow(signalLength: nat, window: nat, shift: nat)
    requires shift > 0
    ensures FrameCount(signalLength, window, shift) == 0 <==> signalLength == window
  {
    var n := FrameCount(signalLength, window, shift);
    if signalLength == window && n > 0 {
      MulMonotone(1, n, shift);
    }
  }

  /** A signal longer than the window, framed with `shift <= window`, has
      at least one frame, and its frame slots `[i * shift, i * shift + shift)`
      end before the signal does: the last `< shift` samples have no slot. */
  lemma {:induction false} LongSignalFrameSlots(signalLength: nat, window: nat, shift: nat)
    requires 0 < shift <= window < signalLength
    ensures FrameCount(signalLength, window, shift) > 0
    ensures FrameCount(signalLength, window, shift) * shift < signalLength
  {
    var n := FrameCount(signalLength, window, shift);
    assert n > 0;
    MulSucc(n - 1, shift);
  }

  /** `pad_signal[start:end] * w`: element-wise product with the window. */
  function Windowed(xs: seq<real>, w: seq<real>): (r: seq<real>)
    requires |xs| == |w|
    ensures |r| == |w|
  {
    seq(|w|, j requires 0 <= j < |w| => xs[j] * w[j])
  }

  /** A row cut from the zero-padded signal and windowed holds the padded
      samples times the window coefficients. */
  lemma PaddedRow(signal: seq<real>, padLength: nat, start: nat, w: seq<real>)
    requires |signal| <= padLength && start + |w| <= padLength
    ensures forall j :: 0 <= j < |w| ==>
      Windowed((signal + Zeros(padLength - |signal|))[start..start + |w|], w)[j]
        == SampleAt(signal, start + j) * w[j]
  {
  }

  /** Row `i` of the windowed, zero-padded signal is row `i` of the frame
      matrix. */
  lemma PaddedFrameRow(signal: seq<real>, w: seq<real>, shift: nat, i: nat)
    requires shift > 0 && i < FrameCount(|signal|, |w|, shift)
    ensures |signal| <= PaddedLength(|signal|, |w|, shift)
    ensures i * shift + |w| <= PaddedLength(|signal|, |w|, shift)
    ensures Windowed((signal + Zeros(PaddedLength(|signal|, |w|, shift) - |signal|))[i * shift..i * shift + |w|], w)
      == FrameMatrix(signal, w, shift)[i]
  {
    var padLength := PaddedLength(|signal|, |w|, shift);
    PaddingNonNegative(|signal|, |w|, shift);
    FrameInsidePadding(|signal|, |w|, shift, i);
    PaddedRow(signal, padLength, i * shift, w);
    var pad := signal + Zeros(padLength - |signal|);
    var row, frame := Windowed(pad[i * shift..i * shift + |w|], w), FrameMatrix(signal, w, shift)[i];
    assert |frame| == |w|;
    forall j | 0 <= j < |w|
      ensures row[j] == frame[j]
    {
      assert row[j] == SampleAt(signal, i * shift + j) * w[j];
    }
  }

  /** `frames` is the frame matrix of `signal`: `FrameCount` rows of
      `|w|` samples, element `[i][j]` being padded sample `i * shift + j`
      times window coefficient `j`. */
  ghost predicate FramesOf(frames: seq<seq<real>>, signal: seq<real>, w: seq<real>, shift: nat)
    requires shift > 0
  {
    && |frames| == FrameCount(|signal|, |w|, shift)
    && (forall i :: 0 <= i < |frames| ==> |frames[i]| == |w|)
    && (forall i, j :: 0 <= i < |frames| && 0 <= j < |frames[i]| ==>
          frames[i][j] == SampleAt(signal, i * shift + j) * w[j])
  }

  /** Two frame matrices of the same signal are the same matrix. */
  lemma FramesOfUnique(f1: seq<seq<real>>, f2: seq<seq<real>>, signal: seq<real>, w: seq<real>, shift: nat)
    requires shift > 0
    requires FramesOf(f1, signal, w, shift) && FramesOf(f2, signal, w, shift)
    ensures f1 == f2
  {
    forall i | 0 <= i < |f1|
      ensures f1[i] == f2[i]
    {
      assert |f1[i]| == |w| == |f2[i]|;
      forall j | 0 <= j < |w|
        ensures f1[i][j] == f2[i][j]
      {
        var x := SampleAt(signal, i * shift + j) * w[j];
        assert f1[i][j] == x;
        assert f2[i][j] == x;
      }
    }
  }

  /** `framing(signal, window, shift)`, with the Hamming coefficients
      `np.hamming(window)` passed in as `w`. A zero shift raises
      ZeroDivisionError in the first division, the one of `shape`; a negative
      row count in `shape` makes `np.zeros(shape)` raise ValueError. That
      zero array is otherwise discarded: the frames are built afresh. */
  method Frame(signal: seq<real>, w: seq<real>, window: nat, shift: nat)
    returns (r: Result<seq<seq<real>>>)
    requires |w| == window
    ensures shift == 0 <==> r == Err(ZeroDivisionError)
    ensures r == Err(ValueError) <==> 0 < shift && |signal| + 2 * shift <= window
    ensures 0 < shift && window < |signal| + 2 * shift ==>
      r.Ok? && FramesOf(r.value, signal, w, shift)
  {
    if shift == 0 {
      return Err(ZeroDivisionError);
    }
    if ShapeRows(|signal|, window, shift) < 0 {
      return Err(ValueError);
    }
    var rows := FrameRows(signal, w, shift);
    r := Ok(rows);
  }

  /** The body of `framing` past the `shape` line: pad the signal with
      zeros to `num_frames * shift + window` samples and fill the frame
      matrix row by row. */
  method FrameRows(signal: seq<real>, w: seq<real>, shift: nat) returns (rows: seq<seq<real>>)
    requires shift > 0
    ensures FramesOf(rows, signal, w, shift)
  {
    var signalLength, window := |signal|, |w|;
    var numFrames := FrameCount(signalLength, window, shift);
    var padLength := numFrames * shift + window;
    PaddingNonNegative(signalLength, window, shift);
    var padSignal := signal + Zeros(padLength - signalLength);

    var frames := new seq<real>[numFrames];
    ghost var matrix := FrameMatrix(signal, w, shift);
    var i := 0;
    while i < numFrames
      invariant 0 <= i <= numFrames
      invariant forall k :: 0 <= k < i ==> frames[k] == matrix[k]
    {
      var start := i * shift;
      var end := start + window;
      PaddedFrameRow(signal, w, shift, i);
      frames[i] := Windowed(padSignal[start..end], w);
      i := i + 1;
    }
    assert frames[..] == matrix;
    rows := frames[..];
  }

  /** The frame matrix as a value: the one matrix `Frame` returns. */
  function FrameMatrix(signal: seq<real>, w: seq<real>, shift: nat): (frames: seq<seq<real>>)
    requires shift > 0
    ensures FramesOf(frames, signal, w, shift)
  {
    var n := FrameCount(|signal|, |w|, shift);
    seq(n, i requires 0 <= i < n =>
      seq(|w|, j requires 0 <= j < |w| => SampleAt(signal, i * shift + j) * w[j]))
  }

  /** `np.sum(xs)`. */
  function Sum(xs: seq<real>): real {
    if xs == [] then 0.0 else xs[0] + Sum(xs[1..])
  }

  lemma {:induction false} SumNonNegative(xs: seq<real>)
    requires forall j :: 0 <= j < |xs| ==> xs[j] >= 0.0
    ensures Sum(xs) >= 0.0
  {
    if xs != [] {
      SumNonNegative(xs[1..]);
    }
  }

  lemma {:induction false} SumOfZeros(xs: seq<real>)
    requires forall j :: 0 <= j < |xs| ==> xs[j] == 0.0
    ensures Sum(xs) == 0.0
  {
    if xs != [] {
      SumOfZeros(xs[1..]);
    }
  }

  /** `np.sum(frames, axis=1)`: one energy per frame, the sum of its row. */
  function FrameEnergy(frames: seq<seq<real>>): (e: seq<real>)
    ensures |e| == |frames|
    ensures forall i :: 0 <= i < |frames| ==> e[i] == Sum(frames[i])
  {
    if frames == [] then [] else [Sum(frames[0])] + FrameEnergy(frames[1..])
  }

  /** `signal**2`, what `energy_gmm_vad` frames. */
  function Squared(signal: seq<real>): (s: seq<real>)
    ensures |s| == |signal|
    ensures forall t :: 0 <= t < |signal| ==> s[t] >= 0.0
  {
    seq(|signal|, t requires 0 <= t < |signal| => signal[t] * signal[t])
  }

  /** Framing the squared signal with non-negative window coefficients (the
      Hamming coefficients lie between 0.08 and 1) gives non-negative frame
      energies. */
  lemma EnergyOfSquaredSignalNonNegative(signal: seq<real>, w: seq<real>, shift: nat, frames: seq<seq<real>>)
    requires shift > 0
    requires forall j :: 0 <= j < |w| ==> w[j] >= 0.0
    requires FramesOf(frames, Squared(signal), w, shift)
    ensures forall i :: 0 <= i < |frames| ==> FrameEnergy(frames)[i] >= 0.0
  {
    var sq := Squared(signal);
    forall i | 0 <= i < |frames|
      ensures Sum(frames[i]) >= 0.0
    {
      forall j | 0 <= j < |frames[i]|
        ensures frames[i][j] >= 0.0
      {
        var x, c := SampleAt(sq, i * shift + j), w[j];
        assert frames[i][j] == x * c;
        assert x >= 0.0 && c >= 0.0;
      }
      SumNonNegative(frames[i]);
    }
  }

  /** A frame that starts at or after the end of the signal lies wholly in
      the zero padding and has energy 0; for a signal shorter than the window
      the frame count can produce such frames. */
  lemma PaddingFrameHasZeroEnergy(signal: seq<real>, w: seq<real>, shift: nat, frames: seq<seq<real>>, i: nat)
    requires shift > 0
    requires FramesOf(frames, signal, w, shift)
    requires i < |frames| && i * shift >= |signal|
    ensures FrameEnergy(frames)[i] == 0.0
  {
    forall j | 0 <= j < |frames[i]|
      ensures frames[i][j] == 0.0
    {
      assert i * shift + j >= |signal|;
      assert frames[i][j] == SampleAt(signal, i * shift + j) * w[j];
    }
    SumOfZeros(frames[i]);
  }
}
