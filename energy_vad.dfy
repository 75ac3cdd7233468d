/** `energy_gmm_vad` (lab2/exercises_blank.py) up to the morphological
    filters: square the signal, frame it, sum each frame, hand the energies
    to the Gaussian-mixture stages, threshold their posterior and upsample
    the frame marks to the signal's samples. */
module EnergyVad {
  import opened PySlice
  import opened Framing
  import opened VadDecision

  /** The sample markup `energy_gmm_vad` has before its closing and opening
      filters. `posterior` stands for `norm_energy`, `gmm_train` and
      `eval_frame_post_prob` together: it maps the frame energies to one
      non-speech probability per frame. A signal two shifts or more shorter
      than the window stops at `framing`'s ValueError. */
  function VadMarkup(signal: seq<real>, w: seq<real>, shift: nat,
                     posterior: seq<real> -> seq<real>, vadThr: real): (r: Result<seq<real>>)
    requires shift > 0
    requires forall e :: |posterior(e)| == |e|
    ensures r == Err(ValueError) <==> |signal| + 2 * shift <= |w|
    ensures r.Ok? ==> |r.value| == |signal|
  {
    if ShapeRows(|signal|, |w|, shift) < 0 then Err(ValueError)
    else
      var energy := FrameEnergy(FrameMatrix(Squared(signal), w, shift));
      Upsample(FrameDecision(posterior(energy), vadThr), shift, |signal|)
  }

  /** Lines 130-154 of `energy_gmm_vad`, with the Hamming window `w` and the
      mixture stages `posterior` as parameters. */
  method EnergyGmmVad(signal: seq<real>, w: seq<real>, window: nat, shift: nat,
                      posterior: seq<real> -> seq<real>, vadThr: real)
    returns (r: Result<seq<real>>)
    requires |w| == window
    requires forall e :: |posterior(e)| == |e|
    ensures shift == 0 ==> r == Err(ZeroDivisionError)
    ensures shift > 0 ==> r == VadMarkup(signal, w, shift, posterior, vadThr)
  {
    var squaredSignal := Squared(signal);
    var framed := Frame(squaredSignal, w, window, shift);
    if framed.Err? {
      return Err(framed.error);
    }
    var frames := framed.value;
    FramesOfUnique(frames, FrameMatrix(squaredSignal, w, shift), squaredSignal, w, shift);
    var energy := FrameEnergy(frames);
    var g0 := posterior(energy);
    var frameMarks := FrameDecision(g0, vadThr);
    r := UpsampleMarkup(frameMarks, shift, |signal|);
  }

  /** The pipeline fails in two cases only: with framing's ValueError for a
      signal at least two shifts shorter than the window, and with the
      IndexError of the tail write for a signal one window long, which has
      no frame. */
  lemma VadFailureCases(signal: seq<real>, w: seq<real>, shift: nat,
                        posterior: seq<real> -> seq<real>, vadThr: real)
    requires shift > 0
    requires forall e :: |posterior(e)| == |e|
    ensures VadMarkup(signal, w, shift, posterior, vadThr) == Err(ValueError) <==>
      |signal| + 2 * shift <= |w|
    ensures VadMarkup(signal, w, shift, posterior, vadThr) == Err(IndexError) <==>
      |signal| == |w|
    ensures VadMarkup(signal, w, shift, posterior, vadThr).Err? <==>
      |signal| + 2 * shift <= |w| || |signal| == |w|
  {
    if |w| < |signal| + 2 * shift {
      var energy := FrameEnergy(FrameMatrix(Squared(signal), w, shift));
      OneWindowSignalRaisesIndexError(posterior(energy), vadThr, |signal|, |w|, shift);
    }
  }

  /** For a signal longer than the window, with `shift <= window`, every
      sample in the slot of frame `q` is marked speech (1.0) exactly when
      frame `q`'s non-speech posterior is below the threshold, and the
      samples past the last slot follow the last frame. */
  lemma VadLongSignal(signal: seq<real>, w: seq<real>, shift: nat,
                      posterior: seq<real> -> seq<real>, vadThr: real, t: nat)
    requires 0 < shift <= |w| < |signal| && t < |signal|
    requires forall e :: |posterior(e)| == |e|
    ensures VadMarkup(signal, w, shift, posterior, vadThr).Ok?
    ensures forall q: nat :: q < FrameCount(|signal|, |w|, shift) && InSlot(t, q, shift) ==>
      (VadMarkup(signal, w, shift, posterior, vadThr).value[t] == 1.0 <==>
         posterior(FrameEnergy(FrameMatrix(Squared(signal), w, shift)))[q] < vadThr)
    ensures FrameCount(|signal|, |w|, shift) * shift <= t ==>
      (VadMarkup(signal, w, shift, posterior, vadThr).value[t] == 1.0 <==>
         posterior(FrameEnergy(FrameMatrix(Squared(signal), w, shift)))[FrameCount(|signal|, |w|, shift) - 1] < vadThr)
  {
    var energy := FrameEnergy(FrameMatrix(Squared(signal), w, shift));
    var marks := FrameDecision(posterior(energy), vadThr);
    UpsampleLongSignal(marks, |signal|, |w|, shift, t);
  }
}
