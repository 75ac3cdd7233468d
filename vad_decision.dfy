/** The decision and upsampling block of `energy_gmm_vad`
    (lab2/exercises_blank.py): frames whose non-speech posterior is below the
    threshold are marked 1.0, and the frame marks are copied back to sample
    resolution, `shift` samples per frame, followed by a "tail" write of the
    last frame's mark. */
module VadDecision {
  import opened PySlice
  import opened IndexArith
  import opened Framing

  /** `(g0 < vad_thr).astype('float32')`: the frame mark is 1.0 for a frame
      whose posterior of being non-speech is below the threshold, else 0.0. */
  function FrameDecision(g0: seq<real>, vadThr: real): (marks: seq<real>)
    ensures |marks| == |g0|
    ensures forall i :: 0 <= i < |g0| ==> (marks[i] == 1.0 <==> g0[i] < vadThr)
    ensures forall i :: 0 <= i < |g0| ==> (marks[i] == 0.0 <==> vadThr <= g0[i])
  {
    if g0 == [] then []
    else [if g0[0] < vadThr then 1.0 else 0.0] + FrameDecision(g0[1..], vadThr)
  }

  /** Raising the threshold never turns a speech frame into a non-speech
      frame. */
  lemma DecisionMonotoneInThreshold(g0: seq<real>, lowThr: real, highThr: real, i: nat)
    requires lowThr <= highThr && i < |g0|
    ensures FrameDecision(g0, lowThr)[i] <= FrameDecision(g0, highThr)[i]
  {
  }

  /** Every entry of `marks` is 0.0 or 1.0. */
  ghost predicate Binary(marks: seq<real>) {
    forall i :: 0 <= i < |marks| ==> marks[i] == 0.0 || marks[i] == 1.0
  }

  /** The sample markup after the first `k` passes of the loop
      `vad_markup_real[idx*shift:shift+idx*shift] = vad_frame_markup_real[idx]`
      over a zero array of `signalLength` samples. */
  function FrameFill(marks: seq<real>, shift: nat, signalLength: nat, k: nat): (m: seq<real>)
    requires k <= |marks|
    ensures |m| == signalLength
  {
    if k == 0 then Zeros(signalLength)
    else SliceAssign(FrameFill(marks, shift, signalLength, k - 1),
                     (k - 1) * shift, shift + (k - 1) * shift, marks[k - 1])
  }

  /** Sample `t` lies in the slot `[q * shift, q * shift + shift)` of frame
      `q`. */
  predicate InSlot(t: nat, q: nat, shift: nat) {
    q * shift <= t < q * shift + shift
  }

  /** The slot of a sample is frame `t / shift`. */
  lemma SlotOfSample(t: nat, shift: nat)
    requires shift > 0
    ensures InSlot(t, t / shift, shift)
  {
    var q, r := t / shift, t % shift;
    assert t == q * shift + r;
  }

  /** After `k` passes, a sample in the slot of frame `q < k` holds frame
      `q`'s mark: the slots are disjoint, so no later pass overwrites it. */
  lemma {:induction false} FrameFillInSlot(marks: seq<real>, shift: nat, signalLength: nat, k: nat, q: nat, t: nat)
    requires shift > 0 && k <= |marks| && t < signalLength
    requires q < k && InSlot(t, q, shift)
    ensures FrameFill(marks, shift, signalLength, k)[t] == marks[q]
  {
    var prev := FrameFill(marks, shift, signalLength, k - 1);
    var lo := (k - 1) * shift;
    if q < k - 1 {
      MulSucc(q, shift);
      MulMonotone(q + 1, k - 1, shift);
      SliceAssignOutside(prev, lo, shift + lo, marks[k - 1], t);
      FrameFillInSlot(marks, shift, signalLength, k - 1, q, t);
    } else {
      SliceAssignInside(prev, lo, shift + lo, marks[k - 1], t);
    }
  }

  /** After `k` passes, a sample at or past `k * shift` is still 0.0. */
  lemma {:induction false} FrameFillBeyond(marks: seq<real>, shift: nat, signalLength: nat, k: nat, t: nat)
    requires k <= |marks| && k * shift <= t < signalLength
    ensures FrameFill(marks, shift, signalLength, k)[t] == 0.0
  {
    if k > 0 {
      var prev := FrameFill(marks, shift, signalLength, k - 1);
      var lo := (k - 1) * shift;
      MulSucc(k - 1, shift);
      SliceAssignOutside(prev, lo, shift + lo, marks[k - 1], t);
      FrameFillBeyond(marks, shift, signalLength, k - 1, t);
    }
  }

  /** Where the tail write `vad_markup_real[slotsEnd - len(signal):]` starts,
      `slotsEnd` being `len(vad_frame_markup_real) * shift`, after Python's
      negative-index and clamping rules. */
  function TailStart(slotsEnd: nat, signalLength: nat): (start: nat)
    ensures start <= signalLength
    ensures slotsEnd < signalLength ==> start == slotsEnd
    ensures signalLength <= slotsEnd <= 2 * signalLength ==> start == slotsEnd - signalLength
    ensures 2 * signalLength <= slotsEnd ==> start == signalLength
  {
    Bound(signalLength, slotsEnd - signalLength)
  }

  /** The sample markup that lines 150-154 produce, as written: the frame
      loop followed by the tail write. With no frame at all, reading the last
      frame mark raises IndexError. */
  function Upsample(marks: seq<real>, shift: nat, signalLength: nat): (r: Result<seq<real>>)
    ensures r.Err? <==> marks == []
    ensures r.Err? ==> r.error == IndexError
    ensures r.Ok? ==> |r.value| == signalLength
  {
    if marks == [] then Err(IndexError)
    else
      Ok(SliceAssign(FrameFill(marks, shift, signalLength, |marks|),
                     |marks| * shift - signalLength, signalLength, marks[|marks| - 1]))
  }

  /** Sample `t` of the upsampled markup: the last frame's mark from the
      tail start on, and before it frame `q`'s mark inside frame `q`'s slot.
      The tail never starts after the last slot ends, so no sample is left
      at 0.0. */
  lemma UpsampleAt(marks: seq<real>, shift: nat, signalLength: nat, t: nat)
    requires shift > 0 && marks != [] && t < signalLength
    ensures TailStart(|marks| * shift, signalLength) <= t ==>
      Upsample(marks, shift, signalLength).value[t] == marks[|marks| - 1]
    ensures forall q: nat :: q < |marks| && InSlot(t, q, shift) && t < TailStart(|marks| * shift, signalLength) ==>
      Upsample(marks, shift, signalLength).value[t] == marks[q]
    ensures TailStart(|marks| * shift, signalLength) <= |marks| * shift
  {
    var n := |marks|;
    var filled := FrameFill(marks, shift, signalLength, n);
    assert Upsample(marks, shift, signalLength).value
        == SliceAssign(filled, n * shift - signalLength, signalLength, marks[n - 1]);
    forall q: nat | q < n && InSlot(t, q, shift)
      ensures filled[t] == marks[q]
    {
      FrameFillInSlot(marks, shift, signalLength, n, q, t);
    }
  }

  /** `energy_gmm_vad`'s lines 150-154: a float32 zero array of the signal's
      length, one slice write per frame, then the tail write. The shift is
      positive here, because `framing` has already raised ZeroDivisionError
      for a zero shift. */
  method UpsampleMarkup(marks: seq<real>, shift: nat, signalLength: nat)
    returns (r: Result<seq<real>>)
    requires shift > 0
    ensures r == Upsample(marks, shift, signalLength)
  {
    var markup := new real[signalLength](_ => 0.0);
    var idx := 0;
    while idx < |marks|
      invariant 0 <= idx <= |marks|
      invariant markup[..] == FrameFill(marks, shift, signalLength, idx)
    {
      FillSlice(markup, idx * shift, shift + idx * shift, marks[idx]);
      assert markup[..] == FrameFill(marks, shift, signalLength, idx + 1);
      idx := idx + 1;
    }
    if |marks| == 0 {
      return Err(IndexError);
    }
    FillSlice(markup, |marks| * shift - signalLength, signalLength, marks[|marks| - 1]);
    r := Ok(markup[..]);
  }

  /** The upsampled markup of binary frame marks is binary. */
  lemma UpsampleBinary(marks: seq<real>, shift: nat, signalLength: nat)
    requires shift > 0 && marks != [] && Binary(marks)
    ensures Binary(Upsample(marks, shift, signalLength).value)
  {
    var m := Upsample(marks, shift, signalLength).value;
    forall t | 0 <= t < signalLength
      ensures m[t] == 0.0 || m[t] == 1.0
    {
      UpsampleAt(marks, shift, signalLength, t);
      var n, q := |marks|, t / shift;
      if t < TailStart(n * shift, signalLength) && t < n * shift {
        DivBelow(t, shift, n);
        SlotOfSample(t, shift);
        assert m[t] == marks[q];
      }
    }
  }

  /** A sample lies in the slot of exactly one frame, `t / shift`. */
  lemma SlotIsUnique(t: nat, q: nat, shift: nat)
    requires shift > 0 && InSlot(t, q, shift)
    ensures q == t / shift
  {
    DivWithin(t, shift, q);
  }

  /** When the frame slots end before the signal does, the tail write's
      negative start counts back from the end to exactly the first sample
      past the last slot: every sample in a frame's slot keeps that frame's
      mark, and every sample past the last slot takes the last frame's mark. */
  lemma {:induction false} UpsampleSlotsInside(marks: seq<real>, shift: nat, signalLength: nat, t: nat)
    requires shift > 0 && marks != [] && |marks| * shift < signalLength
    requires t < signalLength
    ensures TailStart(|marks| * shift, signalLength) == |marks| * shift
    ensures forall q: nat :: q < |marks| && InSlot(t, q, shift) ==>
      Upsample(marks, shift, signalLength).value[t] == marks[q]
    ensures |marks| * shift <= t ==> Upsample(marks, shift, signalLength).value[t] == marks[|marks| - 1]
  {
    var n := |marks|;
    UpsampleAt(marks, shift, signalLength, t);
    forall q: nat | q < n && InSlot(t, q, shift)
      ensures Upsample(marks, shift, signalLength).value[t] == marks[q]
    {
      MulSucc(q, shift);
      MulMonotone(q + 1, n, shift);
    }
  }

  /** For a signal longer than the window, with `shift <= window` as
      `energy_gmm_vad` is used, there is at least one frame and the frame
      slots end before the signal, so the tail write fills exactly the
      samples past the last slot with the last frame's mark, and every other
      sample holds the mark of its frame. */
  lemma {:induction false} UpsampleLongSignal(marks: seq<real>, signalLength: nat, window: nat, shift: nat, t: nat)
    requires 0 < shift <= window < signalLength
    requires |marks| == FrameCount(signalLength, window, shift)
    requires t < signalLength
    ensures marks != [] && |marks| * shift < signalLength
    ensures TailStart(|marks| * shift, signalLength) == |marks| * shift
    ensures forall q: nat :: q < |marks| && InSlot(t, q, shift) ==>
      Upsample(marks, shift, signalLength).value[t] == marks[q]
    ensures |marks| * shift <= t ==> Upsample(marks, shift, signalLength).value[t] == marks[|marks| - 1]
  {
    LongSignalFrameSlots(signalLength, window, shift);
    UpsampleSlotsInside(marks, shift, signalLength, t);
  }

  /** When the frame slots reach the end of the signal (possible only for a
      signal shorter than the window, or a shift larger than it), every
      sample lies in some frame's slot, and the tail write's start is not
      negative: it overwrites every sample from `slotsEnd - signalLength` on
      with the last frame's mark, the whole markup when the slots end exactly
      at the signal's end, and nothing when they reach twice its length. */
  lemma {:induction false} UpsampleSlotsPastEnd(marks: seq<real>, shift: nat, signalLength: nat, t: nat, q: nat)
    requires shift > 0 && marks != [] && signalLength <= |marks| * shift
    requires t < signalLength && InSlot(t, q, shift)
    ensures q < |marks|
    ensures Upsample(marks, shift, signalLength).value[t]
         == if |marks| * shift - signalLength <= t then marks[|marks| - 1] else marks[q]
  {
    var n := |marks|;
    if n <= q {
      MulMonotone(n, q, shift);
    }
    UpsampleAt(marks, shift, signalLength, t);
  }

  /** Upsampling fails exactly for a signal one window long: it has no
      frame, and `vad_frame_markup_real[-1]` raises IndexError. */
  lemma OneWindowSignalRaisesIndexError(g0: seq<real>, vadThr: real, signalLength: nat, window: nat, shift: nat)
    requires shift > 0
    requires |g0| == FrameCount(signalLength, window, shift)
    ensures Upsample(FrameDecision(g0, vadThr), shift, signalLength).Err? <==> signalLength == window
  {
    NoFramesIffOneWindow(signalLength, window, shift);
  }

  /** The tail write as a forward fill, `markup[frameCount*shift:] =
      last mark`: only the samples past the last frame slot are filled. */
  function UpsampleIntended(marks: seq<real>, shift: nat, signalLength: nat): (r: Result<seq<real>>)
    ensures r.Err? <==> marks == []
    ensures r.Err? ==> r.error == IndexError
    ensures r.Ok? ==> |r.value| == signalLength
  {
    if marks == [] then Err(IndexError)
    else
      Ok(SliceAssign(FrameFill(marks, shift, signalLength, |marks|),
                     |marks| * shift, signalLength, marks[|marks| - 1]))
  }

  /** With the intended tail, every sample inside a frame slot keeps its own
      frame's mark, whatever the signal length, and exactly the samples past
      the last slot take the last mark. */
  lemma {:induction false} UpsampleIntendedAt(marks: seq<real>, shift: nat, signalLength: nat, t: nat)
    requires shift > 0 && marks != [] && t < signalLength
    ensures forall q: nat :: q < |marks| && InSlot(t, q, shift) ==>
      UpsampleIntended(marks, shift, signalLength).value[t] == marks[q]
    ensures |marks| * shift <= t ==> UpsampleIntended(marks, shift, signalLength).value[t] == marks[|marks| - 1]
  {
    var n := |marks|;
    var filled := FrameFill(marks, shift, signalLength, n);
    forall q: nat | q < n && InSlot(t, q, shift)
      ensures UpsampleIntended(marks, shift, signalLength).value[t] == marks[q]
    {
      MulSucc(q, shift);
      MulMonotone(q + 1, n, shift);
      FrameFillInSlot(marks, shift, signalLength, n, q, t);
      SliceAssignOutside(filled, n * shift, signalLength, marks[n - 1], t);
    }
    if n * shift <= t {
      SliceAssignInside(filled, n * shift, signalLength, marks[n - 1], t);
    }
  }

  /** For a signal longer than the window and `shift <= window`, the tail
      write as written agrees with the intended one. */
  lemma TailAsWrittenMatchesIntended(marks: seq<real>, signalLength: nat, window: nat, shift: nat)
    requires 0 < shift <= window < signalLength
    requires |marks| == FrameCount(signalLength, window, shift)
    ensures Upsample(marks, shift, signalLength) == UpsampleIntended(marks, shift, signalLength)
  {
    var a, b := Upsample(marks, shift, signalLength).value, UpsampleIntended(marks, shift, signalLength).value;
    forall t | 0 <= t < signalLength
      ensures a[t] == b[t]
    {
      UpsampleLongSignal(marks, signalLength, window, shift, t);
      UpsampleIntendedAt(marks, shift, signalLength, t);
    }
  }

  /** A 150-sample signal with window 300 and shift 100 passes `framing`'s
      `np.zeros(shape)` and has two frames; with frame marks [1, 0] the tail
      write as written starts at sample 50 and overwrites sample 50 of frame
      0's slot with frame 1's mark. */
  lemma TailOverwritesShortSignal()
    ensures ShapeRows(150, 300, 100) >= 0
    ensures FrameCount(150, 300, 100) == 2
    ensures Upsample([1.0, 0.0], 100, 150).value[50] == 0.0
    ensures UpsampleIntended([1.0, 0.0], 100, 150).value[50] == 1.0
  {
    CeilDivIsLeast(150, 100, 2);
    assert FrameCount(150, 300, 100) == 2;
    assert InSlot(50, 0, 100);
    UpsampleSlotsPastEnd([1.0, 0.0], 100, 150, 50, 0);
    UpsampleIntendedAt([1.0, 0.0], 100, 150, 50);
  }
}
