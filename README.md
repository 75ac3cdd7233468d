# Energy-based VAD: frame and sample bookkeeping

A Dafny model of the index and array bookkeeping of the energy-based voice
activity detector in `lab2/exercises_blank.py`:

- `framing`: the frame count `ceil(|L - window| / shift)`, the zero padding,
  and the frame matrix whose row `i` is the padded slice `[i*shift,
  i*shift + window)` times the Hamming coefficients;
- `frame_energy`: one sum per frame;
- the frame decision of `energy_gmm_vad` (posterior below the threshold
  gives 1.0);
- the upsampling of frame marks to samples: one slice write per frame, then
  the "tail" write `markup[num_frames*shift - len(signal):] = last mark`,
  whose negative start follows Python's slice rules;
- the filling loop of `load_vad_markup`, from segments already converted to
  sample indices.

Samples are `real`. Python's slice rules (a negative bound counts from the
end; bounds are clamped to `[0, len]`) are written once, as `PySlice.Bound`
and `PySlice.SliceAssign`. The numpy write `a[lo:hi] = v` is the method
`PySlice.FillSlice` on an `array<real>`. The source's loops are `while`
loops over a freshly allocated array: in `Framing.Frame`,
`VadDecision.UpsampleMarkup` and `VadMarkup.LoadVadMarkup`. Each of these
methods returns the array's contents as a sequence. The source's exceptions
are a `Result`: `ZeroDivisionError` for a zero shift in `framing` (raised by
the division in `shape`); `ValueError` from `np.zeros(shape)` when the row
count `int((L - window) / shift + 1)` is negative, which happens exactly
when `L + 2*shift <= window`; and `IndexError` for
`vad_frame_markup_real[-1]` when there is no frame, which happens exactly
when the signal is one window long.

Files: `py_slice.dfy` (slice rules), `index_arith.dfy` (ceiling and
slot arithmetic), `framing.dfy`, `vad_decision.dfy`, `vad_markup.dfy`,
`energy_vad.dfy` (the pipeline up to the morphological filters).

## Model

| member | source | states |
|---|---|---|
| PySlice.Bound | lab2/exercises_blank.py:154 | a slice bound denotes a position in `[0, n]`: a bound in range is itself, a negative one counts back from the end, and what remains outside is clamped to the nearer end |
| PySlice.SliceAssign | lab2/exercises_blank.py:152 | `a[lo:hi] = v` keeps the length, sets exactly the samples of the clamped slice to `v` and leaves every other sample unchanged |
| PySlice.FillSlice | lab2/exercises_blank.py:152 | the in-place numpy slice write leaves the array holding `SliceAssign` of its old contents |
| IndexArith.CeilDiv | lab2/exercises_blank.py:40 | `ceil(d / s)` reaches `d` (`n*s >= d`) and one frame fewer does not (`(n-1)*s < d`) |
| IndexArith.CeilDivIsLeast | lab2/exercises_blank.py:40 | no count smaller than `ceil(d / s)` reaches `d` |
| Framing.ShapeRows | lab2/exercises_blank.py:35-36 | the row count of `shape` truncates toward zero and is negative, so that `np.zeros(shape)` raises ValueError, exactly when `L + 2*shift <= window`; it is never negative when `window <= L + shift` |
| Framing.FrameCount | lab2/exercises_blank.py:40 | the frame count is the ceiling of `|L - window| / shift` |
| Framing.NoFramesIffOneWindow | lab2/exercises_blank.py:40 | there are no frames exactly when the signal is one window long |
| Framing.PaddingNonNegative | lab2/exercises_blank.py:41-43 | the padding length `num_frames*shift + window - L` is never negative, so `np.zeros` does not raise |
| Framing.FrameInsidePadding | lab2/exercises_blank.py:47-50 | every frame slice `[i*shift, i*shift + window)` lies inside the padded signal |
| Framing.LongSignalFrameSlots | lab2/exercises_blank.py:40-41 | for `shift <= window < L` there is at least one frame, and `num_frames*shift < L` |
| Framing.Frame | lab2/exercises_blank.py:32-54 | a zero shift raises ZeroDivisionError, and a positive one raises ValueError exactly when `L + 2*shift <= window`; otherwise the result has `FrameCount` rows of `window` samples, element `[i][j]` being padded sample `i*shift + j` (the signal, then zeros) times coefficient `j` |
| Framing.PaddedFrameRow | lab2/exercises_blank.py:41-50 | the slice `pad_signal[i*shift : i*shift + window]` lies inside the padded signal, and windowed it is row `i` of `FrameMatrix` |
| Framing.FrameRows | lab2/exercises_blank.py:39-50 | the padding and the row-by-row loop fill a matrix that satisfies `FramesOf`: `FrameCount` rows, element `[i][j]` the padded sample `i*shift + j` times coefficient `j` |
| Framing.FramesOfUnique | lab2/exercises_blank.py:46-50 | the frame matrix of a signal is unique, so the method's matrix is the function `FrameMatrix` |
| Framing.FrameMatrix | lab2/exercises_blank.py:39-50 | the frame matrix as a value: it satisfies `FramesOf` (`FrameCount` rows of `window` samples, element `[i][j]` the padded sample `i*shift + j` times coefficient `j`), so by `FramesOfUnique` it is the matrix `Framing.Frame` returns |
| Framing.FrameEnergy | lab2/exercises_blank.py:62 | one energy per frame, entry `i` the sum of row `i` |
| Framing.Squared | lab2/exercises_blank.py:130 | the squared signal has the signal's length and no negative sample |
| Framing.EnergyOfSquaredSignalNonNegative | lab2/exercises_blank.py:130-136 | framing the squared signal with non-negative window coefficients gives non-negative energies |
| Framing.PaddingFrameHasZeroEnergy | lab2/exercises_blank.py:41-62 | a frame starting at or past the signal's end lies in the zero padding and has energy 0 |
| VadDecision.FrameDecision | lab2/exercises_blank.py:148 | one mark per posterior; mark `i` is 1.0 exactly when `g0[i] < vad_thr` and 0.0 exactly otherwise |
| VadDecision.DecisionMonotoneInThreshold | lab2/exercises_blank.py:148 | raising the threshold never turns a speech frame into a non-speech one |
| VadDecision.FrameFill | lab2/exercises_blank.py:150-152 | the markup after `k` passes of the slice-write loop over a zero array keeps the signal's `L` samples; `FrameFillInSlot` and `FrameFillBeyond` give its contents, and it is the loop invariant of `VadDecision.UpsampleMarkup` |
| VadDecision.SlotIsUnique | lab2/exercises_blank.py:152 | a sample in the slot `[q*shift, q*shift + shift)` of frame `q` has `q == t / shift` |
| VadDecision.FrameFillInSlot | lab2/exercises_blank.py:151-152 | after `k` loop passes, a sample in the slot of frame `q < k` holds frame `q`'s mark: the slot writes are disjoint |
| VadDecision.FrameFillBeyond | lab2/exercises_blank.py:150-152 | after `k` loop passes, every sample at or past `k*shift` is still 0.0 |
| VadDecision.TailStart | lab2/exercises_blank.py:154 | the tail write starts at `num_frames*shift` when that is below `L`, at `num_frames*shift - L` up to `2L`, and at `L` (nothing written) beyond |
| VadDecision.Upsample | lab2/exercises_blank.py:150-154 | the block fails with IndexError exactly when there is no frame mark, and otherwise yields `L` samples |
| VadDecision.UpsampleAt | lab2/exercises_blank.py:150-154 | sample `t` holds the last mark from the tail start on, and before it frame `q`'s mark inside frame `q`'s slot; the tail never starts after the last slot ends, so every sample past the slots holds the last mark |
| VadDecision.UpsampleMarkup | lab2/exercises_blank.py:150-154 | the loop of slice writes and the tail write produce exactly `Upsample` |
| VadDecision.UpsampleBinary | lab2/exercises_blank.py:148-154 | binary frame marks give a binary sample markup |
| VadDecision.UpsampleSlotsInside | lab2/exercises_blank.py:154 | when `num_frames*shift < L` the tail starts exactly at `num_frames*shift`: samples in a slot keep their frame's mark, and exactly the later ones take the last mark |
| VadDecision.UpsampleLongSignal | lab2/exercises_blank.py:150-154 | for `shift <= window < L` there is a frame, every sample in frame `q`'s slot holds mark `q`, and exactly the samples from `num_frames*shift` to `L-1` hold the last mark |
| VadDecision.UpsampleSlotsPastEnd | lab2/exercises_blank.py:154 | when `num_frames*shift >= L` every sample lies in a frame slot, and the samples from `num_frames*shift - L` on are overwritten with the last mark (all of them when that start is 0) |
| VadDecision.OneWindowSignalRaisesIndexError | lab2/exercises_blank.py:154 | upsampling the marks of a signal fails exactly when the signal is one window long |
| VadDecision.UpsampleIntended | lab2/exercises_blank.py:154 | the intended tail write from `num_frames*shift`: fails exactly without frames, otherwise yields `L` samples |
| VadDecision.UpsampleIntendedAt | lab2/exercises_blank.py:154 | with the intended tail every sample in frame `q`'s slot holds mark `q` for any signal length, and exactly the samples past the last slot hold the last mark |
| VadDecision.TailAsWrittenMatchesIntended | lab2/exercises_blank.py:154 | for `shift <= window < L` the tail as written and the intended tail give the same markup |
| VadDecision.TailOverwritesShortSignal | lab2/exercises_blank.py:154 | for `L = 150`, `window = 300`, `shift = 100` (which passes `np.zeros(shape)`) and marks `[1, 0]`, sample 50 of frame 0's slot ends as 0 as written but 1 as intended |
| VadMarkup.LoadVadMarkup | lab2/exercises_blank.py:14-27 | the markup has one entry per signal sample; entry `t` is 1.0 exactly when some segment covers `t` after slice clamping, and 0.0 exactly when none does |
| EnergyVad.VadMarkup | lab2/exercises_blank.py:130-154 | the pipeline's markup before the morphological filters stops with ValueError exactly when `L + 2*shift <= window`, and otherwise, when it succeeds, has one entry per signal sample |
| EnergyVad.EnergyGmmVad | lab2/exercises_blank.py:126-154 | a zero shift raises ZeroDivisionError; otherwise the result is `VadMarkup`, framing's ValueError included: squared signal, framing, energies, posterior, threshold, upsampling |
| EnergyVad.VadFailureCases | lab2/exercises_blank.py:133-154 | the pipeline fails with ValueError exactly when `L + 2*shift <= window`, with IndexError exactly when `L == window`, and in no other case |
| EnergyVad.VadLongSignal | lab2/exercises_blank.py:133-154 | for `shift <= window < L`, a sample in frame `q`'s slot is marked 1.0 exactly when frame `q`'s posterior is below the threshold, and a sample past the last slot follows the last frame |

## Findings

| source | as written | input that shows it | evidently intended | confidence | as-written member | corrected member |
|---|---|---|---|---|---|---|
| lab2/exercises_blank.py:154 | the tail write starts at `num_frames*shift - len(signal)`; when the frame slots reach past the signal's end (a signal shorter than the window) that start is not negative, and the write overwrites samples inside earlier frames' slots with the last frame's mark | `L = 150`, `window = 300`, `shift = 100`: two frames, tail start 50; with frame marks `[1, 0]` samples 50..99 of frame 0's slot get 0 | a forward fill of only the samples past the last frame slot, `markup[num_frames*shift:] = last mark` | not executed; medium | VadDecision.TailOverwritesShortSignal | VadDecision.UpsampleIntendedAt |

The two tail writes agree for every signal longer than the window when
`shift <= window` (`VadDecision.TailAsWrittenMatchesIntended`). The
pipeline `EnergyVad.EnergyGmmVad` keeps the tail as written, because it
models the code; `VadDecision.UpsampleIntended` is the corrected definition.

## Left out

- `norm_energy`, `gmm_train` and `eval_frame_post_prob`: floating-point statistics (mean, variance, square root, EM updates, Gaussian densities). Their combined effect is the parameter `posterior` of `EnergyVad.EnergyGmmVad`, required to return one value per frame. The override `n_realignment=10` at line 142 only matters inside the EM stage.
- `np.hamming(window)`: cosine evaluations; the coefficients are the parameter `w` of length `window`.
- `closing` and `opening` from skimage: foreign library calls. `EnergyVad.VadMarkup` is the markup before these filters.
- File reading and parsing in `load_vad_markup`, and the conversions `int(start_time * fs)`: I/O and float-to-sample rounding. `VadMarkup.LoadVadMarkup` takes integer `Segment` bounds. A malformed line raising is not modelled.
- `reverb` (one `np.convolve`) and `awgn` (random noise): outside the core.
- The zero array that line 36 allocates from `shape`: line 46 replaces it with a new array, so only the ValueError it can raise is modelled (`Framing.ShapeRows`).
- Floating point: samples are exact reals, so float32/float64 rounding, overflow and NaN are not modelled. A NaN posterior compares false in the source and gives mark 0. The frame count assumes `float(|L - window|) / shift` is exact, which holds for sample counts below 2^53.
- Framing.Frame: `shift` and `window` are `nat`, so negative values are not modelled. With a negative shift the source raises ValueError for some lengths. For others it returns zero frames without raising, e.g. `L = 300`, `window = 320`, `shift = -160`.
- VadDecision.UpsampleMarkup: requires `shift > 0`. In `energy_gmm_vad` a zero shift has already raised ZeroDivisionError in `framing`.
- The numpy arrays are returned as sequence values, so aliasing of the returned arrays is not modelled; no caller in the source mutates them.
