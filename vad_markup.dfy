/** The filling loop of `load_vad_markup` (lab2/exercises_blank.py): a
    float32 zero array as long as the signal, with every annotated segment
    `[start_sample, end_sample)` set to 1.0. */
module VadMarkup {
  import opened PySlice

  /** One annotated speech segment, already converted to sample indices
      (`int(start_time * fs)` and `int((start_time + duration) * fs)`). */
  datatype Segment = Segment(startSample: int, endSample: int)

  /** Sample `t` of a markup of `n` samples falls inside `segment` once its
      bounds are read as a Python slice. */
  predicate Covers(n: nat, segment: Segment, t: nat) {
    Bound(n, segment.startSample) <= t < Bound(n, segment.endSample)
  }

  /** `load_vad_markup` after its file has been parsed into `segments`: the
      markup has one entry per signal sample, 1.0 exactly at the samples
      some segment covers and 0.0 everywhere else. */
  method LoadVadMarkup(signal: seq<real>, segments: seq<Segment>) returns (markup: seq<real>)
    ensures |markup| == |signal|
    ensures forall t :: 0 <= t < |signal| ==>
      (markup[t] == 1.0 <==> exists k :: 0 <= k < |segments| && Covers(|signal|, segments[k], t))
    ensures forall t :: 0 <= t < |signal| ==>
      (markup[t] == 0.0 <==> forall k :: 0 <= k < |segments| ==> !Covers(|signal|, segments[k], t))
  {
    var n := |signal|;
    var vadMarkup := new real[n](_ => 0.0);
    var i := 0;
    while i < |segments|
      invariant 0 <= i <= |segments|
      invariant forall t :: 0 <= t < n ==>
        vadMarkup[t] == if exists k :: 0 <= k < i && Covers(n, segments[k], t) then 1.0 else 0.0
    {
      ghost var before := vadMarkup[..];
      FillSlice(vadMarkup, segments[i].startSample, segments[i].endSample, 1.0);
      forall t | 0 <= t < n
        ensures vadMarkup[t] == if exists k :: 0 <= k < i + 1 && Covers(n, segments[k], t) then 1.0 else 0.0
      {
        assert vadMarkup[t] == vadMarkup[..][t];
        if Covers(n, segments[i], t) {
          assert vadMarkup[t] == 1.0;
        } else {
          assert vadMarkup[t] == before[t];
        }
      }
      i := i + 1;
    }
    markup := vadMarkup[..];
  }
}
