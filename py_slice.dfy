/** Python's slice rules as numpy applies them to a one-dimensional float
    array in the statement `a[lo:hi] = v`, and the two exceptions the
    modelled VAD code can raise. */
module PySlice {

  /** The exceptions raised by the modelled code: `x / 0` in framing,
      `np.zeros` of a negative dimension in framing, and `x[-1]` on an empty
      array in the upsampling block. */
  datatype PyError = ZeroDivisionError | ValueError | IndexError

  datatype Result<T> = Ok(value: T) | Err(error: PyError)

  /** `np.zeros(n)`. */
  function Zeros(n: nat): (z: seq<real>)
    ensures |z| == n
    ensures forall t :: 0 <= t < n ==> z[t] == 0.0
  {
    seq(n, _ => 0.0)
  }

  /** `n` copies of `v`: what a scalar broadcasts to over a slice of length n. */
  function Repeat(v: real, n: nat): (r: seq<real>)
    ensures |r| == n
    ensures forall t :: 0 <= t < n ==> r[t] == v
  {
    seq(n, _ => v)
  }

  /** The position that slice bound `i` denotes in a sequence of length `n`:
      a negative bound counts back from the end, and what remains outside
      [0, n] is clamped to the nearer end. */
  function Bound(n: nat, i: int): (k: nat)
    ensures k <= n
    ensures 0 <= i <= n ==> k == i
    ensures n < i ==> k == n
    ensures i < 0 && 0 <= n + i ==> k == n + i
    ensures n + i < 0 ==> k == 0
  {
    var j := if i < 0 then n + i else i;
    if j < 0 then 0 else if j > n then n else j
  }

  /** The value of `a` after `a[lo:hi] = v`: the clamped slice is replaced by
      copies of `v`; an empty or reversed slice leaves `a` as it was. */
  function SliceAssign(a: seq<real>, lo: int, hi: int, v: real): (r: seq<real>)
    ensures |r| == |a|
    ensures forall t :: 0 <= t < |a| ==>
      r[t] == if Bound(|a|, lo) <= t < Bound(|a|, hi) then v else a[t]
  {
    var start, stop := Bound(|a|, lo), Bound(|a|, hi);
    if start < stop then a[..start] + Repeat(v, stop - start) + a[stop..] else a
  }

  /** With non-negative bounds, a sample inside `[lo, hi)` takes `v`. */
  lemma SliceAssignInside(a: seq<real>, lo: nat, hi: nat, v: real, t: nat)
    requires lo <= t < hi && t < |a|
    ensures SliceAssign(a, lo, hi, v)[t] == v
  {
  }

  /** With non-negative bounds, a sample outside `[lo, hi)` is unchanged. */
  lemma SliceAssignOutside(a: seq<real>, lo: nat, hi: nat, v: real, t: nat)
    requires (t < lo || hi <= t) && t < |a|
    ensures SliceAssign(a, lo, hi, v)[t] == a[t]
  {
  }

  /** The slice assignment `a[lo:hi] = v` performed in place on a numpy
      array; the simultaneous `forall` write is numpy's vectorised store. */
  method FillSlice(a: array<real>, lo: int, hi: int, v: real)
    modifies a
    ensures a[..] == SliceAssign(old(a[..]), lo, hi, v)
  {
    var start, stop := Bound(a.Length, lo), Bound(a.Length, hi);
    forall t | start <= t < stop {
      a[t] := v;
    }
  }
}
