/** Integer facts about frame starts `i * shift` that the solver does not
    find on its own (they are non-linear in the shift). */
module IndexArith {

  lemma MulMonotone(a: nat, b: nat, s: nat)
    requires a <= b
    ensures a * s <= b * s
  {
  }

  lemma MulSucc(a: nat, s: nat)
    ensures (a + 1) * s == a * s + s
  {
  }

  /** A sample `t` with `q * s <= t < q * s + s` belongs to frame slot `q`. */
  lemma {:induction false} DivWithin(t: nat, s: nat, q: nat)
    requires s > 0
    requires q * s <= t < q * s + s
    ensures t / s == q
  {
    var d, r := t / s, t % s;
    assert t == d * s + r && 0 <= r < s;
    MulSucc(d, s);
    MulSucc(q, s);
    if d < q {
      MulMonotone(d + 1, q, s);
    }
    if q < d {
      MulMonotone(q + 1, d, s);
    }
  }

  /** A sample before `k * s` lies in one of the first `k` slots. */
  lemma {:induction false} DivBelow(t: nat, s: nat, k: nat)
    requires s > 0
    requires t < k * s
    ensures t / s < k
  {
    var d := t / s;
    assert d * s <= t;
    if d >= k {
      MulMonotone(k, d, s);
    }
  }

  /** `ceil(d / s)` for a non-negative integer `d`, the least `n` with
      `n * s >= d`. */
  function CeilDiv(d: nat, s: nat): (n: nat)
    requires s > 0
    ensures n * s >= d
    ensures n == 0 || (n - 1) * s < d
  {
    var n := (d + s - 1) / s;
    var r := (d + s - 1) % s;
    assert d + s - 1 == n * s + r && 0 <= r < s;
    assert n > 0 ==> (n - 1) * s == n * s - s;
    n
  }

  /** No smaller count than `CeilDiv(d, s)` reaches `d`. */
  lemma {:induction false} CeilDivIsLeast(d: nat, s: nat, m: nat)
    requires s > 0
    requires m * s >= d
    ensures CeilDiv(d, s) <= m
  {
    var n := CeilDiv(d, s);
    if m < n {
      MulMonotone(m, n - 1, s);
    }
  }
}
