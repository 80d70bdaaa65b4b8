/** Distances covered by equal steps, kept free of multiplication so that each step is a simple addition. */
module Spans {
  function Span(step: nat, k: nat): nat {
    if k == 0 then 0 else Span(step, k - 1) + step
  }

  lemma {:induction false} SpanIsProduct(step: nat, k: nat)
    ensures Span(step, k) == step * k
  {
    if k > 0 {
      SpanIsProduct(step, k - 1);
      assert step * (k - 1) + step == step * k;
    }
  }

  lemma {:induction false} SpanMonotone(step: nat, j: nat, k: nat)
    requires j <= k
    ensures Span(step, j) <= Span(step, k)
    ensures j < k ==> Span(step, j) + step <= Span(step, k)
  {
    if j < k {
      SpanMonotone(step, j, k - 1);
    }
  }

  lemma {:induction false} SpanAdd(step: nat, i: nat, j: nat)
    ensures Span(step, i + j) == Span(step, i) + Span(step, j)
  {
    if j > 0 {
      SpanAdd(step, i, j - 1);
    }
  }

  lemma {:induction false} SpanSpan(n: nat, x: nat, k: nat)
    ensures Span(Span(n, x), k) == Span(n, Span(x, k))
  {
    if k > 0 {
      SpanSpan(n, x, k - 1);
      SpanAdd(n, Span(x, k - 1), x);
    }
  }

  /** An offset lies in one step only. */
  lemma PlaceInStep(n: nat, a: nat, k: nat, b: nat, l: nat)
    requires k < n && l < n && Span(n, a) + k == Span(n, b) + l
    ensures a == b && k == l
  {
    if a < b {
      SpanMonotone(n, a, b);
    } else if b < a {
      SpanMonotone(n, b, a);
    }
  }

  /** Every offset within k steps is in one of them. */
  lemma {:induction false} SpanLocate(step: nat, k: nat, t: nat) returns (q: nat, r: nat)
    requires t < Span(step, k)
    ensures q < k && r < step && t == Span(step, q) + r
  {
    if t < Span(step, k - 1) {
      q, r := SpanLocate(step, k - 1, t);
    } else {
      q, r := k - 1, t - Span(step, k - 1);
    }
  }
}
