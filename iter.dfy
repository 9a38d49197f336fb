/** The iterator adaptors of Rust's standard library that the loader chains
    together, as functions on finite sequences: each yields exactly the
    elements the adaptor would yield before it is exhausted. */
module Iter {

  /** `iter.skip(n)`: drops the first `n` elements, or all of them when there
      are fewer than `n`. */
  function Skip<T>(s: seq<T>, n: nat): (r: seq<T>)
    ensures |r| == if n <= |s| then |s| - n else 0
    ensures forall k :: 0 <= k < |r| ==> r[k] == s[n + k]
    decreases n
  {
    if n == 0 || s == [] then s else Skip(s[1..], n - 1)
  }

  /** `iter.step_by(step)`: yields the first element, then every `step`-th
      element after it. Rust panics when `step` is zero. */
  function StepBy<T>(s: seq<T>, step: nat): (r: seq<T>)
    requires step > 0
    ensures |r| == (|s| + step - 1) / step
    decreases |s|
  {
    if s == [] then []
    else if |s| < step then
      DivSingle(|s|, step);
      [s[0]]
    else
      DivStep(|s| - step, step);
      [s[0]] + StepBy(s[step..], step)
  }

  /** Up to `step` input elements make `step_by` yield exactly one. */
  lemma DivSingle(n: nat, step: nat)
    requires 0 < n <= step
    ensures (n + step - 1) / step == 1
  {
    var x := n + step - 1;
    var q, r := x / step, x % step;
    assert (q - 1) * step == step - 1 + n - step - r by {
      assert x == q * step + r;
    }
    if q - 1 >= 1 {
      MulMonotone(q - 1, step);
    } else if q - 1 <= -1 {
      MulMonotone(1 - q, step);
    }
  }

  /** The count `step_by` yields grows by one for every `step` more elements. */
  lemma DivStep(n: nat, step: nat)
    requires step > 0
    ensures (n + step + step - 1) / step == (n + step - 1) / step + 1
  {
    var x := n + step - 1;
    var q, r := x / step, x % step;
    var q', r' := (x + step) / step, (x + step) % step;
    assert (q' - q - 1) * step == r - r' by {
      assert x == q * step + r;
      assert x + step == q' * step + r';
      assert (q' - q - 1) * step == q' * step - q * step - step;
    }
    if q' - q - 1 >= 1 {
      MulMonotone(q' - q - 1, step);
    }
  }

  /** A positive multiple of `step` is at least `step`. */
  lemma MulMonotone(m: int, step: nat)
    requires m >= 1
    ensures m * step >= step
  {
  }

  /** The element `step_by` yields in position `k` is the input's element
      in position `k * step`. */
  lemma {:induction false} StepByAt<T>(s: seq<T>, step: nat, k: nat)
    requires step > 0 && k < |StepBy(s, step)|
    ensures k * step < |s| && StepBy(s, step)[k] == s[k * step]
    decreases k
  {
    if k > 0 {
      assert step <= |s|;
      assert StepBy(s, step)[k] == StepBy(s[step..], step)[k - 1];
      StepByAt(s[step..], step, k - 1);
      assert (k - 1) * step + step == k * step;
    }
  }

  /** `a.zip(b)`: pairs up the elements of the two sequences and stops at
      the end of the shorter one. */
  function Zip<A, B>(a: seq<A>, b: seq<B>): (z: seq<(A, B)>)
    ensures |z| == if |a| <= |b| then |a| else |b|
    ensures forall k :: 0 <= k < |z| ==> z[k] == (a[k], b[k])
    decreases |a|
  {
    if a == [] || b == [] then [] else [(a[0], b[0])] + Zip(a[1..], b[1..])
  }
}
