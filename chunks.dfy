/** Cutting a list into consecutive pieces of a fixed size, as
    `xs[i : i + k] for i in range(0, len(xs), k)` does: the clean-prose
    paragraphs and the batches of the translator are both made this way. */
module Chunking {
  import opened Strings

  /** Consecutive runs of `k` items, the last one possibly shorter
      (`xs[i : i + k]` for `i` in `range(0, len(xs), k)`). */
  function Chunks<T>(xs: seq<T>, k: nat): seq<seq<T>>
    requires k >= 1
    decreases |xs|
  {
    if xs == [] then []
    else
      var m := if |xs| < k then |xs| else k;
      [xs[..m]] + Chunks(xs[m..], k)
  }

  /** The chunks from position `i` on: the window at `i`, then the chunks
      after it. */
  lemma ChunksFront<T>(xs: seq<T>, i: nat, k: nat)
    requires k >= 1 && i < |xs|
    ensures var j := if i + k < |xs| then i + k else |xs|;
      Chunks(xs[i..], k) == [xs[i..j]] + Chunks(xs[j..], k)
  {
    var rest := xs[i..];
    var m := if |rest| < k then |rest| else k;
    assert rest[..m] == xs[i..i + m];
    assert rest[m..] == xs[i + m..];
  }

  /** The chunks hold the items in order; there are `ceil(n / k)` of them;
      each holds between one and `k` items, and all but the last exactly `k`. */
  lemma {:induction false} ChunksShape<T>(xs: seq<T>, k: nat)
    requires k >= 1
    ensures var cs := Chunks(xs, k);
      && Flatten(cs) == xs
      && |cs| == (|xs| + k - 1) / k
      && (forall j | 0 <= j < |cs| :: 1 <= |cs[j]| <= k)
      && (forall j | 0 <= j < |cs| - 1 :: |cs[j]| == k)
    decreases |xs|
  {
    if xs == [] {
      DivUnique(k - 1, k, 0);
    } else {
      var m := if |xs| < k then |xs| else k;
      ChunksShape(xs[m..], k);
      assert xs == xs[..m] + xs[m..];
      var cs := Chunks(xs, k);
      assert cs == [xs[..m]] + Chunks(xs[m..], k);
      CeilStep(|xs|, k);
    }
  }

  /** One chunk less: `ceil(n / k) == 1 + ceil((n - min(n, k)) / k)`. */
  lemma CeilStep(n: nat, k: nat)
    requires n >= 1 && k >= 1
    ensures (n + k - 1) / k == 1 + ((n - (if n < k then n else k)) + k - 1) / k
  {
    if n < k {
      DivUnique(n + k - 1, k, 1);
      DivUnique(k - 1, k, 0);
    } else {
      DivUnique(n + k - 1, k, (n - 1) / k + 1);
    }
  }

  /** The quotient is the one `q` with `q * k <= a < q * k + k`. */
  lemma DivUnique(a: int, k: int, q: int)
    requires k >= 1 && q * k <= a < q * k + k
    ensures a / k == q
  {
    var d := a / k;
    assert a == d * k + a % k && 0 <= a % k < k;
    MulStep(d, q, k);
    MulStep(q, d, k);
  }

  lemma MulStep(a: int, b: int, k: int)
    requires k >= 0
    ensures a < b ==> a * k + k <= b * k
  {
    if a < b {
      var c := b - a - 1;
      assert c * k >= 0;
      assert b * k == a * k + k + c * k;
    }
  }
}
