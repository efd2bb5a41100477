/**
 * The model roster and the batch schedule of `main`: each model's article list
 * is cut into contiguous batches of its own size, and rounds visit the batch
 * index `k` of every model in declaration order.
 */
module Batching {
  import opened Seqs

  datatype Api = Fyra | OpenRouter | Groq | Mistral | Google

  datatype ModelSpec = ModelSpec(name: string, display: string, batchSize: nat, api: Api)

  /** The ensemble, in declaration order. */
  const Models: seq<ModelSpec> := [
    ModelSpec("kimi-k2-instruct-0905", "Kimi-K2-Instruct", 50, Fyra),
    ModelSpec("meta-llama/llama-3.3-70b-instruct", "Llama-3.3-70B", 50, OpenRouter),
    ModelSpec("qwen/qwen3-32b", "Qwen-3-32B", 25, Groq),
    ModelSpec("openai/gpt-oss-120b", "GPT-OSS-120B", 25, Groq),
    ModelSpec("mistral-small-latest", "Mistral-Small", 40, Mistral),
    ModelSpec("gemini-2.5-flash-lite", "Gemini-2.5-Flash-Lite", 100, Google)
  ]

  /** The cap on the number of rounds. */
  const MaxBatchesLimit: nat := 20

  predicate PositiveSizes(models: seq<ModelSpec>)
  {
    forall m :: 0 <= m < |models| ==> models[m].batchSize > 0
  }

  /** The number of batches `range(0, n, bs)` yields. */
  function BatchCount(n: nat, bs: nat): nat
    requires bs > 0
    decreases n
  {
    if n == 0 then 0 else if n <= bs then 1 else 1 + BatchCount(n - bs, bs)
  }

  /** The batch count is the ceiling of `n / bs`. */
  lemma {:induction false} BatchCountIsCeiling(n: nat, bs: nat)
    requires bs > 0
    ensures BatchCount(n, bs) == 0 <==> n == 0
    ensures BatchCount(n, bs) > 0 ==> (BatchCount(n, bs) - 1) * bs < n <= BatchCount(n, bs) * bs
    decreases n
  {
    if n > bs {
      BatchCountIsCeiling(n - bs, bs);
      var c := BatchCount(n - bs, bs);
      assert (c + 1) * bs == c * bs + bs;
      assert c * bs == (c - 1) * bs + bs;
    }
  }

  /** `[xs[i:i + bs] for i in range(0, len(xs), bs)]`. */
  function Batches<T>(xs: seq<T>, bs: nat): (r: seq<seq<T>>)
    requires bs > 0
    ensures |r| == BatchCount(|xs|, bs)
    ensures forall i :: 0 <= i < |r| ==> 0 < |r[i]| <= bs
    ensures forall i :: 0 <= i < |r| - 1 ==> |r[i]| == bs
    decreases |xs|
  {
    if xs == [] then []
    else if |xs| <= bs then [xs]
    else [xs[..bs]] + Batches(xs[bs..], bs)
  }

  /** Concatenating the batches gives back the article list. */
  lemma {:induction false} BatchesConcat<T>(xs: seq<T>, bs: nat)
    requires bs > 0
    ensures Flatten(Batches(xs, bs)) == xs
    decreases |xs|
  {
    if |xs| > bs {
      var r := Batches(xs, bs);
      assert r[1..] == Batches(xs[bs..], bs);
      BatchesConcat(xs[bs..], bs);
      assert xs == xs[..bs] + xs[bs..];
    } else if xs != [] {
      assert Flatten([xs]) == xs + Flatten([]);
    }
  }

  function Min(a: int, b: int): int { if a <= b then a else b }

  /** Batch `k` is the slice `xs[k*bs : (k+1)*bs]`, clipped at the end. */
  lemma {:induction false} BatchAt<T>(xs: seq<T>, bs: nat, k: nat)
    requires bs > 0 && k < |Batches(xs, bs)|
    ensures k * bs < |xs|
    ensures Batches(xs, bs)[k] == xs[k * bs .. Min((k + 1) * bs, |xs|)]
    decreases k
  {
    if |xs| > bs && k > 0 {
      BatchAt(xs[bs..], bs, k - 1);
      assert (k - 1) * bs + bs == k * bs;
      assert k * bs + bs == (k + 1) * bs;
      SliceOfSuffix(xs, bs, (k - 1) * bs, Min(k * bs, |xs| - bs));
    }
  }

  lemma SliceOfSuffix<T>(xs: seq<T>, d: nat, p: nat, q: nat)
    requires d <= |xs| && p <= q <= |xs| - d
    ensures xs[d..][p..q] == xs[d + p .. d + q]
  {
  }

  /** `max(len(b) for b in model_batches.values())`. */
  function MaxBatchCount(n: nat, models: seq<ModelSpec>): (c: nat)
    requires PositiveSizes(models)
    ensures forall m :: 0 <= m < |models| ==> BatchCount(n, models[m].batchSize) <= c
    ensures models != [] ==> exists m :: 0 <= m < |models| && c == BatchCount(n, models[m].batchSize)
  {
    if models == [] then 0
    else
      var rest := MaxBatchCount(n, models[1..]);
      assert forall m :: 1 <= m < |models| ==> models[m] == models[1..][m - 1];
      var first := BatchCount(n, models[0].batchSize);
      if first >= rest then first else rest
  }

  /** `min(MAX_BATCHES_LIMIT, max_batch_count)`. */
  function Rounds(n: nat, models: seq<ModelSpec>): (r: nat)
    requires PositiveSizes(models)
    ensures r <= MaxBatchesLimit
    ensures forall m :: 0 <= m < |models| ==> Min(MaxBatchesLimit, BatchCount(n, models[m].batchSize)) <= r
  {
    Min(MaxBatchesLimit, MaxBatchCount(n, models))
  }

  /** Every batch size of the roster is positive. */
  lemma RosterSizesPositive()
    ensures PositiveSizes(Models)
  {
  }
}
