/**
 * The retry loop of `call_model`, driven by the outcome of each attempt instead
 * of by HTTP. Sleeps are recorded as a schedule of seconds; nothing waits.
 */
module Retry {
  import opened Wrappers
  import opened Json

  const MaxRetries: nat := 5
  const BaseWait: nat := 30
  /** Pause after a 200 reply whose content held no list (line 262), and the
      pause at the bottom of every attempt that reaches it (line 272). */
  const ShortPause: nat := 2
  const ServerErrorWait: nat := 10
  const NetworkErrorWait: nat := 5

  /** The body of an HTTP response, as far as a 200 reply is read. */
  datatype Body =
    | Undecodable                   // `response.json()` raised
    | Decoded(extracted: Option<Json>) // what the extractor made of the reply's text

  /** What one `requests.post` produced. */
  datatype Attempt =
    | NetworkError                  // a `requests.exceptions.RequestException`
    | Response(code: int, body: Body)

  /** How one attempt ends: with a list, or with the pauses before the next attempt. */
  datatype Step = Done(result: seq<Json>) | Again(waits: seq<nat>)

  datatype CallResult = CallResult(result: seq<Json>, waits: seq<nat>, attempts: nat)

  function Pow2(n: nat): (p: nat)
    ensures p >= 1
  {
    if n == 0 then 1 else 2 * Pow2(n - 1)
  }

  /** The backoff after a 429 on attempt `a` (counted from 0). */
  function RateLimitWait(a: nat): nat
  {
    BaseWait * Pow2(a)
  }

  /** A 200 reply whose extracted value is a list. */
  predicate IsListReply(o: Attempt)
  {
    o.Response? && o.code == 200 && o.body.Decoded? && o.body.extracted.Some? && o.body.extracted.value.JArray?
  }

  function AttemptStep(a: nat, o: Attempt): (s: Step)
    ensures s.Done? <==> IsListReply(o)
  {
    match o
    case NetworkError => Again([NetworkErrorWait, ShortPause])
    case Response(code, body) =>
      if code == 200 then
        match body
        case Undecodable => Again([])
        case Decoded(v) =>
          if v.Some? && v.value.JArray? then Done(v.value.elems) else Again([ShortPause, ShortPause])
      else if code == 429 then Again([RateLimitWait(a)])
      else if code >= 500 then Again([ServerErrorWait])
      else Again([ShortPause])
  }

  /** The pauses attempt `a` adds to the schedule. */
  function AttemptWaits(a: nat, o: Attempt): seq<nat>
  {
    match AttemptStep(a, o)
    case Done(_) => []
    case Again(w) => w
  }

  /** The call from attempt `a` on. */
  function RetryFrom(outcomes: seq<Attempt>, a: nat): (r: CallResult)
    requires |outcomes| >= MaxRetries && a <= MaxRetries
    ensures r.attempts <= MaxRetries
    ensures a < MaxRetries ==> a < r.attempts
    decreases MaxRetries - a
  {
    if a == MaxRetries then CallResult([], [], a)
    else match AttemptStep(a, outcomes[a])
      case Done(result) => CallResult(result, [], a + 1)
      case Again(w) =>
        var rest := RetryFrom(outcomes, a + 1);
        CallResult(rest.result, w + rest.waits, rest.attempts)
  }

  /** The result of the remaining attempts, after the pauses `w` already made. */
  function After(w: seq<nat>, r: CallResult): CallResult
  {
    CallResult(r.result, w + r.waits, r.attempts)
  }

  lemma RetryUnfold(outcomes: seq<Attempt>, a: nat, w: seq<nat>)
    requires |outcomes| >= MaxRetries && a < MaxRetries
    requires AttemptStep(a, outcomes[a]).Again?
    ensures After(w, RetryFrom(outcomes, a)) ==
            After(w + AttemptStep(a, outcomes[a]).waits, RetryFrom(outcomes, a + 1))
  {
  }

  /** What `call_model` returns, how long it pauses and how many requests it makes. */
  function Policy(outcomes: seq<Attempt>): CallResult
    requires |outcomes| >= MaxRetries
  {
    RetryFrom(outcomes, 0)
  }

  method CallModel(outcomes: seq<Attempt>) returns (result: seq<Json>, waits: seq<nat>, attempts: nat)
    requires |outcomes| >= MaxRetries
    ensures CallResult(result, waits, attempts) == Policy(outcomes)
  {
    waits := [];
    var attempt := 0;
    while attempt < MaxRetries
      invariant 0 <= attempt <= MaxRetries
      invariant Policy(outcomes) == After(waits, RetryFrom(outcomes, attempt))
    {
      ghost var step := AttemptStep(attempt, outcomes[attempt]);
      ghost var before := waits;
      if step.Again? {
        RetryUnfold(outcomes, attempt, waits);
      }
      match outcomes[attempt] {
        case NetworkError =>
          waits := waits + [NetworkErrorWait];
        case Response(code, body) =>
          if code == 200 {
            if body.Undecodable? {
              assert waits == before + step.waits;
              attempt := attempt + 1;
              continue;
            }
            var parsed := body.extracted;
            if parsed.Some? && parsed.value.JArray? {
              return parsed.value.elems, waits, attempt + 1;
            } else {
              waits := waits + [ShortPause];
            }
          } else if code == 429 {
            waits := waits + [RateLimitWait(attempt)];
            assert waits == before + step.waits;
            attempt := attempt + 1;
            continue;
          } else if code >= 500 {
            waits := waits + [ServerErrorWait];
            assert waits == before + step.waits;
            attempt := attempt + 1;
            continue;
          }
      }
      waits := waits + [ShortPause];
      assert waits == before + step.waits;
      attempt := attempt + 1;
    }
    return [], waits, MaxRetries;
  }

  // ----- properties -----

  /** The pauses of attempts `a` up to (not including) `b`. */
  function WaitsBetween(outcomes: seq<Attempt>, a: nat, b: nat): seq<nat>
    requires b <= |outcomes|
    decreases b - a
  {
    if a >= b then [] else AttemptWaits(a, outcomes[a]) + WaitsBetween(outcomes, a + 1, b)
  }

  /** Without a list reply the call makes all five attempts and returns the
      empty list. */
  lemma {:induction false} NoListExhausts(outcomes: seq<Attempt>, a: nat)
    requires |outcomes| >= MaxRetries && a <= MaxRetries
    requires forall k :: a <= k < MaxRetries ==> !IsListReply(outcomes[k])
    ensures RetryFrom(outcomes, a).result == [] && RetryFrom(outcomes, a).attempts == MaxRetries
    decreases MaxRetries - a
  {
    if a < MaxRetries {
      NoListExhausts(outcomes, a + 1);
    }
  }

  /** The first list reply decides the result and ends the call. */
  lemma {:induction false} FirstListWins(outcomes: seq<Attempt>, a: nat, f: nat)
    requires |outcomes| >= MaxRetries && a <= f < MaxRetries
    requires IsListReply(outcomes[f]) && forall k :: a <= k < f ==> !IsListReply(outcomes[k])
    ensures RetryFrom(outcomes, a).result == outcomes[f].body.extracted.value.elems
    ensures RetryFrom(outcomes, a).attempts == f + 1
    decreases f - a
  {
    if a < f {
      FirstListWins(outcomes, a + 1, f);
    }
  }

  /** `call_model` makes between one and five requests; its result is the list
      of the first list reply, or [] once the attempts run out. */
  lemma CallModelContract(outcomes: seq<Attempt>)
    requires |outcomes| >= MaxRetries
    ensures 1 <= Policy(outcomes).attempts <= MaxRetries
    ensures (forall k :: 0 <= k < MaxRetries ==> !IsListReply(outcomes[k])) ==>
              Policy(outcomes).result == [] && Policy(outcomes).attempts == MaxRetries
    ensures forall f :: 0 <= f < MaxRetries && IsListReply(outcomes[f]) &&
                        (forall k :: 0 <= k < f ==> !IsListReply(outcomes[k])) ==>
              Policy(outcomes).result == outcomes[f].body.extracted.value.elems &&
              Policy(outcomes).attempts == f + 1
  {
    if forall k :: 0 <= k < MaxRetries ==> !IsListReply(outcomes[k]) {
      NoListExhausts(outcomes, 0);
    }
    forall f | 0 <= f < MaxRetries && IsListReply(outcomes[f]) &&
               (forall k :: 0 <= k < f ==> !IsListReply(outcomes[k]))
      ensures Policy(outcomes).result == outcomes[f].body.extracted.value.elems &&
              Policy(outcomes).attempts == f + 1
    {
      FirstListWins(outcomes, 0, f);
    }
  }

  /** The schedule is the pauses of each attempt made, in order. */
  lemma {:induction false} WaitSchedule(outcomes: seq<Attempt>, a: nat)
    requires |outcomes| >= MaxRetries && a <= MaxRetries
    ensures RetryFrom(outcomes, a).waits == WaitsBetween(outcomes, a, RetryFrom(outcomes, a).attempts)
    decreases MaxRetries - a
  {
    if a < MaxRetries {
      var r := RetryFrom(outcomes, a);
      if AttemptStep(a, outcomes[a]).Done? {
        assert WaitsBetween(outcomes, a + 1, a + 1) == [];
      } else {
        WaitSchedule(outcomes, a + 1);
      }
    }
  }

  /** A 429 on attempt `a` pauses 30·2^a seconds and nothing else. */
  lemma RateLimitPause(a: nat, o: Attempt)
    requires o.Response? && o.code == 429
    ensures AttemptWaits(a, o) == [BaseWait * Pow2(a)]
  {
  }

  lemma {:induction false} Pow2Grows(a: nat, b: nat)
    requires a < b
    ensures Pow2(a) < Pow2(b)
    decreases b - a
  {
    if a + 1 < b {
      Pow2Grows(a + 1, b);
    }
  }

  /** Rate-limit pauses strictly increase with the attempt number. */
  lemma RateLimitWaitsIncrease(a: nat, b: nat)
    requires a < b
    ensures RateLimitWait(a) < RateLimitWait(b)
  {
    Pow2Grows(a, b);
  }

  /** Three rate limits and then a list reply: the list is returned after four
      requests, and the three backoffs grow 30, 60, 120. */
  lemma ThreeRateLimitsThenList(body: Body, xs: seq<Json>, last: Attempt)
    ensures var outcomes := [Response(429, body), Response(429, body), Response(429, body),
                             Response(200, Decoded(Some(JArray(xs)))), last];
            Policy(outcomes) == CallResult(xs, [30, 60, 120], 4)
  {
  }
}
