/** The concurrency-limited work pool of `runWithConcurrency`: `min(K, N)`
    cooperative workers share one `cursor`; each claims `index = cursor++`,
    stops once the index is past the end, and otherwise awaits
    `worker(items[index], index)` and stores it in `results[index]`.

    Under cooperative scheduling the claim cannot be interleaved, so the only
    freedom is the order in which awaited calls complete. A `schedule` says
    which in-flight worker completes next; everything below holds for every
    schedule. A call that rejects ends its worker (the exception leaves its
    loop) and is what `Promise.all` reports if it is the first to reject; the
    other workers are not cancelled and keep claiming. */
module WorkPool {
  import opened Wrappers

  /** Why `runWithConcurrency` throws. */
  datatype PoolFailure<+E> = NonPositiveConcurrency | WorkerRejected(cause: E)

  /** The shared state of one `runWithConcurrency` call. */
  class Pool<T, R, E> {
    const items: seq<T>
    const work: (T, nat) -> Result<R, E>
    /** `Math.min(concurrency, items.length)`: the number of workers started. */
    const width: nat
    /** `new Array(items.length)`; `None` is a hole. */
    const results: array<Option<R>>
    var cursor: nat
    /** The index each live worker is awaiting, one entry per live worker. */
    var inFlight: seq<nat>
    /** The first rejection, in completion order. */
    var failure: Option<E>

    /** The indices claimed below `items.length`, in claim order. */
    ghost var claims: seq<nat>
    /** Indices whose call rejected. */
    ghost var rejected: set<nat>
    /** One index with `work(items[i], i) == Err(failure.value)`. */
    ghost var firstRejected: nat
    /** Workers that left their loop because the claimed index was past the end. */
    ghost var exhausted: nat

    ghost predicate Valid()
      reads this, results
    {
      && Consistent()
      && |inFlight| + exhausted + |rejected| == width
      // a single worker runs the items in order, so everything before the
      // first rejection succeeded
      && (width == 1 && failure.Some? ==> forall i :: 0 <= i < firstRejected ==> results[i].Some?)
    }

    /** Everything `Valid` says except how many workers are live: this much
        already holds while the workers are being started. */
    ghost predicate Consistent()
      reads this, results
    {
      && results.Length == |items|
      && width <= |items| && (|items| > 0 ==> width > 0)
      && |claims| <= |items|
      && (forall k :: 0 <= k < |claims| ==> claims[k] == k)
      && cursor == |claims| + exhausted
      && (exhausted > 0 ==> |claims| == |items|)
      && (forall k :: 0 <= k < |inFlight| ==> inFlight[k] < |claims| && inFlight[k] !in rejected)
      && (forall k, l :: 0 <= k < l < |inFlight| ==> inFlight[k] != inFlight[l])
      && (forall i :: i in rejected ==> i < |claims| && work(items[i], i).Err?)
      && (forall i :: 0 <= i < |items| && results[i].Some? ==>
            i < |claims| && i !in inFlight && i !in rejected && work(items[i], i) == Ok(results[i].value))
      && (forall i :: 0 <= i < |claims| ==> results[i].Some? || i in inFlight || i in rejected)
      && (failure.None? <==> rejected == {})
      && (failure.Some? ==> firstRejected in rejected && work(items[firstRejected], firstRejected) == Err(failure.value))
    }

    /** `Array.from({ length: width }, runWorker)`: each worker runs up to its
        first `await`, so worker `w` claims index `w`. */
    constructor (items: seq<T>, work: (T, nat) -> Result<R, E>, concurrency: int)
      requires concurrency > 0
      ensures Valid() && fresh(results)
      ensures this.items == items && this.work == work
      ensures width == (if concurrency < |items| then concurrency else |items|)
      ensures cursor == width && inFlight == claims && |claims| == width
      ensures failure.None? && exhausted == 0
      ensures forall i :: 0 <= i < |items| ==> results[i].None?
    {
      this.items := items;
      this.work := work;
      width := if concurrency < |items| then concurrency else |items|;
      results := new Option<R>[|items|](_ => None);
      cursor := 0;
      inFlight := [];
      failure := None;
      claims := [];
      rejected := {};
      firstRejected := 0;
      exhausted := 0;
      new;
      while cursor < width
        invariant cursor <= width && inFlight == claims && |claims| == cursor
        invariant forall k :: 0 <= k < |claims| ==> claims[k] == k
        invariant exhausted == 0 && rejected == {} && failure.None?
        invariant results.Length == |items|
        invariant forall i :: 0 <= i < |items| ==> results[i].None?
      {
        var index := cursor;
        cursor := cursor + 1;
        inFlight := inFlight + [index];
        claims := claims + [index];
      }
      forall i | 0 <= i < |claims|
        ensures i in inFlight
      {
        assert inFlight[i] == i;
      }
    }

    /** All work is over: no worker is awaiting anything. */
    ghost predicate Settled()
      reads this
    {
      inFlight == []
    }

    /** The in-flight worker `choice % |inFlight|` sees its call settle. On
        success it stores the value and claims `cursor++`, leaving the loop
        if that index is past the end; on rejection it leaves the loop. */
    method Complete(choice: nat)
      requires Valid() && |inFlight| > 0
      modifies this, results
      ensures Valid()
      ensures cursor >= old(cursor)
      ensures |claims| > old(|claims|) || (|claims| == old(|claims|) && |inFlight| < old(|inFlight|))
      ensures old(claims) <= claims
      ensures old(failure).Some? ==> failure == old(failure)
      // the worker `w` that settles is the chosen one, awaiting `index`
      ensures var w := choice % old(|inFlight|); var index := old(inFlight[choice % |inFlight|]);
        var outcome := work(items[index], index);
        && (outcome.Err? ==>
             && inFlight == old(inFlight[..w] + inFlight[w + 1..])
             && failure == (if old(failure).None? then Some(outcome.error) else old(failure))
             && cursor == old(cursor) && claims == old(claims)
             && rejected == old(rejected) + {index}
             && forall i :: 0 <= i < results.Length ==> results[i] == old(results[i]))
        && (outcome.Ok? ==>
             && results[index] == Some(outcome.value)
             && (forall i :: 0 <= i < results.Length && i != index ==> results[i] == old(results[i]))
             && cursor == old(cursor) + 1 && failure == old(failure) && rejected == old(rejected)
             && (old(cursor) < |items| ==> inFlight == old(inFlight)[w := old(cursor)] && claims == old(claims) + [old(cursor)])
             && (old(cursor) >= |items| ==> inFlight == old(inFlight[..w] + inFlight[w + 1..]) && claims == old(claims)))
    {
      var w := choice % |inFlight|;
      var index := inFlight[w];
      match work(items[index], index)
      case Err(e) => Reject(w, e);
      case Ok(v) => Fulfil(w, v);
    }

    /** The call of live worker `w` rejected with `e`: the worker is gone. */
    method Reject(w: nat, e: E)
      requires Valid() && w < |inFlight| && work(items[inFlight[w]], inFlight[w]) == Err(e)
      modifies this
      ensures Valid()
      ensures cursor == old(cursor) && claims == old(claims) && |inFlight| < old(|inFlight|)
      ensures old(failure).Some? ==> failure == old(failure)
      // exactly worker `w` leaves, and the rejection is recorded if it is the first
      ensures inFlight == old(inFlight[..w] + inFlight[w + 1..])
      ensures rejected == old(rejected) + {old(inFlight[w])}
      ensures old(failure).None? ==> failure == Some(e)
      ensures forall i :: 0 <= i < results.Length ==> results[i] == old(results[i])
    {
      if failure.None? {
        RejectFirst(w, e);
      } else {
        RejectLater(w, e);
      }
    }

    /** `Reject` of the first call to reject: its error becomes the failure. */
    method RejectFirst(w: nat, e: E)
      requires Valid() && w < |inFlight| && work(items[inFlight[w]], inFlight[w]) == Err(e)
      requires failure.None?
      modifies this
      ensures Valid()
      ensures cursor == old(cursor) && claims == old(claims)
      ensures inFlight == old(inFlight[..w] + inFlight[w + 1..])
      ensures rejected == old(rejected) + {old(inFlight[w])}
      ensures failure == Some(e)
    {
      var index := inFlight[w];
      RemoveAt(inFlight, w);
      failure := Some(e);
      firstRejected := index;
      rejected := rejected + {index};
      inFlight := inFlight[..w] + inFlight[w + 1..];
    }

    /** `Reject` once a failure is recorded: the failure stays as it is. */
    method RejectLater(w: nat, e: E)
      requires Valid() && w < |inFlight| && work(items[inFlight[w]], inFlight[w]) == Err(e)
      requires failure.Some?
      modifies this
      ensures Valid()
      ensures cursor == old(cursor) && claims == old(claims)
      ensures inFlight == old(inFlight[..w] + inFlight[w + 1..])
      ensures rejected == old(rejected) + {old(inFlight[w])}
      ensures failure == old(failure)
    {
      var index := inFlight[w];
      RemoveAt(inFlight, w);
      rejected := rejected + {index};
      inFlight := inFlight[..w] + inFlight[w + 1..];
    }

    /** The call of live worker `w` resolved to `v`: it is stored, and the
        worker claims `cursor++`, leaving its loop if that is past the end. */
    method Fulfil(w: nat, v: R)
      requires Valid() && w < |inFlight| && work(items[inFlight[w]], inFlight[w]) == Ok(v)
      modifies this, results
      ensures Valid()
      ensures cursor == old(cursor) + 1 && old(claims) <= claims
      ensures |claims| > old(|claims|) || (|claims| == old(|claims|) && |inFlight| < old(|inFlight|))
      ensures failure == old(failure) && rejected == old(rejected)
      // the value lands in its own slot and nowhere else
      ensures results[old(inFlight[w])] == Some(v)
      ensures forall i :: 0 <= i < results.Length && i != old(inFlight[w]) ==> results[i] == old(results[i])
      // worker `w` then awaits the next index, or leaves when it is past the end
      ensures old(cursor) < |items| ==> inFlight == old(inFlight)[w := old(cursor)] && claims == old(claims) + [old(cursor)]
      ensures old(cursor) >= |items| ==> inFlight == old(inFlight[..w] + inFlight[w + 1..]) && claims == old(claims)
    {
      if cursor < |items| {
        FulfilAndClaim(w, v);
      } else {
        FulfilAndLeave(w, v);
      }
    }

    /** `Fulfil` while there are items left: worker `w` claims `cursor`. */
    method FulfilAndClaim(w: nat, v: R)
      requires Valid() && w < |inFlight| && work(items[inFlight[w]], inFlight[w]) == Ok(v)
      requires cursor < |items|
      modifies this, results
      ensures Valid()
      ensures cursor == old(cursor) + 1
      ensures failure == old(failure) && rejected == old(rejected)
      ensures results[old(inFlight[w])] == Some(v)
      ensures forall i :: 0 <= i < results.Length && i != old(inFlight[w]) ==> results[i] == old(results[i])
      ensures inFlight == old(inFlight)[w := old(cursor)] && claims == old(claims) + [old(cursor)]
    {
      var index := inFlight[w];
      results[index] := Some(v);
      var next := cursor;
      cursor := cursor + 1;
      assert exhausted == 0 && next == |claims|;
      ReplaceAt(inFlight, w, next);
      inFlight := inFlight[w := next];
      claims := claims + [next];
    }

    /** `Fulfil` once every item is claimed: worker `w` leaves its loop. */
    method FulfilAndLeave(w: nat, v: R)
      requires Valid() && w < |inFlight| && work(items[inFlight[w]], inFlight[w]) == Ok(v)
      requires cursor >= |items|
      modifies this, results
      ensures Valid()
      ensures cursor == old(cursor) + 1
      ensures failure == old(failure) && rejected == old(rejected)
      ensures results[old(inFlight[w])] == Some(v)
      ensures forall i :: 0 <= i < results.Length && i != old(inFlight[w]) ==> results[i] == old(results[i])
      ensures inFlight == old(inFlight[..w] + inFlight[w + 1..]) && claims == old(claims)
    {
      var index := inFlight[w];
      results[index] := Some(v);
      cursor := cursor + 1;
      RemoveAt(inFlight, w);
      inFlight := inFlight[..w] + inFlight[w + 1..];
      exhausted := exhausted + 1;
    }

    /** Run every worker to the end; `schedule[s]` picks the worker that
        completes at step `s` (the first in-flight worker once the schedule is
        used up). */
    method Run(schedule: seq<nat>)
      requires Valid()
      modifies this, results
      ensures Valid() && Settled()
      ensures cursor >= old(cursor) && old(claims) <= claims
      ensures old(failure).Some? ==> failure == old(failure)
      ensures failure.None? ==> cursor == |items| + width && claims == seq(|items|, i => i)
      ensures failure.None? ==> forall i :: 0 <= i < |items| ==> results[i].Some?
    {
      var step := 0;
      while |inFlight| > 0
        invariant Valid()
        invariant cursor >= old(cursor) && old(claims) <= claims
        invariant old(failure).Some? ==> failure == old(failure)
        decreases |items| - |claims|, |inFlight|
      {
        var choice := if step < |schedule| then schedule[step] else 0;
        Complete(choice);
        step := step + 1;
      }
      if failure.None? {
        assert width > 0 ==> exhausted > 0;
        assert |items| > 0 ==> width > 0;
        assert |claims| == |items|;
        assert claims == seq(|items|, i => i);
      }
    }
  }

  lemma RemoveAt(s: seq<nat>, w: nat)
    requires w < |s|
    requires forall k, l :: 0 <= k < l < |s| ==> s[k] != s[l]
    ensures var rest := s[..w] + s[w + 1..];
      && |rest| == |s| - 1
      && (forall x :: x in rest <==> x in s && x != s[w])
      && (forall k, l :: 0 <= k < l < |rest| ==> rest[k] != rest[l])
      && (forall k :: 0 <= k < |rest| ==> rest[k] in s)
  {
    var rest := s[..w] + s[w + 1..];
    forall k | 0 <= k < |rest| ensures rest[k] == (if k < w then s[k] else s[k + 1]) {
    }
  }

  lemma ReplaceAt(s: seq<nat>, w: nat, x: nat)
    requires w < |s| && x !in s
    requires forall k, l :: 0 <= k < l < |s| ==> s[k] != s[l]
    ensures var t := s[w := x];
      && (forall y :: y in t <==> y == x || (y in s && y != s[w]))
      && (forall k, l :: 0 <= k < l < |t| ==> t[k] != t[l])
  {
    var t := s[w := x];
    forall y ensures y in t <==> y == x || (y in s && y != s[w]) {
      if y in t {
        var k :| 0 <= k < |t| && t[k] == y;
        if k != w { assert s[k] == y; }
      }
      if y in s && y != s[w] {
        var k :| 0 <= k < |s| && s[k] == y;
        assert t[k] == y;
      }
      if y == x { assert t[w] == x; }
    }
  }

  /** The values of a hole-free results array. */
  function Unwrap<R>(s: seq<Option<R>>): (r: seq<R>)
    requires forall i :: 0 <= i < |s| ==> s[i].Some?
    ensures |r| == |s| && forall i :: 0 <= i < |s| ==> s[i] == Some(r[i])
  {
    if s == [] then [] else [s[0].value] + Unwrap(s[1..])
  }

  /** `runWithConcurrency(items, worker, concurrency)`. A non-positive
      concurrency is refused before any worker call; otherwise the call
      succeeds exactly when no item's call rejects, and then `results[i]` is
      the value for `items[i]` whatever the completion order. */
  method RunWithConcurrency<T, R, E>(items: seq<T>, work: (T, nat) -> Result<R, E>, concurrency: int, schedule: seq<nat>)
    returns (r: Result<seq<R>, PoolFailure<E>>)
    ensures concurrency <= 0 ==> r == Err(NonPositiveConcurrency)
    ensures concurrency > 0 ==> (r.Ok? <==> forall i :: 0 <= i < |items| ==> work(items[i], i).Ok?)
    ensures r.Ok? ==> |r.value| == |items| && forall i :: 0 <= i < |items| ==> work(items[i], i) == Ok(r.value[i])
    ensures concurrency > 0 && r.Err? ==>
      r.error.WorkerRejected? && exists i :: 0 <= i < |items| && work(items[i], i) == Err(r.error.cause)
    // one worker reports the rejection of the first failing item
    ensures concurrency == 1 && r.Err? ==>
      exists i :: 0 <= i < |items| && work(items[i], i) == Err(r.error.cause) && forall k :: 0 <= k < i ==> work(items[k], k).Ok?
  {
    if concurrency <= 0 {
      return Err(NonPositiveConcurrency);
    }
    var pool := new Pool(items, work, concurrency);
    pool.Run(schedule);
    if pool.failure.Some? {
      var i := pool.firstRejected;
      assert 0 <= i < |items| && work(items[i], i) == Err(pool.failure.value);
      assert concurrency == 1 ==> pool.width == 1;
      return Err(WorkerRejected(pool.failure.value));
    }
    r := Ok(Unwrap(pool.results[..]));
  }
}
