/** Turning engine requests into promises: one request
    (`promiseWithRequest`), a batch of requests (`batchPromiseWithRequests`),
    and the single-or-array dispatch every CRUD call of
    `ObjectStoreHelper` goes through (`wrapInPromise`). A request's
    completion is an event; the events of a batch are given in the order
    they arrive. */
module FanOut {
  import opened Results

  /** A request's completion: `onsuccess` with `req.result` or `onerror`
      with `req.error`. */
  datatype Event<+T, +E> = Success(result: T) | Error(error: E)

  /** `promiseWithRequest`: settled by the request's completion event. */
  function Single<T, E>(events: seq<Event<T, E>>): (p: Promise<T, E>)
    ensures p.Pending? <==> |events| == 0
    ensures p.Fulfilled? ==> events[0] == Success(p.value)
    ensures p.Rejected? ==> events[0] == Error(p.error)
  {
    if |events| == 0 then Pending
    else match events[0]
      case Success(v) => Fulfilled(v)
      case Error(e) => Rejected(e)
  }

  /** The results of the successful events, in arrival order. */
  function Successes<T, E>(events: seq<Event<T, E>>): (rs: seq<T>)
    ensures |rs| <= |events|
  {
    if |events| == 0 then []
    else (if events[0].Success? then [events[0].result] else []) + Successes(events[1..])
  }

  ghost predicate ErrorFree<T, E>(events: seq<Event<T, E>>) {
    forall i :: 0 <= i < |events| ==> events[i].Success?
  }

  lemma SuccessesOfErrorFree<T, E>(events: seq<Event<T, E>>)
    requires ErrorFree(events)
    ensures |Successes(events)| == |events|
    ensures forall i :: 0 <= i < |events| ==> Successes(events)[i] == events[i].result
  {
    if |events| > 0 {
      SuccessesOfErrorFree(events[1..]);
    }
  }

  /** How a batch promise ended and how many events it took to get there. */
  datatype BatchRun<T, E> = BatchRun(promise: Promise<seq<T>, E>, consumed: nat)

  lemma PrefixStep<T, E>(events: seq<Event<T, E>>, k: nat)
    requires 0 < k <= |events|
    ensures events[..k] == [events[0]] + events[1..][..k - 1]
    ensures Successes(events[..k]) == (if events[0].Success? then [events[0].result] else []) + Successes(events[1..][..k - 1])
    ensures ErrorFree(events[..k]) <==> events[0].Success? && ErrorFree(events[1..][..k - 1])
  {
    assert events[..k] == [events[0]] + events[1..][..k - 1];
    assert events[..k][1..] == events[1..][..k - 1];
    if events[0].Success? && ErrorFree(events[1..][..k - 1]) {
      forall i | 0 <= i < k ensures events[..k][i].Success? {
        if i > 0 {
          assert events[..k][i] == events[1..][..k - 1][i - 1];
        }
      }
    }
  }

  /** What the handlers have done once the events of `r.consumed` arrived,
      with `collected` already pushed: fulfilled with exactly `n` results
      and no error before; rejected with an error that came before the
      `n`-th success; or still pending after every event without an error
      and short of `n` results. */
  ghost predicate Drained<T, E>(n: nat, events: seq<Event<T, E>>, collected: seq<T>, r: BatchRun<T, E>) {
    && r.consumed <= |events|
    && (r.promise.Fulfilled? ==>
          && r.consumed > 0
          && ErrorFree(events[..r.consumed])
          && r.promise.value == collected + Successes(events[..r.consumed])
          && |r.promise.value| == n)
    && (r.promise.Rejected? ==>
          && r.consumed > 0
          && events[r.consumed - 1] == Error(r.promise.error)
          && ErrorFree(events[..r.consumed - 1])
          && |collected| + |Successes(events[..r.consumed - 1])| < n)
    && (r.promise.Pending? ==>
          && r.consumed == |events|
          && ErrorFree(events)
          && |collected| + |Successes(events)| < n)
  }

  /** A success that does not complete the batch hands the rest of the
      events to the same handlers with one more result collected. */
  lemma {:induction false} DrainedAfterSuccess<T, E>(n: nat, events: seq<Event<T, E>>, collected: seq<T>, r: BatchRun<T, E>)
    requires |events| > 0 && events[0].Success?
    requires Drained(n, events[1..], collected + [events[0].result], r)
    ensures Drained(n, events, collected, BatchRun(r.promise, r.consumed + 1))
  {
    PrefixStep(events, r.consumed + 1);
    if r.promise.Rejected? {
      PrefixStep(events, r.consumed);
    }
    if r.promise.Pending? {
      assert events[1..][..|events| - 1] == events[1..];
      assert events[..|events|] == events;
    }
  }

  /** The success handlers push into `collected` and resolve when it holds
      `n` results; the first error handler rejects. Events after the
      promise settled change nothing. */
  function Drain<T, E>(n: nat, events: seq<Event<T, E>>, collected: seq<T>): (r: BatchRun<T, E>)
    requires |collected| < n
    ensures Drained(n, events, collected, r)
    decreases |events|
  {
    if |events| == 0 then BatchRun(Pending, 0)
    else
      PrefixStep(events, 1);
      assert events[1..][..0] == [];
      match events[0]
      case Error(e) => BatchRun(Rejected(e), 1)
      case Success(v) =>
        var c := collected + [v];
        if |c| == n then BatchRun(Fulfilled(c), 1)
        else
          var r := Drain(n, events[1..], c);
          DrainedAfterSuccess(n, events, collected, r);
          BatchRun(r.promise, r.consumed + 1)
  }

  /** `batchPromiseWithRequests` over `n` requests, given their completion
      events in arrival order. With no request no handler is installed and
      the promise never settles. Otherwise it fulfils with the first `n`
      results in arrival order when they all come before any error, rejects
      with the first error that comes before the `n`-th success, and is
      still pending while neither has happened. */
  function Batch<T, E>(n: nat, events: seq<Event<T, E>>): (r: BatchRun<T, E>)
    ensures n == 0 ==> r.promise.Pending?
    ensures r.consumed <= |events|
    ensures r.promise.Fulfilled? ==>
              && ErrorFree(events[..r.consumed])
              && r.promise.value == Successes(events[..r.consumed])
              && |r.promise.value| == n
    ensures r.promise.Rejected? ==>
              && r.consumed > 0
              && events[r.consumed - 1] == Error(r.promise.error)
              && ErrorFree(events[..r.consumed - 1])
              && |Successes(events[..r.consumed - 1])| < n
    ensures r.promise.Pending? ==> n == 0 || (ErrorFree(events) && |Successes(events)| < n)
  {
    if n == 0 then BatchRun(Pending, 0) else Drain(n, events, [])
  }

  /** When all `n` requests succeed, the batch fulfils with their results
      in arrival order. */
  lemma BatchAllSucceed<T, E>(events: seq<Event<T, E>>)
    requires |events| > 0 && ErrorFree(events)
    ensures Batch(|events|, events).promise == Fulfilled(Successes(events))
    ensures forall i :: 0 <= i < |events| ==> Batch(|events|, events).promise.value[i] == events[i].result
  {
    SuccessesOfErrorFree(events);
    var r := Batch(|events|, events);
    if r.promise.Fulfilled? {
      SuccessesOfErrorFree(events[..r.consumed]);
      assert events[..r.consumed] == events;
    }
  }

  /** An error that arrives before the `n`-th success rejects the batch
      with that error, whatever arrives afterwards. */
  lemma BatchFirstErrorRejects<T, E>(n: nat, events: seq<Event<T, E>>, k: nat)
    requires n > 0 && k < |events|
    requires ErrorFree(events[..k]) && events[k].Error?
    requires |Successes(events[..k])| < n
    ensures Batch(n, events).promise == Rejected(events[k].error)
  {
    var r := Batch(n, events);
    SuccessesOfErrorFree(events[..k]);
  }

  // ---------------------------------------------------------------------
  // wrapInPromise

  /** The argument of a CRUD call: one item or key, or a JavaScript array of them. */
  datatype Arg<+T> = One(item: T) | Many(items: seq<T>)

  /** The engine call each CRUD method issues per element. */
  datatype Op = Add | Put | Delete | Get

  datatype Request<+T> = Request(op: Op, arg: T)

  /** What `wrapInPromise` does with its argument: resolve at once with an
      empty array, issue a batch, or issue one request. */
  datatype Dispatch<+T> = Immediate | Batched(requests: seq<Request<T>>) | Lone(request: Request<T>)

  function Wrap<T>(arg: Arg<T>, op: Op): (d: Dispatch<T>)
    ensures arg == Many([]) <==> d.Immediate?
    ensures arg.One? <==> d.Lone?
  {
    match arg
    case One(x) => Lone(Request(op, x))
    case Many(xs) => if |xs| == 0 then Immediate else Batched(seq(|xs|, i requires 0 <= i < |xs| => Request(op, xs[i])))
  }

  /** The requests a dispatch issues, in issue order. */
  function Requests<T>(d: Dispatch<T>): seq<Request<T>> {
    match d
    case Immediate => []
    case Batched(rs) => rs
    case Lone(r) => [r]
  }

  /** The elements a call acts on. */
  function Items<T>(arg: Arg<T>): seq<T> {
    match arg
    case One(x) => [x]
    case Many(xs) => xs
  }

  /** `wrapInPromise` issues exactly one request of the call's kind per
      element, in order, and nothing for an empty array: reading the
      arguments back off the issued requests gives the call's elements. */
  lemma WrapIssuesOnePerItem<T>(arg: Arg<T>, op: Op)
    ensures |Requests(Wrap(arg, op))| == |Items(arg)|
    ensures forall i :: 0 <= i < |Items(arg)| ==> Requests(Wrap(arg, op))[i] == Request(op, Items(arg)[i])
  {
  }

  /** The promise of a CRUD call: a single request's result, or the
      batch's array of results. */
  datatype Payload<+T> = Value(value: T) | Values(values: seq<T>)

  function Settle<T, R, E>(d: Dispatch<T>, events: seq<Event<R, E>>): (p: Promise<Payload<R>, E>)
    ensures d.Immediate? ==> p == Fulfilled(Values([]))
    ensures d.Batched? && p.Fulfilled? ==> p.value.Values? && |p.value.values| == |d.requests|
  {
    match d
    case Immediate => Fulfilled(Values([]))
    case Lone(_) =>
      (match Single(events)
       case Pending => Pending
       case Fulfilled(v) => Fulfilled(Value(v))
       case Rejected(e) => Rejected(e))
    case Batched(rs) =>
      (match Batch(|rs|, events).promise
       case Pending => Pending
       case Fulfilled(vs) => Fulfilled(Values(vs))
       case Rejected(e) => Rejected(e))
  }

  /** An empty array resolves to an empty array at once, issuing nothing
      and awaiting nothing; a non-empty one never settles without events. */
  lemma EmptyArrayResolvesAtOnce<T, R, E>(op: Op, events: seq<Event<R, E>>)
    ensures Requests(Wrap<T>(Many([]), op)) == []
    ensures Settle(Wrap<T>(Many([]), op), events) == Fulfilled(Values([]))
  {
  }

  /** A call whose requests all succeed fulfils with their results: one
      value for a single element, the results in arrival order for an
      array. */
  lemma WrapAllSucceed<T, R, E>(arg: Arg<T>, op: Op, events: seq<Event<R, E>>)
    requires |events| == |Items(arg)| && ErrorFree(events)
    ensures arg.One? ==> Settle(Wrap(arg, op), events) == Fulfilled(Value(events[0].result))
    ensures arg.Many? ==> Settle(Wrap(arg, op), events) == Fulfilled(Values(Successes(events)))
  {
    if arg.Many? && |events| > 0 {
      BatchAllSucceed(events);
    }
  }
}
