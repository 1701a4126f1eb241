/** The migration job runner (`performMappingJobs`): after the connection
    opened, it takes jobs off the front of the queue one at a time; for
    each it reads the job's store through `map(upgradeMapper)`, clears the
    store, adds the mapped records back, and only then moves on. The first
    failing step ends the run without calling `finished`.

    A store is the sequence of its records in cursor order; the engine's
    answers for job number `i` of the run are `engine(i)`. */
module Migration {
  import opened Results
  import opened JsValues
  import opened StoreRegistry
  import opened UpgradePlan
  import Cursor
  import FanOut

  /** Every object store's records, by store name. */
  type Stores = map<string, seq<JsValue>>

  /** What the engine delivers for one job's requests: how the store
      cursor ends, the completion of `clear()`, and the completions of the
      `add` requests in arrival order. */
  datatype JobEngine<E> = JobEngine(
    cursorEnd: Cursor.End<E>,
    clearEvents: seq<FanOut.Event<(), E>>,
    addEvents: seq<FanOut.Event<JsValue, E>>)

  /** The step a job got stuck in. */
  datatype Stage = MapStage | ClearStage | AddStage

  /** A job either completes with the records it wrote back, or gets stuck. */
  datatype JobOutcome = Done(records: seq<JsValue>) | Stuck(stage: Stage)

  /** `job.config.upgradeMapper(item, job.oldVersion, job.newVersion)` */
  function Apply(job: Job, item: JsValue): JsValue {
    match job.config.upgradeMapper
    case Some(f) => f(item, job.oldVersion, job.newVersion)
    case None => item
  }

  /** The `map` callback a job installs: never sets the stop flag. */
  function MapperCallback(job: Job): ((), JsValue) -> Cursor.Reply<(), JsValue> {
    (u: (), item: JsValue) => Cursor.Reply(u, Apply(job, item), false)
  }

  /** The records of a store after the job's mapper ran over each of them. */
  function MapRecords(job: Job, records: seq<JsValue>): (r: seq<JsValue>)
    ensures |r| == |records|
    ensures forall i :: 0 <= i < |records| ==> r[i] == Apply(job, records[i])
  {
    seq(|records|, i requires 0 <= i < |records| => Apply(job, records[i]))
  }

  /** One job: map every record (a missing store or a missing mapper on a
      non-empty store never gets past this step), clear the store, add the
      mapped records back. Each step must fulfil for the next to start;
      `map` never rejects, so a failing store cursor leaves the job stuck
      in its first step. A completed job wrote back exactly the mapper's
      image of the store's previous records, in cursor order. */
  function RunJob<E>(job: Job, stores: Stores, eng: JobEngine<E>): (r: JobOutcome)
    ensures r == Stuck(MapStage) <==>
              || KeyOf(job.config) !in stores
              || (job.config.upgradeMapper.None? && |stores[KeyOf(job.config)]| > 0)
              || eng.cursorEnd.Failed?
    ensures r == Stuck(ClearStage) ==> |eng.clearEvents| == 0 || eng.clearEvents[0].Error?
    ensures r.Stuck? && r.stage != MapStage ==> eng.cursorEnd.Exhausted?
    ensures r == Stuck(AddStage) ==> |eng.clearEvents| > 0 && eng.clearEvents[0].Success?
    ensures r.Done? ==> KeyOf(job.config) in stores && r.records == MapRecords(job, stores[KeyOf(job.config)])
    ensures r.Done? ==> eng.cursorEnd.Exhausted? && |eng.clearEvents| > 0 && eng.clearEvents[0].Success?
  {
    var name := KeyOf(job.config);
    if name !in stores then Stuck(MapStage)
    else if job.config.upgradeMapper.None? && |stores[name]| > 0 then Stuck(MapStage)
    else
      var records := stores[name];
      var cb := MapperCallback(job);
      var c := Cursor.Cursor(records, eng.cursorEnd);
      assert Cursor.NoStopBefore(records, (), cb, |records|);
      Cursor.NeverStopVisitsAll(records, (), cb);
      Cursor.MapCollectsReplies(c, (), cb);
      var mapped := Cursor.Map(c, (), cb).promise;
      if !mapped.Fulfilled? then Stuck(MapStage)
      else if !FanOut.Single(eng.clearEvents).Fulfilled? then Stuck(ClearStage)
      else if !FanOut.Settle(FanOut.Wrap(FanOut.Many(mapped.value), FanOut.Add), eng.addEvents).Fulfilled? then Stuck(AddStage)
      else Done(mapped.value)
  }

  /** The stores after a job got stuck in `stage`. `clear` and `add` each
      lease a transaction of their own, so a fulfilled `clear` has
      committed the emptied store; an `add` batch that does not complete
      after it writes nothing (a failing request aborts its transaction
      with every record of the batch), and the store stays empty. A job
      stuck before that point left every store as it was. */
  function AfterStuck(stores: Stores, job: Job, stage: Stage): (r: Stores)
    ensures r.Keys == stores.Keys
    ensures forall k :: k in stores && k != KeyOf(job.config) ==> r[k] == stores[k]
    ensures stage == AddStage && KeyOf(job.config) in stores ==> r[KeyOf(job.config)] == []
    ensures stage != AddStage ==> r == stores
  {
    var name := KeyOf(job.config);
    if stage == AddStage && name in stores then stores[name := []] else stores
  }

  /** A job whose read reaches the end, whose `clear` fulfils and whose
      `add` requests all succeed completes with the mapped records. */
  lemma JobCompletes<E>(job: Job, stores: Stores, eng: JobEngine<E>)
    requires KeyOf(job.config) in stores
    requires job.config.upgradeMapper.Some? || stores[KeyOf(job.config)] == []
    requires eng.cursorEnd.Exhausted?
    requires |eng.clearEvents| > 0 && eng.clearEvents[0].Success?
    requires |eng.addEvents| == |stores[KeyOf(job.config)]| && FanOut.ErrorFree(eng.addEvents)
    ensures RunJob(job, stores, eng) == Done(MapRecords(job, stores[KeyOf(job.config)]))
  {
    var records := stores[KeyOf(job.config)];
    var cb := MapperCallback(job);
    assert Cursor.NoStopBefore(records, (), cb, |records|);
    Cursor.NeverStopVisitsAll(records, (), cb);
    Cursor.MapCollectsReplies(Cursor.Cursor(records, eng.cursorEnd), (), cb);
    FanOut.WrapAllSucceed(FanOut.Many(MapRecords(job, records)), FanOut.Add, eng.addEvents);
  }

  /** A job whose `clear` fulfilled but one of whose `add` requests failed
      before all of them succeeded is stuck at `add`, and its store is left
      empty whatever it held before. */
  lemma FailedAddEmptiesStore<E>(job: Job, stores: Stores, eng: JobEngine<E>, k: nat)
    requires KeyOf(job.config) in stores && job.config.upgradeMapper.Some?
    requires eng.cursorEnd.Exhausted?
    requires |eng.clearEvents| > 0 && eng.clearEvents[0].Success?
    requires k < |eng.addEvents| && k < |stores[KeyOf(job.config)]|
    requires FanOut.ErrorFree(eng.addEvents[..k]) && eng.addEvents[k].Error?
    ensures RunJob(job, stores, eng) == Stuck(AddStage)
    ensures AfterStuck(stores, job, AddStage)[KeyOf(job.config)] == []
  {
    var records := stores[KeyOf(job.config)];
    var cb := MapperCallback(job);
    assert Cursor.NoStopBefore(records, (), cb, |records|);
    Cursor.NeverStopVisitsAll(records, (), cb);
    Cursor.MapCollectsReplies(Cursor.Cursor(records, eng.cursorEnd), (), cb);
    FanOut.SuccessesOfErrorFree(eng.addEvents[..k]);
    FanOut.BatchFirstErrorRejects(|records|, eng.addEvents, k);
  }

  /** A completed job applied to the stores: only its own store changes. */
  function ApplyJob(stores: Stores, job: Job): (r: Stores)
    ensures r.Keys == stores.Keys
    ensures forall k :: k in stores && k != KeyOf(job.config) ==> r[k] == stores[k]
    ensures KeyOf(job.config) in stores ==> r[KeyOf(job.config)] == MapRecords(job, stores[KeyOf(job.config)])
  {
    var name := KeyOf(job.config);
    if name in stores then stores[name := MapRecords(job, stores[name])] else stores
  }

  /** The stores after the given jobs all completed, first job first. */
  function ApplyAll(stores: Stores, jobs: seq<Job>): Stores
    decreases |jobs|
  {
    if |jobs| == 0 then stores
    else ApplyJob(ApplyAll(stores, jobs[..|jobs| - 1]), jobs[|jobs| - 1])
  }

  /** Job `i` of the queue completes when it runs on the stores the earlier
      jobs left behind. */
  predicate Succeeds<E>(queue: seq<Job>, stores: Stores, engine: nat -> JobEngine<E>, i: nat)
    requires i < |queue|
  {
    RunJob(queue[i], ApplyAll(stores, queue[..i]), engine(i)).Done?
  }

  /** Running job `i` on the stores the earlier jobs left: it completes
      exactly when `Succeeds` says so, and then the stores are those after
      the first `i + 1` jobs. */
  lemma JobStep<E>(queue: seq<Job>, stores: Stores, engine: nat -> JobEngine<E>, i: nat, outcome: JobOutcome)
    requires i < |queue|
    requires outcome == RunJob(queue[i], ApplyAll(stores, queue[..i]), engine(i))
    ensures outcome.Done? <==> Succeeds(queue, stores, engine, i)
    ensures outcome.Done? ==>
              ApplyAll(stores, queue[..i + 1]) == ApplyAll(stores, queue[..i])[KeyOf(queue[i].config) := outcome.records]
  {
    assert queue[..i + 1][..i] == queue[..i];
  }

  /** `performMappingJobs(finished)`. Removes jobs from the front of the
      queue one at a time and runs each to completion before the next.
      `finished` is reported exactly when every job completed, and then the
      queue is empty and every store holds its mapped records. Otherwise
      the run ended at the first job that got stuck: that job has already
      been removed, the jobs behind it are still queued and never ran, and
      the stores hold what the completed jobs left, with the stuck job's
      store emptied when its `clear` had already gone through. */
  method PerformMappingJobs<E>(queue: seq<Job>, stores: Stores, engine: nat -> JobEngine<E>)
    returns (remaining: seq<Job>, result: Stores, ran: nat, finished: bool)
    ensures finished <==> forall i :: 0 <= i < |queue| ==> Succeeds(queue, stores, engine, i)
    ensures finished ==> remaining == [] && ran == |queue| && result == ApplyAll(stores, queue)
    ensures !finished ==>
              && 1 <= ran <= |queue|
              && remaining == queue[ran..]
              && (forall i :: 0 <= i < ran - 1 ==> Succeeds(queue, stores, engine, i))
              && !Succeeds(queue, stores, engine, ran - 1)
              && var before := ApplyAll(stores, queue[..ran - 1]);
                 result == AfterStuck(before, queue[ran - 1], RunJob(queue[ran - 1], before, engine(ran - 1)).stage)
  {
    remaining, result, ran := queue, stores, 0;
    while |remaining| > 0
      invariant ran <= |queue|
      invariant remaining == queue[ran..]
      invariant result == ApplyAll(stores, queue[..ran])
      invariant forall i :: 0 <= i < ran ==> Succeeds(queue, stores, engine, i)
      decreases |remaining|
    {
      var job := remaining[0];
      var outcome := RunJob(job, result, engine(ran));
      JobStep(queue, stores, engine, ran, outcome);
      remaining := remaining[1..];
      ran := ran + 1;
      if outcome.Stuck? {
        result := AfterStuck(result, job, outcome.stage);
        finished := false;
        return;
      }
      result := result[KeyOf(job.config) := outcome.records];
    }
    assert queue[..ran] == queue;
    finished := true;
  }

  /** A job on an empty store whose steps all succeed completes, even
      without a mapper: there is nothing to map and nothing to add back. */
  lemma EmptyStoreJobCompletes<E>(job: Job, stores: Stores, eng: JobEngine<E>)
    requires KeyOf(job.config) in stores && stores[KeyOf(job.config)] == []
    requires eng.cursorEnd.Exhausted?
    requires |eng.clearEvents| > 0 && eng.clearEvents[0].Success?
    ensures RunJob(job, stores, eng) == Done([])
  {
    Cursor.NeverStopVisitsAll([], (), MapperCallback(job));
  }
}
