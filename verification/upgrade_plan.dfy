/** The decisions the `onupgradeneeded` handler makes: for every registered
    store configuration, in for-in order, whether to create the store and
    with which auto-increment setting, which indexes to create, and whether
    to queue a record-migration job. The engine calls themselves
    (`createObjectStore`, `createIndex`) become entries of a plan. */
module UpgradePlan {
  import opened Results
  import opened JsValues
  import opened IndexConfig
  import opened StoreRegistry

  /** `createObjectStore(name, {keyPath, autoIncrement})` */
  datatype StoreCreation = StoreCreation(name: string, keyPath: JsValue, autoIncrement: JsValue)

  /** `createIndex(index.name, index.keyPath, index.options)` on store `store` */
  datatype IndexCreation = IndexCreation(store: string, index: IndexConf)

  /** A queued migration: `{config, newVersion, oldVersion}` */
  datatype Job = Job(config: StoreConf, newVersion: int, oldVersion: int)

  /** The engine calls and queued jobs of one pass of the upgrade handler. */
  datatype Plan = Plan(created: seq<StoreCreation>, indexes: seq<IndexCreation>, jobs: seq<Job>)

  /** The handler either runs to the end, or an index configuration without
      a valid key path throws out of it; the calls made and the jobs queued
      before the throw are kept in `partial` (the jobs stay in the
      accessor's queue). */
  datatype Upgrade = Planned(plan: Plan) | Aborted(error: IndexError, partial: Plan)

  /** `autoIncrement` as given, or `true` when the configuration leaves it undefined. */
  function AutoIncrementOf(conf: StoreConf): (v: JsValue)
    ensures conf.autoIncrement.Undefined? ==> v == Bool(true)
    ensures !conf.autoIncrement.Undefined? ==> v == conf.autoIncrement
  {
    if conf.autoIncrement.Undefined? then Bool(true) else conf.autoIncrement
  }

  /** The index configurations of a store; an absent or empty `indexes`
      makes no index calls. */
  function DeclaredIndexes(conf: StoreConf): seq<RawIndexConf> {
    if conf.indexes.Some? then conf.indexes.value else []
  }

  ghost predicate IndexesValid(raws: seq<RawIndexConf>) {
    forall j :: 0 <= j < |raws| ==> ValidStr(raws[j].keyPath)
  }

  /** The index calls of one store, and whether the loop got through all of them. */
  datatype IndexPass = IndexPass(created: seq<IndexCreation>, ok: bool)

  /** Normalises and creates the declared indexes one after another; the
      first invalid configuration throws and ends the pass. */
  function CreateIndexes(store: string, raws: seq<RawIndexConf>): (r: IndexPass)
    ensures r.ok <==> IndexesValid(raws)
    ensures r.ok ==> |r.created| == |raws|
    ensures !r.ok ==> |r.created| < |raws| && !ValidStr(raws[|r.created|].keyPath)
    ensures forall j :: 0 <= j < |r.created| ==>
              Normalize(raws[j]).Ok? && r.created[j] == IndexCreation(store, Normalize(raws[j]).value)
  {
    if |raws| == 0 then IndexPass([], true)
    else match Normalize(raws[0])
      case Err(_) => IndexPass([], false)
      case Ok(idx) =>
        var rest := CreateIndexes(store, raws[1..]);
        assert IndexesValid(raws) <==> IndexesValid(raws[1..]) by {
          assert forall j :: 0 < j < |raws| ==> raws[j] == raws[1..][j - 1];
        }
        IndexPass([IndexCreation(store, idx)] + rest.created, rest.ok)
  }

  /** What the handler does for one configuration. */
  datatype Step = Step(creation: Option<StoreCreation>, indexes: IndexPass, job: Option<Job>)

  /** The store is created exactly when its name is absent; a job is queued
      exactly when the indexes went through and the job is due, which
      never holds for a store created in this step. */
  function StepFor(conf: StoreConf, names: set<string>, version: int, oldVersion: int): (st: Step)
    ensures st.creation.Some? <==> KeyOf(conf) !in names
    ensures st.creation.Some? ==> st.creation.value == StoreCreation(KeyOf(conf), conf.keyPath, AutoIncrementOf(conf))
    ensures st.indexes.ok <==> IndexesValid(DeclaredIndexes(conf))
    ensures st.job.Some? <==> st.indexes.ok && JobDue(conf, names, version, oldVersion)
    ensures st.job.Some? ==> st.job.value == Job(conf, version, oldVersion)
    ensures st.creation.Some? ==> st.job.None?
  {
    var justCreated := KeyOf(conf) !in names;
    var creation :=
      if justCreated then Some(StoreCreation(KeyOf(conf), conf.keyPath, AutoIncrementOf(conf))) else None;
    var indexes := CreateIndexes(KeyOf(conf), DeclaredIndexes(conf));
    var job :=
      if !indexes.ok || conf.upgradeMapper.None? || justCreated then None
      else if version != oldVersion then Some(Job(conf, version, oldVersion))
      else None;
    Step(creation, indexes, job)
  }

  function OptSeq<T>(o: Option<T>): seq<T> {
    if o.Some? then [o.value] else []
  }

  function Concat(a: Plan, b: Plan): Plan {
    Plan(a.created + b.created, a.indexes + b.indexes, a.jobs + b.jobs)
  }

  /** One pass of the upgrade handler over `configs` in iteration order.
      `names` is the live `objectStoreNames` list: a store created for an
      earlier configuration counts as existing for the later ones. */
  function PlanUpgrade(configs: seq<StoreConf>, names: set<string>, version: int, oldVersion: int): (u: Upgrade)
    ensures u.Planned? <==> AllIndexesValid(configs)
    ensures u.Planned? ==> u.plan.indexes == IndexesRef(configs)
  {
    if |configs| == 0 then Planned(Plan([], [], []))
    else
      AllIndexesValidCons(configs);
      var step := StepFor(configs[0], names, version, oldVersion);
      var head := Plan(OptSeq(step.creation), step.indexes.created, OptSeq(step.job));
      if !step.indexes.ok then Aborted(MissingKeyPath, head)
      else match PlanUpgrade(configs[1..], names + {KeyOf(configs[0])}, version, oldVersion)
        case Planned(p) => Planned(Concat(head, p))
        case Aborted(e, p) => Aborted(e, Concat(head, p))
  }

  // ---------------------------------------------------------------------
  // Reference definitions: each decision read off one configuration and the
  // store names that existed before the upgrade began.

  /** A store is created exactly when its name was absent. */
  function CreatedRef(configs: seq<StoreConf>, names: set<string>): seq<StoreCreation> {
    if |configs| == 0 then []
    else
      var c := configs[0];
      (if KeyOf(c) !in names then [StoreCreation(KeyOf(c), c.keyPath, AutoIncrementOf(c))] else [])
      + CreatedRef(configs[1..], names)
  }

  /** A job is due exactly for a store that already existed, declares a
      mapper, and when the version changes. */
  predicate JobDue(c: StoreConf, names: set<string>, version: int, oldVersion: int) {
    KeyOf(c) in names && c.upgradeMapper.Some? && version != oldVersion
  }

  function JobsRef(configs: seq<StoreConf>, names: set<string>, version: int, oldVersion: int): seq<Job> {
    if |configs| == 0 then []
    else
      (if JobDue(configs[0], names, version, oldVersion) then [Job(configs[0], version, oldVersion)] else [])
      + JobsRef(configs[1..], names, version, oldVersion)
  }

  /** Every declared index of every store, normalised, in order. */
  function IndexesRef(configs: seq<StoreConf>): seq<IndexCreation> {
    if |configs| == 0 then []
    else CreateIndexes(KeyOf(configs[0]), DeclaredIndexes(configs[0])).created + IndexesRef(configs[1..])
  }

  ghost predicate AllIndexesValid(configs: seq<StoreConf>) {
    forall i :: 0 <= i < |configs| ==> IndexesValid(DeclaredIndexes(configs[i]))
  }

  lemma AllIndexesValidCons(configs: seq<StoreConf>)
    requires |configs| > 0
    ensures AllIndexesValid(configs) <==> IndexesValid(DeclaredIndexes(configs[0])) && AllIndexesValid(configs[1..])
  {
    assert forall i :: 0 < i < |configs| ==> configs[i] == configs[1..][i - 1];
  }

  ghost predicate KeyAbsent(configs: seq<StoreConf>, k: string) {
    forall i :: 0 <= i < |configs| ==> KeyOf(configs[i]) != k
  }

  lemma {:induction false} RefsIgnoreUnusedName(configs: seq<StoreConf>, names: set<string>, k: string, version: int, oldVersion: int)
    requires KeyAbsent(configs, k)
    ensures CreatedRef(configs, names + {k}) == CreatedRef(configs, names)
    ensures JobsRef(configs, names + {k}, version, oldVersion) == JobsRef(configs, names, version, oldVersion)
  {
    if |configs| > 0 {
      RefsIgnoreUnusedName(configs[1..], names, k, version, oldVersion);
    }
  }

  /** With distinct store names (which the registry guarantees), one pass
      of the handler creates exactly the absent stores, creates every
      declared index, queues exactly the due jobs in iteration order, and
      runs to the end exactly when every index configuration is valid. */
  lemma {:induction false} PlanMatchesReference(configs: seq<StoreConf>, names: set<string>, version: int, oldVersion: int)
    requires UniqueKeys(configs)
    ensures PlanUpgrade(configs, names, version, oldVersion).Planned? <==> AllIndexesValid(configs)
    ensures PlanUpgrade(configs, names, version, oldVersion).Planned? ==>
              var p := PlanUpgrade(configs, names, version, oldVersion).plan;
              && p.created == CreatedRef(configs, names)
              && p.indexes == IndexesRef(configs)
              && p.jobs == JobsRef(configs, names, version, oldVersion)
  {
    if |configs| > 0 {
      var c, rest := configs[0], configs[1..];
      assert UniqueKeys(rest) by {
        forall i, j | 0 <= i < j < |rest| ensures KeyOf(rest[i]) != KeyOf(rest[j]) {
          assert rest[i] == configs[i + 1] && rest[j] == configs[j + 1];
        }
      }
      assert KeyAbsent(rest, KeyOf(c)) by {
        forall i | 0 <= i < |rest| ensures KeyOf(rest[i]) != KeyOf(c) {
          assert rest[i] == configs[i + 1];
        }
      }
      PlanMatchesReference(rest, names + {KeyOf(c)}, version, oldVersion);
      RefsIgnoreUnusedName(rest, names, KeyOf(c), version, oldVersion);
    }
  }

  /** Jobs are queued in iteration order: the job list of a concatenation of
      configurations is the concatenation of their job lists. */
  lemma {:induction false} JobsRefInOrder(a: seq<StoreConf>, b: seq<StoreConf>, names: set<string>, version: int, oldVersion: int)
    ensures JobsRef(a + b, names, version, oldVersion) == JobsRef(a, names, version, oldVersion) + JobsRef(b, names, version, oldVersion)
  {
    if |a| == 0 {
      assert a + b == b;
    } else {
      var ab := a + b;
      assert ab[0] == a[0];
      assert ab[1..] == a[1..] + b;
      var h := if JobDue(a[0], names, version, oldVersion) then [Job(a[0], version, oldVersion)] else [];
      assert JobsRef(ab, names, version, oldVersion) == h + JobsRef(a[1..] + b, names, version, oldVersion);
      assert JobsRef(a, names, version, oldVersion) == h + JobsRef(a[1..], names, version, oldVersion);
      JobsRefInOrder(a[1..], b, names, version, oldVersion);
    }
  }

  /** No two jobs migrate the same store. */
  ghost predicate DistinctJobKeys(jobs: seq<Job>) {
    forall j1, j2 :: 0 <= j1 < j2 < |jobs| ==> KeyOf(jobs[j1].config) != KeyOf(jobs[j2].config)
  }

  /** A job belongs to one of the configurations, is due for it, and
      carries the upgrade's versions; and every configuration for which a
      job is due has one; under distinct store names, no two jobs
      are for the same store. */
  lemma {:induction false} JobsRefExact(configs: seq<StoreConf>, names: set<string>, version: int, oldVersion: int)
    ensures forall j :: 0 <= j < |JobsRef(configs, names, version, oldVersion)| ==>
              var job := JobsRef(configs, names, version, oldVersion)[j];
              && job.newVersion == version && job.oldVersion == oldVersion
              && JobDue(job.config, names, version, oldVersion)
              && job.config in configs
    ensures forall i :: 0 <= i < |configs| && JobDue(configs[i], names, version, oldVersion) ==>
              Job(configs[i], version, oldVersion) in JobsRef(configs, names, version, oldVersion)
    ensures UniqueKeys(configs) ==> DistinctJobKeys(JobsRef(configs, names, version, oldVersion))
    decreases |configs|, 1
  {
    if |configs| > 0 {
      JobsRefExact(configs[1..], names, version, oldVersion);
      assert forall i :: 0 < i < |configs| ==> configs[i] == configs[1..][i - 1];
    }
    if UniqueKeys(configs) {
      JobsRefDistinct(configs, names, version, oldVersion);
    }
  }

  lemma {:induction false} JobsRefDistinct(configs: seq<StoreConf>, names: set<string>, version: int, oldVersion: int)
    requires UniqueKeys(configs)
    ensures DistinctJobKeys(JobsRef(configs, names, version, oldVersion))
    decreases |configs|, 0
  {
    if |configs| > 0 {
      var rest := configs[1..];
      UniqueKeysTail(configs);
      JobsRefDistinct(rest, names, version, oldVersion);
      JobsRefConfigsIn(rest, names, version, oldVersion);
      var jobs := JobsRef(configs, names, version, oldVersion);
      var tail := JobsRef(rest, names, version, oldVersion);
      var h := if JobDue(configs[0], names, version, oldVersion) then [Job(configs[0], version, oldVersion)] else [];
      assert jobs == h + tail;
      forall j1, j2 | 0 <= j1 < j2 < |jobs| ensures KeyOf(jobs[j1].config) != KeyOf(jobs[j2].config) {
        assert jobs[j2] == tail[j2 - |h|];
        if j1 < |h| {
          assert jobs[j1].config == configs[0];
          assert tail[j2 - |h|].config in rest;
          var i :| 0 <= i < |rest| && rest[i] == tail[j2 - |h|].config;
        } else {
          assert jobs[j1] == tail[j1 - |h|];
        }
      }
    }
  }

  lemma JobsRefConfigsIn(configs: seq<StoreConf>, names: set<string>, version: int, oldVersion: int)
    ensures forall j :: 0 <= j < |JobsRef(configs, names, version, oldVersion)| ==>
              JobsRef(configs, names, version, oldVersion)[j].config in configs
    decreases |configs|, 2
  {
    JobsRefExact(configs, names, version, oldVersion);
  }

  lemma UniqueKeysTail(configs: seq<StoreConf>)
    requires |configs| > 0 && UniqueKeys(configs)
    ensures UniqueKeys(configs[1..])
    ensures forall i :: 0 <= i < |configs[1..]| ==> KeyOf(configs[1..][i]) != KeyOf(configs[0])
  {
    var rest := configs[1..];
    forall i | 0 <= i < |rest| ensures rest[i] == configs[i + 1] { }
  }

  /** A created store is created from its own configuration, with the
      configured `autoIncrement` or `true` when that is undefined, and only
      when its name was absent; every absent store is created. */
  lemma {:induction false} CreatedRefExact(configs: seq<StoreConf>, names: set<string>)
    ensures forall j :: 0 <= j < |CreatedRef(configs, names)| ==>
              var cr := CreatedRef(configs, names)[j];
              cr.name !in names
              && exists i :: 0 <= i < |configs| && cr == StoreCreation(KeyOf(configs[i]), configs[i].keyPath, AutoIncrementOf(configs[i]))
    ensures forall i :: 0 <= i < |configs| && KeyOf(configs[i]) !in names ==>
              StoreCreation(KeyOf(configs[i]), configs[i].keyPath, AutoIncrementOf(configs[i])) in CreatedRef(configs, names)
  {
    if |configs| > 0 {
      CreatedRefExact(configs[1..], names);
      assert forall i :: 0 < i < |configs| ==> configs[i] == configs[1..][i - 1];
      var head := if KeyOf(configs[0]) !in names then [StoreCreation(KeyOf(configs[0]), configs[0].keyPath, AutoIncrementOf(configs[0]))] else [];
      var tail := CreatedRef(configs[1..], names);
      forall j | 0 <= j < |CreatedRef(configs, names)|
        ensures var cr := CreatedRef(configs, names)[j];
                cr.name !in names
                && exists i :: 0 <= i < |configs| && cr == StoreCreation(KeyOf(configs[i]), configs[i].keyPath, AutoIncrementOf(configs[i]))
      {
        if j >= |head| {
          var cr := tail[j - |head|];
          var i :| 0 <= i < |configs[1..]| && cr == StoreCreation(KeyOf(configs[1..][i]), configs[1..][i].keyPath, AutoIncrementOf(configs[1..][i]));
          assert configs[1..][i] == configs[i + 1];
        } else {
          assert CreatedRef(configs, names)[j] == head[0];
        }
      }
    }
  }

  /** A store created by this upgrade never gets a migration job, and a
      pre-existing store gets one exactly when it declares a mapper and the
      version changed; every job is for the upgrade's two versions. */
  lemma CreatedStoresNeverMigrate(configs: seq<StoreConf>, names: set<string>, version: int, oldVersion: int)
    requires UniqueKeys(configs)
    requires PlanUpgrade(configs, names, version, oldVersion).Planned?
    ensures var p := PlanUpgrade(configs, names, version, oldVersion).plan;
            forall c, j :: 0 <= c < |p.created| && 0 <= j < |p.jobs| ==> p.created[c].name != KeyOf(p.jobs[j].config)
    ensures var p := PlanUpgrade(configs, names, version, oldVersion).plan;
            forall i :: 0 <= i < |configs| ==>
              (JobDue(configs[i], names, version, oldVersion) <==> Job(configs[i], version, oldVersion) in p.jobs)
  {
    PlanMatchesReference(configs, names, version, oldVersion);
    JobsRefExact(configs, names, version, oldVersion);
    CreatedRefExact(configs, names);
  }

  /** An upgrade whose version equals the stored one queues no job at all. */
  lemma {:induction false} SameVersionNoJobs(configs: seq<StoreConf>, names: set<string>, version: int)
    requires PlanUpgrade(configs, names, version, version).Planned?
    ensures PlanUpgrade(configs, names, version, version).plan.jobs == []
  {
    if |configs| > 0 {
      SameVersionNoJobs(configs[1..], names + {KeyOf(configs[0])}, version);
    }
  }

  /** Planning the registered configurations in the handler's iteration order. */
  function PlanRegistered(reg: Registry, names: set<string>, version: int, oldVersion: int): (u: Upgrade)
    requires Valid(reg)
    ensures u.Planned? <==> AllIndexesValid(IterationOrder(reg))
    ensures u.Planned? ==> u.plan.jobs == JobsRef(IterationOrder(reg), names, version, oldVersion)
    ensures u.Planned? ==> u.plan.created == CreatedRef(IterationOrder(reg), names)
    ensures u.Planned? ==> u.plan.indexes == IndexesRef(IterationOrder(reg))
    ensures u.Planned? ==> DistinctJobKeys(u.plan.jobs)
  {
    IterationOrderComplete(reg);
    PlanMatchesReference(IterationOrder(reg), names, version, oldVersion);
    JobsRefExact(IterationOrder(reg), names, version, oldVersion);
    PlanUpgrade(IterationOrder(reg), names, version, oldVersion)
  }
}
