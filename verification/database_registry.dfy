/** The `ProtoDB` factory object: `configDatabase(conf)` registers a
    database by name and hands back its accessor, which the factory also
    stores as its own property `ProtoDB[conf.name]`; `supported` and
    `configDatabase` are the factory's other members. */
module DatabaseRegistry {
  import opened Results
  import opened JsValues

  /** `{name, version}` as the caller passed it. */
  datatype DbConf = DbConf(name: JsValue, version: JsValue)

  /** What `createDatabaseAccessor(name, version)` hands back. */
  datatype DbAccessor = DbAccessor(name: JsValue, version: JsValue)

  /** A property of the factory object: a database accessor, or one of its
      methods (`configDatabase`, `supported`, or a method inherited from
      Object.prototype). Every member is truthy. */
  datatype Member = Database(accessor: DbAccessor) | Builtin(methodName: string)

  datatype DbError = AlreadyExists(name: JsValue)

  /** `dbNames` in call order, and the factory's own properties. */
  datatype ProtoDb = ProtoDb(dbNames: seq<JsValue>, members: map<string, Member>)

  /** The factory as constructed: no databases, two own methods. */
  function Initial(): (db: ProtoDb)
    ensures Valid(db)
    ensures db.dbNames == []
  {
    ProtoDb([], map["configDatabase" := Builtin("configDatabase"), "supported" := Builtin("supported")])
  }

  /** The factory keeps its two methods, and every recorded name has an
      accessor under its property key. */
  ghost predicate Valid(db: ProtoDb) {
    && "configDatabase" in db.members && db.members["configDatabase"] == Builtin("configDatabase")
    && "supported" in db.members && db.members["supported"] == Builtin("supported")
    && forall i :: 0 <= i < |db.dbNames| ==>
         ToKey(db.dbNames[i]) in db.members && db.members[ToKey(db.dbNames[i])].Database?
  }

  /** `ProtoDB[key]`: an own property, else an inherited method, else
      nothing (`undefined`). */
  function Lookup(db: ProtoDb, key: string): (m: Option<Member>)
    ensures m.None? <==> key !in db.members && key !in InheritedNames
    ensures key in db.members ==> m == Some(db.members[key])
  {
    if key in db.members then Some(db.members[key])
    else if key in InheritedNames then Some(Builtin(key))
    else None
  }

  /** `configDatabase(conf)` as written: a name already in `dbNames`
      (strict equality) throws; otherwise whatever `ProtoDB[conf.name]`
      already holds is returned, and only when it holds nothing is a new
      accessor created, recorded and returned. */
  function ConfigDatabase(db: ProtoDb, conf: DbConf): (r: Result<(ProtoDb, Member), DbError>)
    ensures r.Err? <==> conf.name in db.dbNames
    ensures r.Err? ==> r.error == AlreadyExists(conf.name)
    ensures r.Ok? && Lookup(db, ToKey(conf.name)).Some? ==>
              r.value == (db, Lookup(db, ToKey(conf.name)).value)
    ensures r.Ok? && Lookup(db, ToKey(conf.name)).None? ==>
              && r.value.1 == Database(DbAccessor(conf.name, conf.version))
              && r.value.0.dbNames == db.dbNames + [conf.name]
              && r.value.0.members == db.members[ToKey(conf.name) := r.value.1]
    ensures r.Ok? && Valid(db) ==> Valid(r.value.0)
  {
    if conf.name in db.dbNames then Err(AlreadyExists(conf.name))
    else
      var key := ToKey(conf.name);
      match Lookup(db, key)
      case Some(existing) => Ok((db, existing))
      case None =>
        var accessor := Database(DbAccessor(conf.name, conf.version));
        Ok((ProtoDb(db.dbNames + [conf.name], db.members[key := accessor]), accessor))
  }

  /** Once a name is recorded, every later call with that same name throws. */
  lemma RecordedNameThrows(db: ProtoDb, conf: DbConf, later: DbConf)
    requires conf.name !in db.dbNames
    requires Lookup(db, ToKey(conf.name)).None?
    requires later.name == conf.name
    ensures ConfigDatabase(db, conf) == Ok((ConfigDatabase(db, conf).value.0, Database(DbAccessor(conf.name, conf.version))))
    ensures ConfigDatabase(ConfigDatabase(db, conf).value.0, later) == Err(AlreadyExists(conf.name))
  {
  }

  /** The name "supported" returns the factory's capability probe, not a
      database accessor, and records nothing. */
  lemma SupportedIsNotADatabase(version: JsValue)
    ensures ConfigDatabase(Initial(), DbConf(Str("supported"), version)) == Ok((Initial(), Builtin("supported")))
  {
  }

  /** After database `1` (a number), the name `"1"` (a string) passes the
      duplicate check but returns the accessor of database `1`. */
  lemma NumberThenStringReturnsOtherAccessor(v1: JsValue, v2: JsValue)
    ensures var first := ConfigDatabase(Initial(), DbConf(Num(1), v1));
            && first.Ok?
            && ConfigDatabase(first.value.0, DbConf(Str("1"), v2))
               == Ok((first.value.0, Database(DbAccessor(Num(1), v1))))
  {
    assert ToKey(Num(1)) == "1";
  }

  /** The registry the code evidently means: databases keyed by the name
      the engine sees (its string form), kept apart from the factory's own
      methods. */
  datatype Catalog = Catalog(names: seq<JsValue>, accessors: map<string, DbAccessor>)

  /** Every recorded name has its accessor under its key, and nothing else
      is recorded. */
  ghost predicate CatalogValid(c: Catalog) {
    && (forall i :: 0 <= i < |c.names| ==>
          ToKey(c.names[i]) in c.accessors && c.accessors[ToKey(c.names[i])].name == c.names[i])
    && (forall k :: k in c.accessors ==> exists i :: 0 <= i < |c.names| && ToKey(c.names[i]) == k)
  }

  /** `configDatabase` corrected: a name whose key is already registered
      throws; otherwise a new accessor is created, recorded and returned,
      whatever the name. */
  function RegisterDatabase(c: Catalog, conf: DbConf): (r: Result<(Catalog, DbAccessor), DbError>)
    ensures r.Err? <==> ToKey(conf.name) in c.accessors
    ensures r.Err? ==> r.error == AlreadyExists(conf.name)
    ensures r.Ok? ==>
              && r.value.1 == DbAccessor(conf.name, conf.version)
              && r.value.0.names == c.names + [conf.name]
              && r.value.0.accessors == c.accessors[ToKey(conf.name) := r.value.1]
  {
    var key := ToKey(conf.name);
    if key in c.accessors then Err(AlreadyExists(conf.name))
    else
      var accessor := DbAccessor(conf.name, conf.version);
      Ok((Catalog(c.names + [conf.name], c.accessors[key := accessor]), accessor))
  }

  /** Registration keeps the catalog consistent. */
  lemma {:induction false} RegisterDatabaseValid(c: Catalog, conf: DbConf)
    requires CatalogValid(c)
    requires RegisterDatabase(c, conf).Ok?
    ensures CatalogValid(RegisterDatabase(c, conf).value.0)
  {
    var c' := RegisterDatabase(c, conf).value.0;
    var key := ToKey(conf.name);
    forall i | 0 <= i < |c'.names|
      ensures ToKey(c'.names[i]) in c'.accessors && c'.accessors[ToKey(c'.names[i])].name == c'.names[i]
    {
      if i < |c.names| {
        assert c'.names[i] == c.names[i];
        assert ToKey(c.names[i]) != key;
      }
    }
    forall k | k in c'.accessors
      ensures exists i :: 0 <= i < |c'.names| && ToKey(c'.names[i]) == k
    {
      if k == key {
        assert ToKey(c'.names[|c.names|]) == k;
      } else {
        var i :| 0 <= i < |c.names| && ToKey(c.names[i]) == k;
        assert c'.names[i] == c.names[i];
      }
    }
  }

  /** In the corrected registry a first call always returns a new accessor,
      and a later call with any name of the same key always throws. */
  lemma SameKeyThrows(c: Catalog, conf: DbConf, later: DbConf)
    requires ToKey(conf.name) !in c.accessors
    requires ToKey(later.name) == ToKey(conf.name)
    ensures RegisterDatabase(c, conf) == Ok((RegisterDatabase(c, conf).value.0, DbAccessor(conf.name, conf.version)))
    ensures RegisterDatabase(RegisterDatabase(c, conf).value.0, later) == Err(AlreadyExists(later.name))
  {
  }

  /** Where the as-written code behaves as intended (the name is not a
      factory member and no recorded name shares its key), both versions
      record the name and return the same accessor. */
  lemma ConfigDatabaseAgrees(db: ProtoDb, c: Catalog, conf: DbConf)
    requires CatalogValid(c)
    requires db.dbNames == c.names
    requires Lookup(db, ToKey(conf.name)).None?
    requires ToKey(conf.name) !in c.accessors
    ensures ConfigDatabase(db, conf).Ok? && RegisterDatabase(c, conf).Ok?
    ensures ConfigDatabase(db, conf).value.1 == Database(RegisterDatabase(c, conf).value.1)
    ensures ConfigDatabase(db, conf).value.0.dbNames == RegisterDatabase(c, conf).value.0.names
  {
    assert forall i :: 0 <= i < |c.names| ==> ToKey(c.names[i]) != ToKey(conf.name);
  }
}
