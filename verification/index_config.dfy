/** Normalisation of one index configuration before `createIndex` is
    called during an upgrade (`defaultsNormalizedIndexConf`). */
module IndexConfig {
  import opened Results
  import opened JsValues

  /** An index configuration as the application wrote it; any field may be
      missing (`Undefined`) or of the wrong type. */
  datatype RawIndexConf = RawIndexConf(keyPath: JsValue, name: JsValue, unique: JsValue, multiEntry: JsValue)

  /** The options object handed to `createIndex`: a flag is present only
      when the raw configuration gave a boolean for it. */
  datatype IndexOptions = IndexOptions(unique: Option<bool>, multiEntry: Option<bool>)

  /** A normalised index configuration. */
  datatype IndexConf = IndexConf(keyPath: string, name: string, options: IndexOptions)

  /** The error thrown when the key path is missing or not a non-empty string. */
  datatype IndexError = MissingKeyPath

  /** Keeps a boolean flag, drops anything else. */
  function FlagOf(v: JsValue): (r: Option<bool>)
    ensures r.Some? <==> ValidBool(v)
    ensures r.Some? ==> v == Bool(r.value)
  {
    if ValidBool(v) then Some(v.b) else None
  }

  /** Throws unless the key path is a non-empty string; the name defaults to
      the key path unless it is itself a non-empty string; each option is
      copied exactly when it is a boolean. */
  function Normalize(raw: RawIndexConf): (r: Result<IndexConf, IndexError>)
    ensures r.Err? <==> !ValidStr(raw.keyPath)
    ensures r.Ok? ==> Str(r.value.keyPath) == raw.keyPath
    ensures r.Ok? ==> Str(r.value.name) == (if ValidStr(raw.name) then raw.name else raw.keyPath)
    ensures r.Ok? ==> (r.value.options.unique.Some? <==> ValidBool(raw.unique))
    ensures r.Ok? ==> (r.value.options.multiEntry.Some? <==> ValidBool(raw.multiEntry))
    ensures r.Ok? && ValidBool(raw.unique) ==> r.value.options.unique == Some(raw.unique.b)
    ensures r.Ok? && ValidBool(raw.multiEntry) ==> r.value.options.multiEntry == Some(raw.multiEntry.b)
    ensures r.Ok? ==> WellFormed(r.value)
  {
    if !ValidStr(raw.keyPath) then Err(MissingKeyPath)
    else
      var name := if ValidStr(raw.name) then raw.name.s else raw.keyPath.s;
      Ok(IndexConf(raw.keyPath.s, name, IndexOptions(FlagOf(raw.unique), FlagOf(raw.multiEntry))))
  }

  /** A normalised configuration always names a non-empty key path and a
      non-empty index name. */
  predicate WellFormed(c: IndexConf) {
    |c.keyPath| > 0 && |c.name| > 0
  }

  function FlagToJs(f: Option<bool>): (v: JsValue)
    ensures FlagOf(v) == f
  {
    match f
    case None => Undefined
    case Some(b) => Bool(b)
  }

  /** Writes a normalised configuration back as an application-level one. */
  function ToRaw(c: IndexConf): (raw: RawIndexConf)
    ensures raw.keyPath == Str(c.keyPath) && raw.name == Str(c.name)
  {
    RawIndexConf(Str(c.keyPath), Str(c.name), FlagToJs(c.options.unique), FlagToJs(c.options.multiEntry))
  }

  /** Round trip: a well-formed configuration written back as raw input
      normalises to itself. */
  lemma NormalizeToRaw(c: IndexConf)
    requires WellFormed(c)
    ensures Normalize(ToRaw(c)) == Ok(c)
  {
  }

  /** Normalisation is idempotent: normalising an already normalised
      configuration changes nothing. */
  lemma NormalizeIdempotent(raw: RawIndexConf)
    requires Normalize(raw).Ok?
    ensures Normalize(ToRaw(Normalize(raw).value)) == Normalize(raw)
  {
    NormalizeToRaw(Normalize(raw).value);
  }

  /** Only the well-typed fields matter: two raw configurations that agree
      on their valid strings and booleans normalise identically. */
  lemma NormalizeIgnoresIllTyped(a: RawIndexConf, b: RawIndexConf)
    requires ValidStr(a.keyPath) == ValidStr(b.keyPath) && (ValidStr(a.keyPath) ==> a.keyPath == b.keyPath)
    requires ValidStr(a.name) == ValidStr(b.name) && (ValidStr(a.name) ==> a.name == b.name)
    requires FlagOf(a.unique) == FlagOf(b.unique) && FlagOf(a.multiEntry) == FlagOf(b.multiEntry)
    ensures Normalize(a) == Normalize(b)
  {
  }
}
