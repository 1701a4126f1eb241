/** The store configurations a database accessor accumulates before it is
    first opened (`configObjectStore`), and the order in which the upgrade
    handler later walks them (`for (var key in storeConfigs)`). */
module StoreRegistry {
  import opened Results
  import opened JsValues
  import opened PropertyOrder
  import IndexConfig

  /** The user-supplied record transformation (records are JavaScript values) `upgradeMapper(item, oldVersion, newVersion)`. */
  type Mapper = (JsValue, int, int) -> JsValue

  /** A store configuration as the application wrote it. `indexes` is
      `None` when the property is absent; `upgradeMapper` is `None` when no
      mapper function is given. */
  datatype StoreConf = StoreConf(
    name: JsValue,
    keyPath: JsValue,
    autoIncrement: JsValue,
    indexes: Option<seq<IndexConfig.RawIndexConf>>,
    upgradeMapper: Option<Mapper>)

  /** The configuration errors `configObjectStore` throws. */
  datatype RegistrationError = MissingNameOrKeyPath | DuplicateStore(key: string)

  /** The `storeConfigs` object: its own keys in assignment order and the
      configuration stored under each. */
  datatype Registry = Registry(insertion: seq<string>, configs: map<string, StoreConf>)

  /** The property key a configuration is stored under. */
  function KeyOf(conf: StoreConf): string {
    ToKey(conf.name)
  }

  /** A configuration that passes the presence check. */
  predicate HasNameAndKeyPath(conf: StoreConf) {
    Truthy(conf.name) && Truthy(conf.keyPath)
  }

  /** Registry invariant: every key assigned once, the key list and the map
      agree, and each configuration sits under its own name and passed the
      presence check. */
  ghost predicate Valid(reg: Registry) {
    && Distinct(reg.insertion)
    && (forall k :: k in reg.configs <==> k in reg.insertion)
    && (forall k :: k in reg.configs ==> KeyOf(reg.configs[k]) == k && HasNameAndKeyPath(reg.configs[k]))
  }

  /** The registry of a freshly created database accessor. */
  function EmptyRegistry(): (reg: Registry)
    ensures Valid(reg)
    ensures reg.configs == map[]
  {
    Registry([], map[])
  }

  function Append(reg: Registry, conf: StoreConf): Registry {
    Registry(reg.insertion + [KeyOf(conf)], reg.configs[KeyOf(conf) := conf])
  }

  /** `configObjectStore` as written: the duplicate test reads
      `storeConfigs[config.name]`, which is also truthy for every name a
      plain object inherits from Object.prototype. */
  function ConfigObjectStore(reg: Registry, conf: StoreConf): (r: Result<Registry, RegistrationError>)
    ensures r.Err? <==> !HasNameAndKeyPath(conf) || KeyOf(conf) in reg.configs || KeyOf(conf) in InheritedNames
    ensures r.Ok? ==> r.value == Append(reg, conf)
  {
    if !Truthy(conf.name) || !Truthy(conf.keyPath) then Err(MissingNameOrKeyPath)
    else if KeyOf(conf) in reg.configs || KeyOf(conf) in InheritedNames then Err(DuplicateStore(KeyOf(conf)))
    else Ok(Append(reg, conf))
  }

  /** As written, a store named after an Object.prototype member is refused
      as a duplicate even though nothing was registered. */
  lemma InheritedNameRefused(mapper: Option<Mapper>)
    ensures ConfigObjectStore(EmptyRegistry(), StoreConf(Str("toString"), Str("id"), Undefined, None, mapper))
            == Err(DuplicateStore("toString"))
  {
  }

  /** `configObjectStore` with the duplicate test on own keys only. Throws
      when `name` or `keyPath` is falsy, or when the name is already
      registered; otherwise registers exactly this one configuration and
      leaves every earlier one in place. */
  function RegisterStore(reg: Registry, conf: StoreConf): (r: Result<Registry, RegistrationError>)
    ensures r.Err? <==> !HasNameAndKeyPath(conf) || KeyOf(conf) in reg.configs
    ensures r.Err? && !HasNameAndKeyPath(conf) ==> r.error == MissingNameOrKeyPath
    ensures r.Err? && HasNameAndKeyPath(conf) ==> r.error == DuplicateStore(KeyOf(conf))
    ensures r.Ok? ==> r.value.configs.Keys == reg.configs.Keys + {KeyOf(conf)}
    ensures r.Ok? ==> r.value.configs[KeyOf(conf)] == conf
    ensures r.Ok? ==> forall k :: k in reg.configs ==> r.value.configs[k] == reg.configs[k]
    ensures r.Ok? ==> r.value.insertion == reg.insertion + [KeyOf(conf)]
    ensures r.Ok? && Valid(reg) ==> Valid(r.value)
  {
    if !Truthy(conf.name) || !Truthy(conf.keyPath) then Err(MissingNameOrKeyPath)
    else if KeyOf(conf) in reg.configs then Err(DuplicateStore(KeyOf(conf)))
    else
      var next := Append(reg, conf);
      assert Valid(reg) ==> Distinct(next.insertion) by {
        if Valid(reg) {
          forall i, j | 0 <= i < j < |next.insertion| ensures next.insertion[i] != next.insertion[j] {
            if j == |reg.insertion| {
              assert next.insertion[i] == reg.insertion[i];
            }
          }
        }
      }
      Ok(next)
  }

  /** The corrected registration accepts the names the as-written one
      refuses, and otherwise agrees with it. */
  lemma RegisterStoreAgrees(reg: Registry, conf: StoreConf)
    requires KeyOf(conf) !in InheritedNames
    ensures RegisterStore(reg, conf).Ok? <==> ConfigObjectStore(reg, conf).Ok?
    ensures RegisterStore(reg, conf).Ok? ==> RegisterStore(reg, conf) == ConfigObjectStore(reg, conf)
  {
  }

  /** Registering a second configuration under a name already taken always
      throws, whatever the rest of the configuration says. */
  lemma SecondRegistrationFails(reg: Registry, first: StoreConf, second: StoreConf)
    requires RegisterStore(reg, first).Ok?
    requires HasNameAndKeyPath(second) && KeyOf(second) == KeyOf(first)
    ensures RegisterStore(RegisterStore(reg, first).value, second) == Err(DuplicateStore(KeyOf(first)))
  {
  }

  /** The registered configurations in the order the upgrade handler's
      `for (var key in storeConfigs)` visits them. */
  function IterationOrder(reg: Registry): (cs: seq<StoreConf>)
    requires Valid(reg)
    ensures |cs| == |reg.insertion|
    ensures forall i :: 0 <= i < |cs| ==> KeyOf(cs[i]) in reg.configs && reg.configs[KeyOf(cs[i])] == cs[i]
  {
    var keys := ForInOrder(reg.insertion);
    ForInKeysRegistered(reg);
    seq(|keys|, i requires 0 <= i < |keys| => reg.configs[keys[i]])
  }

  lemma ForInKeysRegistered(reg: Registry)
    requires Valid(reg)
    ensures forall i :: 0 <= i < |ForInOrder(reg.insertion)| ==> ForInOrder(reg.insertion)[i] in reg.configs
  {
    var keys := ForInOrder(reg.insertion);
    forall i | 0 <= i < |keys| ensures keys[i] in reg.configs {
      assert keys[i] in multiset(reg.insertion);
    }
  }

  /** Distinct keys in a sequence of configurations. */
  ghost predicate UniqueKeys(cs: seq<StoreConf>) {
    forall i, j :: 0 <= i < j < |cs| ==> KeyOf(cs[i]) != KeyOf(cs[j])
  }

  /** The upgrade handler meets every registered configuration exactly
      once: the iteration has no repeated key, only registered
      configurations and all of them. */
  lemma IterationOrderComplete(reg: Registry)
    requires Valid(reg)
    ensures UniqueKeys(IterationOrder(reg))
    ensures forall i :: 0 <= i < |IterationOrder(reg)| ==>
              KeyOf(IterationOrder(reg)[i]) in reg.configs && reg.configs[KeyOf(IterationOrder(reg)[i])] == IterationOrder(reg)[i]
    ensures forall k :: k in reg.configs ==> exists i :: 0 <= i < |IterationOrder(reg)| && KeyOf(IterationOrder(reg)[i]) == k
  {
    var keys := ForInOrder(reg.insertion);
    var cs := IterationOrder(reg);
    IterationKeys(reg);
    ForInOrderDistinct(reg.insertion);
    assert UniqueKeys(cs) by {
      forall i, j | 0 <= i < j < |cs| ensures KeyOf(cs[i]) != KeyOf(cs[j]) {
        assert KeyOf(cs[i]) == keys[i] && KeyOf(cs[j]) == keys[j];
      }
    }
    forall k | k in reg.configs ensures exists i :: 0 <= i < |cs| && KeyOf(cs[i]) == k {
      ForInOrderIsPermutation(reg.insertion);
      assert k in multiset(reg.insertion);
      assert k in multiset(keys);
      var i :| 0 <= i < |keys| && keys[i] == k;
      assert KeyOf(cs[i]) == k;
    }
  }

  lemma IterationKeys(reg: Registry)
    requires Valid(reg)
    ensures |IterationOrder(reg)| == |ForInOrder(reg.insertion)|
    ensures forall i :: 0 <= i < |IterationOrder(reg)| ==>
              var k := ForInOrder(reg.insertion)[i];
              k in reg.configs && IterationOrder(reg)[i] == reg.configs[k] && KeyOf(IterationOrder(reg)[i]) == k
  {
    ForInKeysRegistered(reg);
  }

  /** When no store name is an array index, stores are visited in
      registration order. */
  lemma IterationFollowsRegistration(reg: Registry)
    requires Valid(reg)
    requires forall i :: 0 <= i < |reg.insertion| ==> !IsArrayIndex(reg.insertion[i])
    ensures forall i :: 0 <= i < |reg.insertion| ==> KeyOf(IterationOrder(reg)[i]) == reg.insertion[i]
  {
    PlainKeysKeepInsertionOrder(reg.insertion);
  }
}
