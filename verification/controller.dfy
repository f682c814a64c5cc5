/**
 * The controller (`ScramjetController` in src/controller/index.ts): the
 * active configuration, the handle on the persistent store, and the public
 * operations that read and update them.
 */
module Controller {
  import opened Wrappers
  import opened Values
  import opened Merge
  import opened Defaults
  import opened Codec
  import opened Store

  /** The controller's state: the active configuration and the store handle (`None` until opened). */
  datatype State = State(config: Config, store: Option<Database>)

  /** The configuration carries a string `prefix`, as its declared type demands. */
  predicate HasStringPrefix(config: Config)
  {
    "prefix" in config && config["prefix"].Str?
  }

  function Prefix(config: Config): (prefix: string)
    requires HasStringPrefix(config)
  {
    config["prefix"].s
  }

  /** Once opened, the store holds both partitions. */
  predicate Valid(st: State)
  {
    st.store.Some? ==> Ready(st.store.value)
  }

  /** The store is open and holds the active configuration under its key. */
  predicate Persisted(st: State)
  {
    st.store.Some? && StoredConfig(st.store.value) == Some(Rec(st.config))
  }

  /** The constructor: the caller's partial configuration merged deeply over the defaults. */
  function Construct(partial: Config): (st: State)
    requires Compatible(DefaultConfig, partial)
    ensures st.store == None
    ensures st.config.Keys == DefaultConfig.Keys + partial.Keys
    ensures forall k :: k in DefaultConfig && k !in partial ==> st.config[k] == DefaultConfig[k]
    ensures forall k :: k in partial && IsLeaf(partial[k]) ==> st.config[k] == partial[k]
  {
    State(DeepMerge(DefaultConfig, partial), None)
  }

  /** A constructed controller has a string prefix unless the caller supplied some other prefix. */
  lemma ConstructKeepsStringPrefix(partial: Config)
    requires Compatible(DefaultConfig, partial)
    requires "prefix" !in partial || partial["prefix"].Str?
    ensures HasStringPrefix(Construct(partial).config)
  {
    DefaultFlagsShape();
  }

  /**
   * `openIDB`, as `init` runs it. The controller's handle is set as soon as
   * the request succeeds, so a stalled open leaves it pointing at the
   * database as the success handler found it.
   */
  function OpenStore(st: State, request: OpenRequest, writeError: Option<string>): (r: OpenOutcome<State>)
    ensures r.Rejected? <==> request.Errored?
    ensures r.Rejected? ==> r.reason == request.reason
    ensures r.Resolved? <==>
      request.Opened? && (request.upgradeNeeded || Ready(request.existing)) && writeError.None?
    ensures r.Stalled? ==>
      && r.handle.config == st.config
      && r.handle.store.Some?
      && (forall n :: n in request.existing ==>
            n in r.handle.store.value && r.handle.store.value[n] == request.existing[n])
      && (!request.upgradeNeeded ==> r.handle.store == Some(request.existing))
      && (request.upgradeNeeded ==> Valid(r.handle))
      && r.handle.store.value.Keys == request.existing.Keys +
           (if request.upgradeNeeded then {ConfigPartition, CookiePartition} else {})
      && (forall n :: n in r.handle.store.value && n !in request.existing ==>
            r.handle.store.value[n] == map[])
    ensures r.Resolved? ==>
      && r.value.config == st.config
      && Valid(r.value)
      && Persisted(r.value)
      && r.value.store.value.Keys == request.existing.Keys + {ConfigPartition, CookiePartition}
      && (forall n :: n in request.existing && n != ConfigPartition ==>
            r.value.store.value[n] == request.existing[n])
      && (forall n :: n in r.value.store.value && n !in request.existing && n != ConfigPartition ==>
            r.value.store.value[n] == map[])
      && (ConfigPartition in request.existing ==>
            r.value.store.value[ConfigPartition].Keys == request.existing[ConfigPartition].Keys + {ConfigKey})
      && (ConfigPartition !in request.existing ==> r.value.store.value[ConfigPartition].Keys == {ConfigKey})
      && (ConfigPartition in request.existing ==>
            forall k :: k in request.existing[ConfigPartition] && k != ConfigKey ==>
              k in r.value.store.value[ConfigPartition]
              && r.value.store.value[ConfigPartition][k] == request.existing[ConfigPartition][k])
  {
    match Open(st.config, request, writeError)
    case Rejected(e) => Rejected(e)
    case Stalled(db) => Stalled(st.(store := Some(db)))
    case Resolved(db) => Resolved(st.(store := Some(db)))
  }

  /**
   * Without an upgrade, a database lacking the config partition stalls the
   * open, and every later save through the handle it left is rejected.
   */
  lemma MissingConfigPartitionStallsOpen(st: State, existing: Database, writeError: Option<string>,
                                         patch: Config, saveError: Option<string>)
    requires ConfigPartition !in existing
    ensures OpenStore(st, Opened(existing, false), writeError).Stalled?
    ensures var stalled := OpenStore(st, Opened(existing, false), writeError).handle;
      ModifyConfig(stalled, patch, saveError).1 == WriteFailed("NotFoundError")
  {
  }

  /**
   * `modifyConfig`: a shallow overwrite of the active configuration by the
   * patch, then a save. The in-memory configuration changes whether or not
   * the save succeeds.
   */
  function ModifyConfig(st: State, patch: Config, writeError: Option<string>): (r: (State, SaveStatus))
    ensures r.0.config.Keys == st.config.Keys + patch.Keys
    ensures forall k :: k in patch ==> r.0.config[k] == patch[k]
    ensures forall k :: k in st.config && k !in patch ==> r.0.config[k] == st.config[k]
    ensures st.store.None? ==> r.0.store == None && r.1 == NotReady
    ensures r.1.NotReady? <==> st.store.None?
    ensures st.store.Some? && ConfigPartition !in st.store.value ==> r.1 == WriteFailed("NotFoundError")
    ensures st.store.Some? && ConfigPartition in st.store.value && writeError.Some? ==>
      r.1 == WriteFailed(writeError.value)
    ensures r.1.Saved? <==> st.store.Some? && ConfigPartition in st.store.value && writeError.None?
    ensures !r.1.Saved? ==> r.0.store == st.store
    ensures Valid(st) ==> Valid(r.0)
    ensures st.store.Some? && ConfigPartition in st.store.value && writeError.None? ==>
      && r.1 == Saved
      && Persisted(r.0)
      && r.0.store.value.Keys == st.store.value.Keys
      && (forall n :: n in st.store.value && n != ConfigPartition ==>
            r.0.store.value[n] == st.store.value[n])
      && r.0.store.value[ConfigPartition].Keys == st.store.value[ConfigPartition].Keys + {ConfigKey}
      && (forall k :: k in st.store.value[ConfigPartition] && k != ConfigKey ==>
            k in r.0.store.value[ConfigPartition]
            && r.0.store.value[ConfigPartition][k] == st.store.value[ConfigPartition][k])
  {
    var config := ShallowOverwrite(st.config, patch);
    var (store, status) := Save(st.store, config, writeError);
    (State(config, store), status)
  }

  /** `encodeUrl`: the prefix followed by the installed encoder's output. */
  function EncodeUrl(st: State, encode: string -> string, url: string): (r: string)
    requires HasStringPrefix(st.config)
    ensures |Prefix(st.config)| <= |r|
    ensures r[..|Prefix(st.config)|] == Prefix(st.config)
    ensures r[|Prefix(st.config)|..] == encode(url)
  {
    Prefix(st.config) + encode(url)
  }

  /** With the default codec, the empty URL encodes to the prefix alone. */
  lemma EncodeEmptyUrlIsPrefix(st: State, encodeComponent: string -> string)
    requires HasStringPrefix(st.config)
    ensures EncodeUrl(st, u => DefaultEncode(encodeComponent, u), "") == Prefix(st.config)
  {
    DefaultEncodePassesEmptyThrough(encodeComponent);
  }

  /**
   * With the default codec over inverse component functions, stripping the
   * prefix and decoding recovers the URL, so distinct URLs encode distinctly.
   */
  lemma EncodeUrlRecoverable(st: State, encodeComponent: string -> string,
                             decodeComponent: string -> string, url: string)
    requires HasStringPrefix(st.config)
    requires InvertsOnNonEmpty(encodeComponent, decodeComponent)
    ensures var r := EncodeUrl(st, u => DefaultEncode(encodeComponent, u), url);
      DefaultDecode(decodeComponent, r[|Prefix(st.config)|..]) == url
  {
    DefaultCodecRoundTrip(encodeComponent, decodeComponent, url);
  }

  /** Opening the store again, from the database the first open left, changes nothing. */
  lemma ReopenStoreChangesNothing(st: State, request: OpenRequest, writeError: Option<string>, upgradeNeeded: bool)
    requires OpenStore(st, request, writeError).Resolved?
    ensures var st1 := OpenStore(st, request, writeError).value;
      OpenStore(st1, Opened(st1.store.value, upgradeNeeded), None) == Resolved(st1)
  {
    ReopenChangesNothing(st.config, request, writeError, upgradeNeeded);
  }

  /**
   * A rejected save after a change leaves the store holding the previous
   * configuration while the active configuration has moved on.
   */
  lemma FailedSaveLeavesStaleCopy(st: State, patch: Config, reason: string)
    requires Persisted(st)
    requires ShallowOverwrite(st.config, patch) != st.config
    ensures var r := ModifyConfig(st, patch, Some(reason));
      && r.1 == WriteFailed(reason)
      && !Persisted(r.0)
      && StoredConfig(r.0.store.value) == Some(Rec(st.config))
  {
  }

  /**
   * Construction with `{prefix: "/px/"}` sets the prefix and keeps every
   * other default, nested flags included.
   */
  lemma ConstructWithPrefixKeepsDefaults()
    ensures Compatible(DefaultConfig, map["prefix" := Str("/px/")])
    ensures var st := Construct(map["prefix" := Str("/px/")]);
      && Prefix(st.config) == "/px/"
      && Find(Rec(st.config), ["defaultFlags", "captureErrors"]) == Some(Bool(true))
      && (forall k :: k in DefaultConfig && k != "prefix" ==> st.config[k] == DefaultConfig[k])
  {
    DefaultFlagsShape();
    var st := Construct(map["prefix" := Str("/px/")]);
    var path := ["defaultFlags", "captureErrors"];
    assert path[1..] == ["captureErrors"] && path[1..][1..] == [];
    assert st.config["defaultFlags"] == Rec(DefaultFlags);
  }

  /** `{defaultFlags: {syncxhr: true}}`, the flags patch of the examples below. */
  const SyncXhrPatch: Config := map["defaultFlags" := Rec(map["syncxhr" := Bool(true)])]

  /**
   * Merged over any configuration whose flags record holds `captureErrors`,
   * the flags patch sets `syncxhr` and keeps `captureErrors` as it was.
   */
  lemma SyncXhrPatchMergedDeeplyOver(t: Config)
    requires "defaultFlags" in t && t["defaultFlags"].Rec? && "captureErrors" in t["defaultFlags"].fields
    ensures Compatible(t, SyncXhrPatch)
    ensures Find(Rec(DeepMerge(t, SyncXhrPatch)), ["defaultFlags", "captureErrors"])
      == Some(t["defaultFlags"].fields["captureErrors"])
    ensures Find(Rec(DeepMerge(t, SyncXhrPatch)), ["defaultFlags", "syncxhr"]) == Some(Bool(true))
  {
    var patch := SyncXhrPatch;
    var flags := map["syncxhr" := Bool(true)];
    assert patch["defaultFlags"] == Rec(flags);
    assert Compatible(t["defaultFlags"].fields, flags);
    assert Compatible(t, patch);
    ShallowDropsWhatDeepKeeps(t, patch, "defaultFlags", "captureErrors");
    var p2 := ["defaultFlags", "syncxhr"];
    assert p2[1..] == ["syncxhr"] && p2[1..][1..] == [];
    assert Find(Rec(patch), p2) == Some(Bool(true));
    MergeKeepsOverrideLeaves(t, patch, p2);
  }

  /**
   * Merged at construction, the flags patch sets `syncxhr` and keeps the
   * other default flags: `captureErrors` stays true.
   */
  lemma SyncXhrPatchMergedDeeply()
    ensures Compatible(DefaultConfig, SyncXhrPatch)
    ensures Find(Rec(Construct(SyncXhrPatch).config), ["defaultFlags", "captureErrors"]) == Some(Bool(true))
    ensures Find(Rec(Construct(SyncXhrPatch).config), ["defaultFlags", "syncxhr"]) == Some(Bool(true))
  {
    DefaultFlagsShape();
    SyncXhrPatchMergedDeeplyOver(DefaultConfig);
  }

  /**
   * Applied by `modifyConfig`, the flags patch replaces the flags record
   * whole: `captureErrors` is gone, whatever the configuration held before.
   */
  lemma SyncXhrPatchOverwritesShallowly(st: State, writeError: Option<string>)
    ensures ModifyConfig(st, SyncXhrPatch, writeError).0.config["defaultFlags"] == Rec(map["syncxhr" := Bool(true)])
    ensures Find(Rec(ModifyConfig(st, SyncXhrPatch, writeError).0.config), ["defaultFlags", "captureErrors"]) == None
  {
    var flags := map["syncxhr" := Bool(true)];
    assert SyncXhrPatch["defaultFlags"] == Rec(flags);
    var p1 := ["defaultFlags", "captureErrors"];
    assert p1[1..] == ["captureErrors"];
    assert "captureErrors" !in flags;
  }
}
