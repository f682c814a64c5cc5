# Scramjet controller configuration core, in Dafny

This project models the configuration core of Scramjet's controller
(`ScramjetController`, `src/controller/index.ts`), the bootstrap object of a
client-side interception proxy. It covers:

- the built-in default configuration and the **deep merge** (`deepMerge`)
  that combines a caller's partial configuration with it at construction;
- the **shallow overwrite** that `modifyConfig` applies at run time, and how
  it differs from the deep merge;
- `encodeUrl`, the proxy prefix followed by the installed encoder's output,
  and the default codec snippets' pass-through of the empty URL;
- the persistent store as an abstract state machine: `openIDB` creating the
  "config" and "cookies" partitions and writing the configuration, and
  `#saveConfig` skipping the write before the store is open.

Configuration values are JSON-like (`Values.Value`: strings, booleans and
records keyed by strings). Everything is a pure function over immutable
values: the JavaScript mutates its arguments and a process-wide
configuration, while the model returns the new state.

Modules, one file each: `Wrappers` (Option), `Values` (values and
path lookup `Find`), `Merge` (deep merge, shallow overwrite and their
properties), `Defaults` (the default configuration), `Codec` (the default
encode/decode snippets), `Store` (partitions, open, save) and `Controller`
(controller state and public operations).

Inputs that come from the platform are parameters:
- the answer to the IndexedDB open request is `Store.OpenRequest`: the database found on disk, or an error;
- a rejected write is an optional error string;
- the installed `encode` function is a `string -> string` value;
- `encodeURIComponent` and `decodeURIComponent` are parameters of the codec snippets.

The deep merge recurses at a key when the override's value is an object and
the key exists in the target. So an override string or boolean replaces a
default record outright. The precondition `Merge.Compatible` excludes an
override record meeting a default primitive at the same key. There the code
either throws on `in` applied to a primitive, or copies a default string's
characters into the result. A third case is well defined but ill-typed: a
boolean or empty-string default under an override record with no nested
records just yields the override record. `Compatible` excludes that case too.

An open that stalls is modelled as a third outcome beside success and
rejection. The controller's handle is already set, but the open never
settles. This happens when the success handler finds a partition still
missing outside an upgrade: creating one there throws. It also happens when
the first configuration write is rejected.

## Model

| member | source | states |
|---|---|---|
| Merge.DeepMerge | src/controller/index.ts:49-57 | the result's keys are the union of default and override keys; a key only in the defaults keeps its default value; an override primitive, or an override record at a key the defaults lack, is taken as is; where the override holds a record at a default key, both are records and so is the result |
| Merge.DeepMergeAtSharedRecord | src/controller/index.ts:51-52 | where the override holds a record at a default key, the result there is a record naming every nested key of both; a nested key only in the defaults keeps its value and a nested override primitive wins |
| Merge.MergeKeepsOverrideLeaves | src/controller/index.ts:49-57 | every string or boolean the override sets, at any depth, is in the merged configuration at the same path |
| Merge.MergeKeepsUntouchedDefaults | src/controller/index.ts:49-57 | every default value at a path the override does not reach survives the merge unchanged, nested defaults included |
| Merge.MergeLeavesHaveASource | src/controller/index.ts:49-57 | every primitive in the merged configuration was set there by the override, or is a default at a path the override leaves untouched |
| Merge.MergeLeaves | src/controller/index.ts:49-57 | a primitive sits at a path of the merge iff the override sets it there, or the defaults hold it there and the override leaves that path untouched |
| Merge.MergeEmptyOverride | src/controller/index.ts:50-56 | merging an empty override returns the defaults exactly |
| Merge.MergeWithSelf | src/controller/index.ts:49-57 | merging a configuration over itself changes nothing |
| Merge.MergeStaysCompatible | src/controller/index.ts:49-57 | the merged result can again take the same override without breaking the merge's precondition |
| Merge.MergeIdempotent | src/controller/index.ts:49-57 | applying the same override twice gives the same configuration as applying it once |
| Merge.MergeYieldsOverrideIffCovers | src/controller/index.ts:49-57 | the merge returns exactly the override iff the override already names every default key at every record depth |
| Merge.ShallowOverwrite | src/controller/index.ts:132 | the result's keys are the union of old and patch keys; a key in the patch takes the patch's whole value; other keys keep their old value |
| Merge.ShallowAgreesWithDeepIffCovering | src/controller/index.ts:132 | the shallow overwrite equals the deep merge iff every record the patch sets over an existing record already covers it |
| Merge.ShallowDropsWhatDeepKeeps | src/controller/index.ts:132 | where old configuration and patch both hold records at a key and the patch omits a nested key, the shallow overwrite loses it and the deep merge keeps its old value |
| Defaults.DefaultFlagsShape | src/controller/index.ts:10-47 | the defaults hold prefix "/scramjet/" and a flags record with captureErrors true and syncxhr false |
| Codec.DefaultEncode | src/controller/index.ts:42-43 | the empty URL is returned unchanged; any other URL is passed through the component encoder |
| Codec.DefaultDecode | src/controller/index.ts:44-45 | the empty URL is returned unchanged; any other URL is passed through the component decoder |
| Codec.DefaultEncodePassesEmptyThrough | src/controller/index.ts:42-43 | the default encode snippet returns the empty string unchanged, whatever the component encoder does |
| Codec.DefaultCodecRoundTrip | src/controller/index.ts:42-45 | when the component functions are inverse on non-empty strings, the default decode snippet undoes the default encode snippet on every string |
| Store.CreateIfMissing | src/controller/index.ts:104-109 | a missing partition is added empty; existing partitions, including one of that name, are kept as they are |
| Store.EnsurePartitions | src/controller/index.ts:104-109 | afterwards both "config" and "cookies" exist; existing partitions are untouched; only those two may be added, empty |
| Store.EnsurePartitionsFixedIffReady | src/controller/index.ts:104-109 | partition creation changes the database iff one of the two partitions is missing |
| Store.EnsurePartitionsIdempotent | src/controller/index.ts:102-110 | running partition creation twice is the same as running it once |
| Store.Save | src/controller/index.ts:115-129 | the save reports not ready exactly when the store is not open, and then writes nothing; on an open store a missing config partition fails with NotFoundError and a rejected write fails with its error, both changing nothing; otherwise the configuration is stored under key "config" and nothing else in the database changes |
| Store.Open | src/controller/index.ts:87-113 | an errored request rejects with its error; the open resolves iff the request succeeded, the partitions exist or an upgrade created them, and the first write succeeded; otherwise it stalls, and the handle holds the existing partitions untouched plus, after an upgrade, only the two partitions created empty. On resolving: both partitions exist, other partitions are untouched, the config partition keeps its other keys and gains no key but "config", a cookies partition that was absent is created empty, and the configuration is stored |
| Store.ReopenChangesNothing | src/controller/index.ts:87-113 | opening again the database a resolved open produced, with the same configuration, resolves with the same database |
| Controller.Construct | src/controller/index.ts:8-60 | a new controller has no store; its configuration holds every default key and every key of the caller's input, keeps defaults the caller did not name, and takes the caller's primitives as given |
| Controller.ConstructKeepsStringPrefix | src/controller/index.ts:11 | a constructed controller has a string prefix (the default "/scramjet/" or the caller's) unless the caller supplied a non-string prefix |
| Controller.OpenStore | src/controller/index.ts:62-65 | opening rejects iff the request errored, and resolves iff the partitions exist or an upgrade created them and the first write succeeds; a stalled open still sets the store handle, to the database found, or after an upgrade to it plus the two partitions created empty; on resolving the configuration is unchanged and persisted, both partitions exist, other partitions are untouched, a cookies partition that was absent is created empty, and the config partition keeps its other keys and gains no key but "config" |
| Controller.MissingConfigPartitionStallsOpen | src/controller/index.ts:91-99 | without an upgrade, a database lacking the config partition stalls the open, and every later save through the handle it left is rejected |
| Controller.ModifyConfig | src/controller/index.ts:131-136 | the new configuration is the shallow overwrite; the save reports not ready exactly when the store is not open, and then writes nothing; on an open store a missing config partition fails with NotFoundError and a rejected write fails with its error; a failed save leaves the store as it was; the save succeeds exactly when the store is open, holds the config partition and the write is not rejected, and then it persists the new configuration and changes no other partition, and adds or changes no key of the config partition but "config" |
| Controller.EncodeUrl | src/controller/index.ts:81-85 | the result starts with the configured prefix and the remainder is the encoder's output for the URL |
| Controller.EncodeEmptyUrlIsPrefix | src/controller/index.ts:42-43 | with the default codec, encoding the empty URL yields the prefix alone |
| Controller.EncodeUrlRecoverable | src/controller/index.ts:42-45 | with the default codec over inverse component functions, stripping the prefix and decoding gives back the URL |
| Controller.ReopenStoreChangesNothing | src/controller/index.ts:87-113 | opening the store a second time, from the database the first open left, leaves the controller's state as it was |
| Controller.FailedSaveLeavesStaleCopy | src/controller/index.ts:131-135 | when a save after a real change is rejected, the active configuration moves on while the store keeps the previous one |
| Controller.ConstructWithPrefixKeepsDefaults | src/controller/index.ts:10-59 | constructing with `{prefix: "/px/"}` sets that prefix, keeps every other top-level default and keeps defaultFlags.captureErrors true |
| Controller.SyncXhrPatchMergedDeeplyOver | src/controller/index.ts:49-57 | merging `{defaultFlags: {syncxhr: true}}` over any configuration with a captureErrors flag sets syncxhr and keeps captureErrors as it was |
| Controller.SyncXhrPatchMergedDeeply | src/controller/index.ts:29-59 | at construction that patch sets syncxhr and keeps the default captureErrors true |
| Controller.SyncXhrPatchOverwritesShallowly | src/controller/index.ts:132 | through modifyConfig that patch leaves defaultFlags exactly `{syncxhr: true}`, so captureErrors is gone |

## Left out

- IndexedDB request and event machinery (open requests, `onsuccess`, `onupgradeneeded`, `onerror`, transactions): asynchronous browser I/O. The request's outcome is the `OpenRequest` parameter and a rejected write is an error parameter.
- Database versions: the fixed name and schema version 1 are not modelled. A version mismatch reaches the model only as an errored request or as `upgradeNeeded`.
- Service-worker registration and the await ordering inside `init`: host-platform I/O with nothing to verify beyond sequencing. `Controller.OpenStore` models only the store step of `init`.
- `createFrame`: DOM element creation with no logic.
- `loadCodecs` and the evaluation of the codec snippets as code: dynamic execution in another module. The installed encoder is a function parameter, and the snippets' behaviour is written out in `Codec` with `encodeURIComponent`/`decodeURIComponent` as parameters. The re-compilation of codecs after `modifyConfig` is not modelled.
- `URL` normalisation in `encodeUrl`: a platform library; URLs are strings.
- Controller.EncodeUrl: requires a string prefix, as the configuration's declared type demands. The JavaScript would stringify any other value.
- Merge.DeepMerge: requires `Compatible`, which excludes an override record meeting a default primitive. The JavaScript throws there, copies a string's characters, or, for a boolean or empty-string default under an override record with no nested records, yields that override record. In-place mutation and aliasing of the caller's objects, arrays and `null` are not modelled. Nor are inherited keys: `for…in` visits inherited enumerable keys, and `key in target` also finds prototype members such as `constructor` and `toString`. An override `{constructor: {name: "x"}}` makes the code recurse into the global `Object` function and throw a TypeError, while the model merges it as an ordinary new key.
- Races between overlapping `modifyConfig` saves, console logging and the `window` global assignment.
