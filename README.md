# bevy_simple_preferences, modelled in Dafny

`bevy_simple_preferences` gives a Bevy application one place to keep user
preferences. Each crate registers its preferences types with the type
registry. The application's `PreferencesPlugin` loads a single preferences
document at start-up from a file, or from browser storage in the wasm
build. It then hands every type its stored value, or else its default. When
the values change, it writes them back.

This project models the core of the crate:

- **The key rule.** `effective_type_path` decides the key a type is stored
  under. It is the type's short path when that short path is unambiguous in
  the registry, and its full path otherwise. An unregistered type, or a
  mismatched short path, panics. See `effective_path.dfy`.
- **The three map variants.** Each one is a class over a key-to-value map
  that its methods update:
  - `PreferencesReflectMap` (`reflect_map.dfy`);
  - `PreferencesMap` (`preferences_map.dfy`);
  - `PreferencesSerializableMap` (`serializable_map.dfy`).

  They share the typed lookup and store (`typed_store.dfy`) and the document
  codec (`codec.dfy`). A document is the ordered list of (key, encoded
  value) pairs that serde sees. Keys come out in the `BTreeMap`'s ascending
  order (`key_order.dfy`). Decoding inserts entries one at a time and aborts
  on the first bad one.
- **Registry data and conversion.** `PreferencesRegistryData` checks that a
  type is registered for preferences. `apply_from_reflect` turns a dynamic
  value into its concrete type, falling back to the default with
  `try_apply`. See `conversion.dfy`.
- **The per-type plugin.** `RegisteredPreferencesPlugin` hands its default
  out exactly once. Its initial-value system prefers a stored value. Its
  write-back system copies a changed resource into the map. See
  `registered_plugin.dfy`.
- **The storage type and the plugin's file handling.** `PreferencesStorageType`
  is in `storage_type.dfy`. The plugin's storage path, its load error
  recovery and its save run condition are in `plugin.dfy`.
- **The `Preferences<T>` system parameter.** Mutation goes through a guard
  that queues a `SetPreferencesCommand` when dropped. See `param.dfy`.

The Bevy type registry is represented abstractly in `reflection.dfy`:

- A `Registry` is the sequence of registrations in insertion order.
- A short-path lookup succeeds only when exactly one registration has that
  short path. This is how Bevy keeps ambiguous short names out of its
  short-path table.
- A value is `Concrete`, `Dynamic` (with an optional represented type) or
  `PartialOnly`.
- Host behaviour the crate calls but does not define is a field of a
  `Behaviour` value that every operation receives. This covers
  `FromReflect`, `Default`, `try_apply`, `reflect_partial_eq` and the
  per-value serde encoding.
- A panic is an `Outcome.Panicked` result carrying the reason. A serde
  error is `Outcome.Failed` carrying a `PreferencesError`.

## Model

| member | source | states |
|---|---|---|
| EffectivePath.EffectiveTypePath | src/reflect_map.rs:155-169 | the key is the short path when the short lookup finds a registration with the same full path; the full path when the short lookup finds nothing and the full path is registered; a panic (with the mismatch or not-registered reason) exactly in the remaining cases |
| EffectivePath.ResolveKey | src/reflect_map.rs:389-398 | a document key resolves by unique short path, else by full path, to a registration whose short or full path is that key; it resolves to nothing exactly when no registration has that full path and the short lookup fails |
| EffectivePath.KnownTypeHasKey | src/map.rs:37-51 | every registered type of a registry with distinct full paths gets a key without panicking |
| EffectivePath.KeyResolvesToType | src/reflect_map.rs:155-169 | the key a registered type is stored under resolves, when read back, to that same type's registration |
| EffectivePath.DistinctTypesGetDistinctKeys | src/serializable_map.rs:139-153 | two different registered types never share a key |
| EffectivePath.SharedShortPathFallsBack | src/reflect_map.rs:861-889 | two types with the same short path are both keyed by their full paths |
| EffectivePath.UniqueShortPathIsKey | src/map.rs:42-45 | a registered type whose short path no other type uses is keyed by its short path |
| KeyOrder.SortedKeys | src/reflect_map.rs:330-335 | a map's keys in strictly ascending order, each key exactly once, which is the order the `BTreeMap` iterates in |
| KeyOrder.LessTotal | src/reflect_map.rs:330-335 | the key order is total on distinct keys (with LessIrreflexive, LessAsymmetric and LessTransitive, a strict order) |
| TypedStore.Lookup | src/reflect_map.rs:274-278 | `get` panics exactly when the key rule panics, with the same reason; otherwise it returns the entry under the type's key when that entry is of the type, and nothing when the key is absent |
| TypedStore.Store | src/reflect_map.rs:241-246 | `set` never fails; it panics exactly when the key rule for the value's type panics; otherwise it puts the value under that key and leaves every other entry unchanged, so the map grows by at most one entry |
| TypedStore.Remove | src/reflect_map.rs:300-307 | `take` removes exactly the type's key and returns what `get` would have returned |
| TypedStore.Modify | src/reflect_map.rs:282-287 | `get_mut` finds the same entry as `get`; the edit changes only that entry's data; afterwards `get` returns the edited value; the keys are unchanged |
| TypedStore.StoreThenLookup | src/reflect_map.rs:686-697 | `set` followed by `get` of the value's type returns the value |
| TypedStore.StoreOverwriteKeepsSize | src/reflect_map.rs:241-246 | `set` on an existing key keeps the key set and `len` |
| TypedStore.StoreKeepsOtherTypes | src/reflect_map.rs:241-246 | `set` does not change what `get` returns for any other registered type |
| TypedStore.TakeAfterStore | src/reflect_map.rs:732-741 | `take` after `set` on a fresh key returns the value and restores the map exactly |
| TypedStore.LookupAfterRemove | src/map.rs:589-596 | after `remove`, `get` finds nothing for that type |
| TypedStore.SharedShortPathStoredApart | src/reflect_map.rs:700-712 | two types sharing a short path are stored under their two full paths and each `get` returns its own value |
| Codec.EncodeMap | src/reflect_map.rs:320-337 | serialisation writes one entry per stored value, in ascending key order, each under the stored key verbatim with that value's encoding; it fails only with a serialisation error |
| Codec.EncodeMapFailsIff | src/map.rs:180-197 | serialisation fails exactly when some stored value cannot be encoded |
| Codec.SerializeMap | src/serializable_map.rs:311-329 | the loop over the map's entries produces exactly the encoding above |
| Codec.EncodeFailurePersists | src/map.rs:190-195 | once one entry fails to serialise, the whole serialisation fails |
| Codec.DecodeEntry | src/reflect_map.rs:389-404 | an unresolvable key yields `UnregisteredType` with that key; a resolvable key yields the value decoded as the resolved type, or a deserialisation error |
| Codec.DecodeSucceedsIff | src/map.rs:241-258 | decoding a document succeeds exactly when every entry decodes |
| Codec.DecodeFailsAtFirstBadEntry | src/reflect_map.rs:389-405 | a failed decode reports the error of the first entry that fails, and every earlier entry decoded |
| Codec.DecodedKeys | src/map.rs:241-258 | the decoded map's keys are exactly the document's keys, stored verbatim |
| Codec.DecodedLastEntryWins | src/reflect_map.rs:389-405 | the value under a key is the decoding of that key's last occurrence in the document |
| Codec.VisitMap | src/serializable_map.rs:371-398 | the insert loop computes exactly the decoding above |
| Codec.DecodeFailurePersists | src/reflect_map.rs:389-405 | an error in a prefix of the document is the error of the whole decode |
| Codec.UnknownKeyFailsDecode | src/serializable_map.rs:379-387 | a document with any unresolvable key fails to decode |
| Codec.EncodeDecodeRoundTrip | src/reflect_map.rs:320-408 | a map whose values encode and decode back, under keys that resolve to their types, is returned unchanged by serialise then deserialise |
| Codec.EncodedEntriesDecode | src/reflect_map.rs:389-404 | every entry of a serialised map decodes to what the deserializer reads back for its key |
| Codec.DecodeEntries | src/reflect_map.rs:388-404 | reading a document fails only with a deserialization error or an unregistered key, and never yields more entries than the document has |
| Codec.EncodeDecodeYields | src/reflect_map.rs:320-408 | when the deserializer reads back some value for each written value under its key, serialise then deserialise yields exactly those values under the original keys |
| Conversion.FromTypeRegistration | src/registry.rs:33-63 | succeeds exactly when the type has both preferences and `FromReflect` data, panicking with the missing one otherwise; the default is optional and carried over |
| Conversion.FromTypeInfo | src/registry.rs:22-31 | panics when the type is not registered; otherwise the result is `from_type_registration` of the type's registration, with its panics |
| Conversion.ApplyFromReflect | src/registry.rs:65-96 | a value of the registered type is returned unchanged; otherwise a successful `from_reflect` result is returned; otherwise the default with `try_apply` of the value; it panics exactly when `from_reflect` fails and there is no default or `try_apply` fails; every result has the registered type |
| Conversion.ApplyFromReflectIdempotent | src/registry.rs:65-68 | converting a converted value again changes nothing |
| Conversion.RegisterPreferencesTypes | src/registry.rs:118-146 | after registration both the type and its resource are found, with preferences and `FromReflect` data, with `Default` data only for `register_preferences` and not for `register_preferences_with_default_value` |
| Conversion.RegisteredIsFound | src/registry.rs:122-125 | a type just registered is found by its full path |
| Conversion.KeepsEarlierLookup | src/registry.rs:122-131 | registering another type does not change what an earlier full-path lookup finds |
| Conversion.InsertTypeDataSetsFlags | src/registry.rs:122-125 | inserting type data sets the registration's flags and nothing else |
| ReflectMap.ConvertValue | src/reflect_map.rs:193-207 | a value without represented type info is kept as is; one with type info is converted with `apply_from_reflect` for that type, panicking when the type is unregistered |
| ReflectMap.ConvertEntries | src/reflect_map.rs:189-210 | the comprehension succeeds exactly when every value converts; the result has the same keys, each with its converted value |
| ReflectMap.ConvertAll | src/reflect_map.rs:182-215 | `from_dynamic_values` keeps every key and stores each value's conversion |
| ReflectMap.ConvertAllSucceedsIff | src/reflect_map.rs:193-207 | construction succeeds exactly when every value converts, and a panic is some value's panic |
| ReflectMap.ConvertAllKeepsOrConverts | src/reflect_map.rs:193-207 | values without type info are kept unchanged under their key; values with type info become values of the represented type |
| ReflectMap.SetDynEntry | src/reflect_map.rs:249-270 | a dynamic value without represented type info panics; a dynamic value with type info is stored, converted, under its represented type's key exactly when that key and the conversion both succeed, and otherwise panics as the key rule or else the conversion does; any other value is stored as is under its own type's key, or panics as its key rule does |
| ReflectMap.EntryAt | src/reflect_map.rs:444-449 | the `index`-th entry exists exactly when the index is below `len`, and it is an entry of the map |
| ReflectMap.EntryAtAscending | src/reflect_map.rs:444-449 | entries by index are in ascending key order |
| ReflectMap.EntryAtCoversKeys | src/reflect_map.rs:444-449 | every key is reached by some index |
| ReflectMap.PreferencesReflectMap.Empty | src/reflect_map.rs:173-178 | a new map has no entries |
| ReflectMap.PreferencesReflectMap.FromDynamicValues | src/reflect_map.rs:182-215 | the new map holds the converted values, or construction panics as the first failing conversion does |
| ReflectMap.PreferencesReflectMap.Set | src/reflect_map.rs:241-246 | the map becomes the store of the value; a panic of the key rule leaves it unchanged |
| ReflectMap.PreferencesReflectMap.SetDyn | src/reflect_map.rs:249-270 | the map gains the entry `set_dyn` computes and nothing else changes; a panic leaves it unchanged |
| ReflectMap.PreferencesReflectMap.Get | src/reflect_map.rs:274-278 | the typed lookup; a returned value is an entry of the map and of the requested type |
| ReflectMap.PreferencesReflectMap.GetMut | src/reflect_map.rs:282-287 | the map and result become those of the typed edit; a panic leaves the map unchanged |
| ReflectMap.PreferencesReflectMap.Take | src/reflect_map.rs:300-307 | the map and result become those of the typed remove; a panic leaves the map unchanged |
| ReflectMap.PreferencesReflectMap.IsEmpty | src/reflect_map.rs:310-312 | true exactly when `len` is zero |
| ReflectMap.PreferencesReflectMap.Len | src/reflect_map.rs:315-317 | the number of keys, zero exactly for the empty map |
| ReflectMap.PreferencesReflectMap.GetAt | src/reflect_map.rs:444-449 | the entry at an index in key order, present exactly below `len` |
| ReflectMap.PreferencesReflectMap.InsertBoxed | src/reflect_map.rs:483-495 | a string key inserts or replaces its entry and returns the previous value; any other key panics and leaves the map unchanged |
| ReflectMap.PreferencesReflectMap.Serialize | src/reflect_map.rs:320-337 | the document is the map's encoding and has exactly `len` entries |
| ReflectMap.PreferencesReflectMap.Deserialize | src/reflect_map.rs:356-419 | decoding errors are reported as the codec reports them; a decoded map is then passed through `from_dynamic_values`, and the result panics exactly when that conversion panics |
| ReflectMap.SetDynThenGet | src/reflect_map.rs:764-773 | `set_dyn` of a dynamic value representing a registered type stores a concrete value equal to the original data under that type's key |
| ReflectMap.ReflectMapRoundTrip | src/reflect_map.rs:320-419 | a map of concrete, registered, encodable values whose deserializer returns the concrete value itself survives serialise then deserialise unchanged |
| ReflectMap.DynamicCopyConvertsBack | src/reflect_map.rs:193-198 | a dynamic value representing a registered type, which `from_reflect` can rebuild, converts to that concrete value |
| ReflectMap.DynamicCopyAtConvertsBack | src/reflect_map.rs:189-207 | the dynamic copy read back under one key converts back to the value written there |
| ReflectMap.DynamicCopiesAreRead | src/reflect_map.rs:389-404 | each written value is read back, under its own key, as its dynamic copy |
| ReflectMap.DynamicCopiesConvertBack | src/reflect_map.rs:183-207 | `from_dynamic_values` turns the dynamic copies read back from a document into exactly the written values |
| ReflectMap.ReflectMapDynamicRoundTrip | src/reflect_map.rs:320-419 | when the deserializer yields dynamic values that `from_reflect` rebuilds, deserialising a serialised map reads dynamic copies under the original keys and converts them back into exactly the original values |
| ReflectMap.SaveThenLoad | src/reflect_map.rs:947-981 | serialising a map and deserialising the document succeeds and gives a map with exactly the original entries |
| ReflectMap.PersistableValuesRoundTrip | src/reflect_map.rs:389-404 | such values decode back to themselves under their keys |
| ReflectMap.PersistableValuesConvertToThemselves | src/reflect_map.rs:193-207 | conversion leaves such a map unchanged |
| ReflectMap.ConcreteValueConvertsToItself | src/registry.rs:65-68 | a concrete value of a registered preferences type converts to itself |
| PlainMap.Fetch | src/map.rs:108-115 | `get` returns the entry that `get_fallible` finds, panics with the missing type's name when there is none, and passes on the key rule's panic |
| PlainMap.InsertIfMissing | src/map.rs:61-73 | the factory's value is inserted only when the type's key is absent; an existing entry and every other entry are left untouched |
| PlainMap.EditOrDefault | src/map.rs:137-143 | a missing entry is first filled with the type's default; the entry is then downcast (panicking when it is of another type) and edited; afterwards `get` returns the edited value |
| PlainMap.PreferencesMap.New | src/map.rs:54-59 | a new map has no entries |
| PlainMap.PreferencesMap.SetIfMissing | src/map.rs:61-73 | the map becomes the insert-if-missing result; a panic is that result's panic and leaves the map unchanged |
| PlainMap.PreferencesMap.Set | src/map.rs:90-95 | the map becomes the store of the value; a panic is the store's panic and leaves the map unchanged |
| PlainMap.PreferencesMap.SetDyn | src/map.rs:98-104 | the value is stored as is, without conversion, under its own type's key; a panic is the key rule's and leaves the map unchanged |
| PlainMap.PreferencesMap.Get | src/map.rs:108-115 | `get` as above; a returned value is an entry of the map and of the requested type |
| PlainMap.PreferencesMap.GetFallible | src/map.rs:118-122 | the typed lookup; a returned value is an entry of the map and of the requested type |
| PlainMap.PreferencesMap.GetMut | src/map.rs:126-133 | succeeds exactly when `get` would; the edit then applies to that entry; otherwise the panic is `get`'s and the map is unchanged |
| PlainMap.PreferencesMap.GetMutOrDefault | src/map.rs:137-143 | the map and result become those of the edit-or-default above; a panic leaves the map unchanged |
| PlainMap.PreferencesMap.GetMutFallible | src/map.rs:146-151 | the map and result become those of the typed edit; a panic leaves the map unchanged |
| PlainMap.PreferencesMap.Remove | src/map.rs:163-169 | the map and result become those of the typed remove; a panic leaves the map unchanged |
| PlainMap.PreferencesMap.IsEmpty | src/map.rs:171-173 | true exactly when `len` is zero |
| PlainMap.PreferencesMap.Len | src/map.rs:175-177 | the number of keys, zero exactly for the empty map |
| PlainMap.PreferencesMap.Serialize | src/map.rs:180-197 | the document is the map's encoding and has exactly `len` entries |
| PlainMap.PreferencesMap.Deserialize | src/map.rs:218-272 | never panics; the result is exactly the decoded entries, with no conversion, or the decoding error |
| PlainMap.GetPanicsWhereFallibleIsNone | src/map.rs:108-122 | for a registered type, `get` panics exactly when `get_fallible` returns nothing |
| PlainMap.InsertIfMissingTwice | src/map.rs:61-73 | a second `set_if_missing` of the same type changes nothing |
| PlainMap.EditedDefaultIsVisible | src/map.rs:576-586 | `get_mut_or_default` on an empty map, then `get`, returns the edited default |
| PlainMap.SharedShortPathSerialisedUnderFullPaths | src/map.rs:704-733 | two types sharing a short path serialise as two entries under their full paths, in ascending order |
| SerializableMap.ConvertKept | src/serializable_map.rs:166-199 | `from_dynamic_values` keeps exactly the values that carry type info |
| SerializableMap.ConvertKeptYieldsRepresentedTypes | src/serializable_map.rs:177-191 | every kept value is converted to its represented type |
| SerializableMap.SerializableSetDynEntry | src/serializable_map.rs:233-261 | a value that is not `Reflect` panics; a dynamic value is converted as in the reflect map; a concrete value is stored under its own type's key |
| SerializableMap.PreferencesSerializableMap.Empty | src/serializable_map.rs:157-162 | a new map has no entries |
| SerializableMap.PreferencesSerializableMap.FromDynamicValues | src/serializable_map.rs:166-199 | the new map holds the kept, converted values, or construction panics |
| SerializableMap.PreferencesSerializableMap.Eq | src/serializable_map.rs:112-130 | the loop returns true exactly when the pairs at each common index agree in key and in `reflect_partial_eq` |
| SerializableMap.PreferencesSerializableMap.SameEntries | src/serializable_map.rs:112-130 | the corrected equality: true exactly when both maps have the same keys and `reflect_partial_eq` holds at each key |
| SerializableMap.PreferencesSerializableMap.Set | src/serializable_map.rs:225-230 | the map becomes the store of the value; a panic is the store's panic and leaves the map unchanged |
| SerializableMap.PreferencesSerializableMap.SetDyn | src/serializable_map.rs:233-261 | the map gains the entry `set_dyn` computes and nothing else changes; a panic leaves it unchanged |
| SerializableMap.PreferencesSerializableMap.Get | src/serializable_map.rs:265-269 | the typed lookup; a returned value is an entry of the map and of the requested type |
| SerializableMap.PreferencesSerializableMap.GetMut | src/serializable_map.rs:273-278 | the map and result become those of the typed edit; a panic is the edit's panic and leaves the map unchanged |
| SerializableMap.PreferencesSerializableMap.Take | src/serializable_map.rs:291-298 | the map and result become those of the typed remove; a panic leaves the map unchanged |
| SerializableMap.PreferencesSerializableMap.IsEmpty | src/serializable_map.rs:301-303 | true exactly when `len` is zero |
| SerializableMap.PreferencesSerializableMap.Len | src/serializable_map.rs:306-308 | the number of keys, zero exactly for the empty map |
| SerializableMap.PreferencesSerializableMap.Serialize | src/serializable_map.rs:311-329 | the document is the map's encoding and has exactly `len` entries |
| SerializableMap.PreferencesSerializableMap.Deserialize | src/serializable_map.rs:356-410 | decoding errors are reported as the codec reports them; a decoded map is then passed through `from_dynamic_values`, and the result panics exactly when that conversion panics |
| SerializableMap.EmptyMapZipAgreesWithAny | src/serializable_map.rs:113-129 | the equality as written finds the empty map equal to any map, in both argument orders |
| SerializableMap.PrefixMapZipAgrees | src/serializable_map.rs:113-129 | the equality as written finds a map equal to a strictly larger map that extends it |
| SerializableMap.MapsEqualMeansSameEntries | src/serializable_map.rs:112-130 | the corrected equality holds exactly when both maps have the same keys and `reflect_partial_eq` holds at each key |
| SerializableMap.SerializableSetDynThenGet | src/serializable_map.rs:530-539 | `set_dyn` of a dynamic value stores a concrete value equal to the original data under its type's key |
| SerializableMap.SerializableMapRoundTrip | src/serializable_map.rs:311-410 | a map of concrete, registered, encodable values whose deserializer returns the concrete value itself survives serialise then deserialise unchanged |
| SerializableMap.DynamicCopyHasTypeInfo | src/serializable_map.rs:177-178 | the dynamic copy read back under a key names the type of the value written there |
| SerializableMap.DynamicCopiesKeepTypeInfo | src/serializable_map.rs:166-191 | `from_dynamic_values` drops none of the dynamic copies read back from a document |
| SerializableMap.SerializableMapDynamicRoundTrip | src/serializable_map.rs:311-410 | when the deserializer yields dynamic values that `from_reflect` rebuilds, deserialising a serialised map reads dynamic copies under the original keys, keeps all of them and converts them back into exactly the original values |
| SerializableMap.SaveThenLoad | src/serializable_map.rs:311-410 | serialising a map and deserialising the document succeeds and gives a map with exactly the original entries |
| RegisteredPlugin.RegisteredPreferencesPlugin.New | src/registry.rs:154-158 | the plugin holds the given default |
| RegisteredPlugin.RegisteredPreferencesPlugin.Build | src/registry.rs:165-183 | `build` moves the held default into a new initial-value system and leaves none behind; building without a default panics |
| RegisteredPlugin.InitialValueSystem.Run | src/registry.rs:197-212 | a value of the type taken from the map wins, its key is removed from the map and the default is kept; when the map holds no such value the default is consumed, and a later run panics; a panicking `take` changes neither the map nor the default |
| RegisteredPlugin.SetReflectMapValue | src/registry.rs:214-220 | the resource's `from_reflect` clone is stored in the map; a failed clone panics, and a panic of `set`'s key rule is passed on; either panic leaves the map unchanged |
| RegisteredPlugin.WritesBack | src/registry.rs:178-191 | the write-back runs exactly when the resource exists and changed, and the map resource exists |
| RegisteredPlugin.DefaultIsTakenOnce | src/registry.rs:243-251 | without a stored value the first run yields the default, the second run panics, and a second `build` fails |
| RegisteredPlugin.StoredValueWins | src/registry.rs:265-283 | a value stored in the map becomes the initial value and leaves the map empty |
| RegisteredPlugin.WrittenBackValueIsVisible | src/registry.rs:286-301 | after write-back the map's `get` returns the resource's value |
| StorageType.DefaultStorageType | src/lib.rs:151-158 | the default storage type is `DefaultStorage`, which stores toml |
| StorageType.WasmDefaultStorageType | src/lib.rs:151-181 | the wasm default is `DefaultStorage`, which uses local storage |
| StorageType.FileStoragePath | src/lib.rs:185-198 | no directory for no storage or custom storage; the platform preference directory for the default and format-only variants, panicking when the platform has none; the given directory for the parent-directory variants |
| StorageType.FileStorageFormat | src/lib.rs:201-214 | none for no storage or custom storage; toml for the default and directory-only variants; the given format otherwise |
| StorageType.GlooStorage | src/lib.rs:217-235 | none for no storage or custom storage; session storage for `SessionStorage` and local storage for the default and `LocalStorage`, each under the given key |
| StorageType.PathExactlyWhenFormat | src/lib.rs:185-214 | a storage type names a directory exactly when it names a format |
| Plugin.FullAppName | src/plugin.rs:15-22 | "org.app" with both names, the app name alone without an organisation, nothing without an app name |
| Plugin.StorageFinalPath | src/plugin.rs:25-31 | the directory followed by the full app name and `preferences.toml`, and nothing when either is missing |
| Plugin.CreateFileStorage | src/plugin.rs:34-40 | a file storage exists exactly when there is a final path and the file storage opens there |
| Plugin.CreateBrowserStorage | src/plugin.rs:43-49 | a browser storage keyed `<full app name>_preferences` exists exactly when there is an app name and the storage type uses browser storage |
| Plugin.World.LoadPreferences | src/plugin.rs:115-155 | without a storage, a fresh map with the defaults and no storage resource; with one, the loaded map, or an empty map after any error, with defaults applied and the storage inserted; only errors other than not-found are logged |
| Plugin.World.SavePreferences | src/plugin.rs:157-161 | a save error is logged and nothing else changes |
| Plugin.SaveRuns | src/plugin.rs:103-111 | saving runs exactly when the storage exists, the map changed, and the map was not just added |
| Plugin.LogsLoadError | src/plugin.rs:131-148 | a load error is logged exactly when it is neither a missing file nor a missing browser key |
| Plugin.MissingFileIsQuiet | src/plugin.rs:131-148 | a missing file or browser key is not logged, any other load error is |
| Plugin.DefaultStorageFile | src/plugin.rs:25-31 | with the default storage type the file is `<dir>/<org>.<app>/preferences.toml`, in toml |
| Plugin.NoAppNameNoStorage | src/plugin.rs:15-31 | without an app name no file storage is created, whatever the storage type |
| Param.Apply | src/param.rs:8-12 | applying the command stores its value in the map; without the map resource it panics |
| Param.Preferences.Deref | src/param.rs:47-53 | reading the parameter is the map's `get`, which panics without an entry; a returned value is of the parameter's type |
| Param.Preferences.Mutate | src/param.rs:56-61 | a clone of the map's entry goes into the parameter's last value, and the new guard refers to the parameter, not to the map |
| Param.MutatePreferencesGuard.Edit | src/param.rs:28-32 | an edit through the guard changes the last value only |
| Param.MutatePreferencesGuard.Drop | src/param.rs:34-38 | dropping the guard queues exactly one command carrying the last value and leaves the map alone |
| Param.MutateEditDropApply | src/param.rs:79-112 | mutate, edit, drop and apply: one command is queued, `get` returns the old value before it is applied and the edited value after |

## Left out

- File-system and browser storage (src/storage/fs.rs, src/storage/gloo.rs,
  src/storage/mod.rs) are not part of this model. A load is given by its
  result (`Loaded`) and a save by its error. Whether `FileStorage::new`
  succeeds is a parameter of `Plugin.CreateFileStorage`.
- src/resource.rs is not part of this model; it only delegates.
- The `Reflect`/`Map`/`Typed` boilerplate of the map types is left out,
  apart from `get_at` and `insert_boxed` of the reflect map. This includes
  `get_at`/`insert_boxed` of `PreferencesMap` (src/map.rs:295-347), which
  mirror the reflect map's.
- The `PartialEq` of `PreferencesMap` and `PreferencesReflectMap`
  (src/map.rs:24-35, src/reflect_map.rs:135-146) is not modelled. The
  serializable map's equality is the one modelled.
- Token-level serde (`TypedReflectSerializer`, `TypedReflectDeserializer`,
  toml, json) is left out. The encoding of one value and its decoding as a
  given type are the `encode` and `decode` fields of `Behaviour`.
- What the deserializer reads back for an encoded value is a parameter
  (`Behaviour.decode`). The round-trip lemmas cover the two shapes it can
  take: the concrete value itself (`ReflectMap.ReflectMapRoundTrip`) or a
  dynamic value that `from_reflect` rebuilds
  (`ReflectMap.ReflectMapDynamicRoundTrip`).
- Type identity is the full type path. Two values have the same type id
  exactly when their own types have the same full path.
- `PreferencesRegistry::add_defaults` and
  `apply_from_reflect_and_add_defaults` are not shown in the source. They
  are parameters of `Plugin.World.LoadPreferences`.
- The serializable map calls `convert_to_concrete_type`, which the shown
  registry does not define. It is modelled as `apply_from_reflect`.
- The plugin calls `storage_path()` with a `ParentDirectory` variant that
  the shown src/lib.rs does not have. The directory is taken from
  `file_storage_path` instead.
- The `debug_assert!` that a converted value is not dynamic
  (src/reflect_map.rs:199) is not modelled. `Conversion.ApplyFromReflect`
  proves every result is of the registered type.
- Bevy schedules, system sets, change ticks and `Commands` buffering are
  represented only by their boolean run conditions (`Plugin.SaveRuns`,
  `RegisteredPlugin.WritesBack`) and by an explicit command queue.
  Logging is reduced to the list of logged errors.
- Param.MutatePreferencesGuard.Edit: a guard may be dereferenced mutably
  many times; the model applies one edit function per call, so only the
  final value matters for the command that is queued.
- The `Mutex` around the plugin's default and the locking of the
  registry's `RwLock` are not modelled; the model is single-threaded.
- The register-preferences extension (src/registry.rs:100-147) registers
  Bevy type data; the model captures only the registry entries it leaves.

## Findings

| source | as written | input that shows it | evidently intended | confidence | as-written member | corrected member |
|---|---|---|---|---|---|---|
| src/serializable_map.rs:112-130 | `eq` zips the two maps' entries and compares only the common prefix, so it never looks at the lengths | an empty map compared with a map holding one entry; or `{k: v}` with `{k: v, k2: w}` where `k < k2` | two maps are equal exactly when they have the same keys and equal values under each key | not executed | SerializableMap.PrefixMapZipAgrees | SerializableMap.PreferencesSerializableMap.SameEntries |
