/**
  `PreferencesPlugin` (src/plugin.rs): where the preferences file lives,
  how the `PreferencesMap` resource is loaded at start-up, and when it is
  saved. The storage back ends themselves (file system, browser storage)
  are not modelled: a load or a save is given by its result.
 */
module Plugin {
  import opened Reflection
  import opened StorageType

  /** `full_app_name`: "org.app" when both are given, the app name alone
      without an organisation, nothing without an app name. */
  function FullAppName(app: Option<string>, org: Option<string>): (r: Option<string>)
    ensures r.Some? <==> app.Some?
    ensures app.Some? && org.None? ==> r == Some(app.value)
    ensures app.Some? && org.Some? ==> r == Some(org.value + "." + app.value)
  {
    match (app, org)
    case (None, None) => None
    case (Some(a), Some(o)) => Some(o + "." + a)
    case (Some(a), None) => Some(a)
    case (None, Some(_)) => None
  }

  /** The name of the preferences file inside the application directory. */
  const PreferencesFileName: string := "preferences.toml"

  /** `get_storage_final_path`: `<dir>/<full app name>/preferences.toml`,
      nothing when the storage type names no directory or there is no app
      name. The directory comes from `file_storage_path`. */
  function StorageFinalPath(st: NativeStorageType, preferenceDir: Option<Path>, app: Option<string>, org: Option<string>): (r: Outcome<Option<Path>>)
    ensures !r.Failed?
    ensures r.Panicked? <==> FileStoragePath(st, preferenceDir).Panicked?
    ensures r.Done? ==> (r.value.Some? <==> FileStoragePath(st, preferenceDir).value.Some? && app.Some?)
    ensures r.Done? && r.value.Some? ==>
      r.value.value == FileStoragePath(st, preferenceDir).value.value + [FullAppName(app, org).value, PreferencesFileName]
  {
    match FileStoragePath(st, preferenceDir)
    case Panicked(p) => Panicked(p)
    case Failed(e) => Failed(e)
    case Done(dir) =>
      if dir.None? then Done(None)
      else
        match FullAppName(app, org)
        case None => Done(None)
        case Some(name) => Done(Some(dir.value + [name, PreferencesFileName]))
  }

  /** A storage the plugin can create: a preferences file, or a browser
      storage entry. */
  datatype Storage = FileStorage(path: Path) | BrowserStorage(gloo: Gloo)

  /** Native `create_storage`: a file storage at the final path.
      `opens` is whether `FileStorage::new` succeeds there. */
  function CreateFileStorage(st: NativeStorageType, preferenceDir: Option<Path>, app: Option<string>, org: Option<string>, opens: bool): (r: Outcome<Option<Storage>>)
    ensures !r.Failed?
    ensures r.Panicked? <==> StorageFinalPath(st, preferenceDir, app, org).Panicked?
    ensures r.Done? ==> (r.value.Some? <==> StorageFinalPath(st, preferenceDir, app, org).value.Some? && opens)
    ensures r.Done? && r.value.Some? ==> r.value.value == FileStorage(StorageFinalPath(st, preferenceDir, app, org).value.value)
  {
    match StorageFinalPath(st, preferenceDir, app, org)
    case Panicked(p) => Panicked(p)
    case Failed(e) => Failed(e)
    case Done(path) =>
      if path.Some? && opens then Done(Some(FileStorage(path.value))) else Done(None)
  }

  /** Wasm `create_storage`: the browser storage keyed by
      "<full app name>_preferences". */
  function CreateBrowserStorage(st: WasmStorageType, app: Option<string>, org: Option<string>): (r: Option<Storage>)
    ensures r.Some? <==> app.Some? && GlooStorage(st, "").Some?
    ensures r.Some? ==> r.value == BrowserStorage(GlooStorage(st, FullAppName(app, org).value + "_preferences").value)
  {
    match FullAppName(app, org)
    case None => None
    case Some(name) =>
      match GlooStorage(st, name + "_preferences")
      case None => None
      case Some(g) => Some(BrowserStorage(g))
  }

  /** The run condition of `save_preferences`: a storage exists, the map
      changed, and it was not just added. */
  function SaveRuns(storageExists: bool, mapChanged: bool, mapAdded: bool): (r: bool)
    ensures r ==> storageExists
    ensures r <==> storageExists && mapChanged && !mapAdded
    ensures mapAdded ==> !r
  {
    // resource_exists.and_then(resource_changed.and_then(not(resource_added)))
    if !storageExists then false
    else if !mapChanged then false
    else !mapAdded
  }

  /** What a storage's `load_preferences` returned. */
  datatype Loaded = Loaded(values: map<string, Value>) | LoadError(error: PreferencesError)

  /** Whether `load_preferences` reports a load error in the log: a missing
      file or a missing browser key is expected on a first run and is not
      reported; every other error is. */
  function LogsLoadError(e: PreferencesError): (r: bool)
    ensures r <==> e != IoError(true) && e != GlooError(true)
  {
    match e
    case IoError(notFound) => !notFound
    case GlooError(keyNotFound) => !keyNotFound
    case _ => true
  }

  /** The part of the app `load_preferences` and `save_preferences` touch:
      the `PreferencesMap` resource (by its entries), the
      `PreferencesStorage` resource, and the errors written to the log. */
  class World {
    var preferences: Option<map<string, Value>>
    var storage: Option<Storage>
    var loggedErrors: seq<PreferencesError>

    constructor ()
      ensures preferences.None? && storage.None? && loggedErrors == []
    {
      preferences := None;
      storage := None;
      loggedErrors := [];
    }

    /** `load_preferences`. `created` is the storage the builder could
        create, `load` what loading from it returned; `addDefaults` and
        `applyAndAddDefaults` stand for the two `PreferencesRegistry`
        operations, which are not part of this model. */
    method LoadPreferences(created: Option<Storage>, load: Loaded,
                           addDefaults: map<string, Value> -> map<string, Value>,
                           applyAndAddDefaults: map<string, Value> -> map<string, Value>)
      modifies this
      // without a storage: a fresh map with the defaults, and no storage
      ensures created.None? ==>
        preferences == Some(addDefaults(map[])) && storage == old(storage) && loggedErrors == old(loggedErrors)
      // with a storage: what was loaded, or an empty map on any error
      ensures created.Some? && load.Loaded? ==>
        preferences == Some(applyAndAddDefaults(load.values)) && loggedErrors == old(loggedErrors)
      ensures created.Some? && load.LoadError? ==>
        && preferences == Some(applyAndAddDefaults(map[]))
        && loggedErrors == old(loggedErrors) + (if LogsLoadError(load.error) then [load.error] else [])
      ensures created.Some? ==> storage == created
    {
      if created.None? {
        preferences := Some(addDefaults(map[]));
        return;
      }
      var values: map<string, Value>;
      match load {
        case Loaded(loaded) =>
          values := loaded;
        case LoadError(e) =>
          if LogsLoadError(e) {
            loggedErrors := loggedErrors + [e];
          }
          values := map[];
      }
      preferences := Some(applyAndAddDefaults(values));
      storage := created;
    }

    /** `save_preferences`: the outcome of the storage's save is only
        logged; nothing else changes. */
    method SavePreferences(saveError: Option<PreferencesError>)
      modifies this
      ensures preferences == old(preferences) && storage == old(storage)
      ensures loggedErrors == old(loggedErrors) + (if saveError.Some? then [saveError.value] else [])
    {
      if saveError.Some? {
        loggedErrors := loggedErrors + [saveError.value];
      }
    }
  }

  // ---------------------------------------------------------------------
  // Properties

  /** On a first run the missing file is not reported. */
  lemma MissingFileIsQuiet()
    ensures !LogsLoadError(IoError(true)) && !LogsLoadError(GlooError(true))
    ensures LogsLoadError(IoError(false)) && LogsLoadError(DeserializationError) && LogsLoadError(UnregisteredType(""))
  {
  }

  /** The default storage type with an app and an organisation name puts the
      file at `<preference dir>/<org>.<app>/preferences.toml`, in toml. */
  lemma DefaultStorageFile(dir: Path, app: string, org: string)
    ensures StorageFinalPath(DefaultStorageType(), Some(dir), Some(app), Some(org)) ==
      Done(Some(dir + [org + "." + app, PreferencesFileName]))
    ensures FileStorageFormat(DefaultStorageType()) == Some(Toml)
  {
  }

  /** Without an app name there is no storage, whatever the storage type. */
  lemma NoAppNameNoStorage(st: NativeStorageType, preferenceDir: Option<Path>, org: Option<string>, opens: bool)
    requires preferenceDir.Some?
    ensures CreateFileStorage(st, preferenceDir, None, org, opens) == Done(None)
  {
  }
}
