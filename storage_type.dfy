/**
  `PreferencesStorageType` (src/lib.rs): where and in which format the
  preferences are stored. The native and the wasm builds compile different
  variants of the enum, so each build has its own datatype here.
 */
module StorageType {
  import opened Reflection

  /** A file-system path, as its list of components. */
  type Path = seq<string>

  /** A file format (`FileStorageFormatFns`): the pair of serialise and
      deserialise functions, known here by name only. */
  datatype Format = Format(name: string)

  /** `DefaultFileStorageFormat`. */
  const Toml: Format := Format("toml")

  /** The variants of the native build. */
  datatype NativeStorageType =
    | NoStorage
    | DefaultStorage
    | Custom(storage: string)
    | FileSystemWithParentDirectory(path: Path)
    | FileSystemWithFormat(format: Format)
    | FileSystemWithParentDirectoryAndFormat(path: Path, format: Format)

  /** The variants of the wasm build. */
  datatype WasmStorageType =
    | WasmNoStorage
    | WasmDefaultStorage
    | WasmCustom(storage: string)
    | LocalStorage
    | SessionStorage

  /** `#[default]`. */
  function DefaultStorageType(): (r: NativeStorageType)
    ensures r.DefaultStorage?
    ensures FileStorageFormat(r) == Some(Toml)
  {
    DefaultStorage
  }

  function WasmDefaultStorageType(): (r: WasmStorageType)
    ensures r.WasmDefaultStorage?
    ensures GlooStorage(r, "").Some? && GlooStorage(r, "").value.kind == Local
  {
    WasmDefaultStorage
  }

  /** `file_storage_path`: the directory the preferences live in.
      `preferenceDir` is what the platform reports as its preference
      directory; the default variants panic when it reports none. */
  function FileStoragePath(st: NativeStorageType, preferenceDir: Option<Path>): (r: Outcome<Option<Path>>)
    ensures !r.Failed?
    ensures r.Panicked? <==> (st.DefaultStorage? || st.FileSystemWithFormat?) && preferenceDir.None?
    ensures r.Panicked? ==> r.panic == NoPreferenceDir
    ensures (st.NoStorage? || st.Custom?) ==> r == Done(None)
    ensures (st.DefaultStorage? || st.FileSystemWithFormat?) && preferenceDir.Some? ==> r == Done(preferenceDir)
    ensures (st.FileSystemWithParentDirectory? || st.FileSystemWithParentDirectoryAndFormat?) ==> r == Done(Some(st.path))
  {
    match st
    case NoStorage => Done(None)
    case Custom(_) => Done(None)
    case DefaultStorage =>
      if preferenceDir.None? then Panicked(NoPreferenceDir) else Done(preferenceDir)
    case FileSystemWithFormat(_) =>
      if preferenceDir.None? then Panicked(NoPreferenceDir) else Done(preferenceDir)
    case FileSystemWithParentDirectory(path) => Done(Some(path))
    case FileSystemWithParentDirectoryAndFormat(path, _) => Done(Some(path))
  }

  /** `file_storage_format`: toml unless a format is given. */
  function FileStorageFormat(st: NativeStorageType): (r: Option<Format>)
    ensures (st.NoStorage? || st.Custom?) <==> r.None?
    ensures (st.DefaultStorage? || st.FileSystemWithParentDirectory?) ==> r == Some(Toml)
    ensures (st.FileSystemWithFormat? || st.FileSystemWithParentDirectoryAndFormat?) ==> r == Some(st.format)
  {
    match st
    case NoStorage => None
    case Custom(_) => None
    case DefaultStorage => Some(Toml)
    case FileSystemWithParentDirectory(_) => Some(Toml)
    case FileSystemWithFormat(format) => Some(format)
    case FileSystemWithParentDirectoryAndFormat(_, format) => Some(format)
  }

  /** A browser storage handle: the storage area and the key under which
      the preferences are kept. */
  datatype GlooKind = Local | Session
  datatype Gloo = Gloo(kind: GlooKind, key: string)

  /** `gloo_storage`. */
  function GlooStorage(st: WasmStorageType, key: string): (r: Option<Gloo>)
    ensures (st.WasmNoStorage? || st.WasmCustom?) <==> r.None?
    ensures r.Some? ==> r.value.key == key
    ensures r.Some? ==> (r.value.kind == Session <==> st.SessionStorage?)
  {
    match st
    case WasmNoStorage => None
    case WasmCustom(_) => None
    case WasmDefaultStorage => Some(Gloo(Local, key))
    case LocalStorage => Some(Gloo(Local, key))
    case SessionStorage => Some(Gloo(Session, key))
  }

  /** A storage type names a directory exactly when it names a format: the
      file storage is either fully determined or not used at all. */
  lemma PathExactlyWhenFormat(st: NativeStorageType, preferenceDir: Option<Path>)
    requires preferenceDir.Some?
    ensures FileStoragePath(st, preferenceDir).Done?
    ensures FileStoragePath(st, preferenceDir).value.None? <==> FileStorageFormat(st).None?
  {
  }
}
