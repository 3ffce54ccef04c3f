/**
  The host's reflection layer, reduced to what the preferences crate consumes:
  type paths, a type registry, reflected values, and the per-type behaviour
  (conversion, defaults, partial apply, equality, encoding) that the host
  supplies and this model leaves uninterpreted.
 */
module Reflection {

  datatype Option<+T> = None | Some(value: T)

  /** A Rust type as the registry names it: its full path, which is unique,
      and its short path, which two types may share. Type identity is the
      full path. */
  datatype TypeInfo = TypeInfo(fullPath: string, shortPath: string)

  /** The reflected contents of a value, left uninterpreted. */
  type Data = seq<int>

  /** One value as serialised by the host's per-type serializer. */
  type Encoded = string

  /** A boxed reflected value.
      - Concrete: a value of the Rust type `ty` (it can be downcast to `ty`).
      - Dynamic: a dynamic container (struct, tuple struct, ...) whose own
        type is `own` and which may represent some concrete type.
      - PartialOnly: a non-dynamic value that only implements partial
        reflection and cannot be turned into a full `Reflect` value. */
  datatype Value =
    | Concrete(ty: TypeInfo, data: Data)
    | Dynamic(own: TypeInfo, represented: Option<TypeInfo>, data: Data)
    | PartialOnly(ty: TypeInfo, data: Data)
  {
    /** The type the value reports for itself (its reflected type path,
        short type path and type id). */
    function OwnType(): TypeInfo {
      match this
      case Concrete(t, _) => t
      case Dynamic(o, _, _) => o
      case PartialOnly(t, _) => t
    }

    function TypeId(): string {
      OwnType().fullPath
    }

    predicate IsDynamic() {
      Dynamic?
    }

    /** The type the value stands for: itself, unless it is dynamic. */
    function RepresentedTypeInfo(): Option<TypeInfo> {
      match this
      case Concrete(t, _) => Some(t)
      case Dynamic(_, r, _) => r
      case PartialOnly(t, _) => Some(t)
    }
  }

  /** A type registration together with the type data the crate looks for:
      ReflectPreferences, ReflectFromReflect and ReflectDefault. */
  datatype Registration = Registration(info: TypeInfo, preferences: bool, fromReflect: bool, hasDefault: bool)

  /** All registrations whose short path is `short`, in registration order. */
  function ShortMatches(entries: seq<Registration>, short: string): (r: seq<Registration>)
    ensures forall x :: x in r <==> x in entries && x.info.shortPath == short
    ensures |r| <= |entries|
  {
    if entries == [] then []
    else (if entries[0].info.shortPath == short then [entries[0]] else []) + ShortMatches(entries[1..], short)
  }

  /** The first registration whose full path is `path`. */
  function FindFull(entries: seq<Registration>, path: string): (r: Option<Registration>)
    ensures r.Some? ==> r.value in entries && r.value.info.fullPath == path
    ensures r.None? <==> forall x :: x in entries ==> x.info.fullPath != path
  {
    if entries == [] then None
    else if entries[0].info.fullPath == path then Some(entries[0])
    else FindFull(entries[1..], path)
  }

  /** Sets the given type data flags on every registration of `path`. */
  function AddTypeData(entries: seq<Registration>, path: string, preferences: bool, fromReflect: bool, hasDefault: bool): (r: seq<Registration>)
    ensures |r| == |entries|
    ensures forall i :: 0 <= i < |entries| ==> r[i].info == entries[i].info
    ensures forall i :: 0 <= i < |entries| && entries[i].info.fullPath != path ==> r[i] == entries[i]
    ensures forall i :: 0 <= i < |entries| && entries[i].info.fullPath == path ==>
      r[i] == Registration(entries[i].info, entries[i].preferences || preferences,
                           entries[i].fromReflect || fromReflect, entries[i].hasDefault || hasDefault)
  {
    if entries == [] then []
    else
      var e := entries[0];
      var e' := if e.info.fullPath == path
        then Registration(e.info, e.preferences || preferences, e.fromReflect || fromReflect, e.hasDefault || hasDefault)
        else e;
      [e'] + AddTypeData(entries[1..], path, preferences, fromReflect, hasDefault)
  }

  /** The host's type registry: registrations in the order they were made. */
  datatype Registry = Registry(entries: seq<Registration>)
  {
    /** A full path names one type: the registry never holds it twice. */
    predicate DistinctFullPaths() {
      DistinctPaths(entries)
    }

    /** DistinctFullPaths, and a full path that is also the short path of a
        registered type is that type's short path too. In Rust a short path
        is the last segment of the full path, so a full path equals a short
        path only when it has a single segment, which is then its own short
        path. */
    predicate Coherent() {
      && DistinctFullPaths()
      && forall i, j :: 0 <= i < |entries| && 0 <= j < |entries| && entries[i].info.fullPath == entries[j].info.shortPath
           ==> entries[i].info.shortPath == entries[j].info.shortPath
    }

    /** Lookup by short path: succeeds only when exactly one registered type
        has that short path (an ambiguous short path finds nothing). */
    function GetWithShortTypePath(short: string): (r: Option<Registration>)
      ensures r.Some? ==> r.value in entries && r.value.info.shortPath == short
      ensures r.Some? ==> forall x :: x in entries && x.info.shortPath == short ==> x == r.value
      ensures r.None? ==> |ShortMatches(entries, short)| != 1
    {
      var m := ShortMatches(entries, short);
      if |m| == 1 then Some(m[0]) else None
    }

    /** Lookup by full path (equivalently by type id). */
    function GetWithTypePath(path: string): (r: Option<Registration>)
      ensures r.Some? ==> r.value in entries && r.value.info.fullPath == path
      ensures r.None? <==> forall x :: x in entries ==> x.info.fullPath != path
    {
      FindFull(entries, path)
    }

    /** The registry holds `ty` under its own full and short paths. */
    predicate Knows(ty: TypeInfo) {
      var r := GetWithTypePath(ty.fullPath);
      r.Some? && r.value.info == ty
    }

    /** `register::<T>()`: a type already registered is left as it is. */
    function Register(reg: Registration): (r: Registry)
      ensures DistinctFullPaths() ==> r.DistinctFullPaths()
      ensures GetWithTypePath(reg.info.fullPath).Some? ==> r == this
      ensures GetWithTypePath(reg.info.fullPath).None? ==> r.entries == entries + [reg]
    {
      if GetWithTypePath(reg.info.fullPath).Some? then this
      else Registry(entries + [reg])
    }

    /** `register_type_data::<T, D>()` for the three kinds of type data. */
    function InsertTypeData(path: string, preferences: bool, fromReflect: bool, hasDefault: bool): (r: Registry)
      ensures |r.entries| == |entries|
      ensures DistinctFullPaths() ==> r.DistinctFullPaths()
    {
      Registry(AddTypeData(entries, path, preferences, fromReflect, hasDefault))
    }
  }

  /** When full paths are distinct, two filtered entries at different
      positions are different registrations. */
  lemma {:induction false} FilterOfDistinctIsDistinct(entries: seq<Registration>, short: string)
    requires DistinctPaths(entries)
    ensures DistinctPaths(ShortMatches(entries, short))
  {
    if entries != [] {
      FilterOfDistinctIsDistinct(entries[1..], short);
      var rest := ShortMatches(entries[1..], short);
      assert DistinctPaths(rest);
      forall x | x in rest ensures x.info.fullPath != entries[0].info.fullPath {
        var k :| 0 <= k < |entries[1..]| && entries[1..][k] == x;
        assert entries[k + 1] == x;
      }
      var m := ShortMatches(entries, short);
      if entries[0].info.shortPath == short {
        assert m == [entries[0]] + rest;
        forall i, j | 0 <= i < j < |m| ensures m[i].info.fullPath != m[j].info.fullPath {
          assert m[j] == rest[j - 1];
          assert rest[j - 1] in rest;
          if i == 0 {
            assert m[i] == entries[0];
          } else {
            assert m[i] == rest[i - 1];
            assert rest[i - 1].info.fullPath != rest[j - 1].info.fullPath;
          }
        }
      } else {
        assert m == rest;
      }
    }
  }

  /** Among distinct full paths, a short path the short lookup does not
      resolve is shared: every registration carrying it has a rival. */
  lemma AmbiguousMatchesHaveRivals(entries: seq<Registration>, short: string)
    requires DistinctPaths(entries)
    requires Registry(entries).GetWithShortTypePath(short).None?
    ensures forall x :: x in entries && x.info.shortPath == short ==>
      exists y :: y in entries && y.info.shortPath == short && y != x
  {
    var m := ShortMatches(entries, short);
    FilterOfDistinctIsDistinct(entries, short);
    forall x | x in entries && x.info.shortPath == short
      ensures exists y :: y in entries && y.info.shortPath == short && y != x
    {
      assert x in m;
      assert m[0] in m && m[1] in m;
      if x == m[0] {
        assert m[1] != x;
      } else {
        assert m[0] != x;
      }
    }
  }

  /** In a registry with distinct full paths a full path picks out one
      registration. */
  lemma SameFullPathSameEntry(reg: Registry, e: Registration, f: Registration)
    requires reg.DistinctFullPaths()
    requires e in reg.entries && f in reg.entries && e.info.fullPath == f.info.fullPath
    ensures e == f
  {
    var i :| 0 <= i < |reg.entries| && reg.entries[i] == e;
    var j :| 0 <= j < |reg.entries| && reg.entries[j] == f;
  }

  /** No two positions of `s` hold the same full path. */
  predicate DistinctPaths(s: seq<Registration>) {
    forall i, j :: 0 <= i < j < |s| ==> s[i].info.fullPath != s[j].info.fullPath
  }

  /** The behaviour of the reflected types themselves, supplied by the host
      and its derive macros; the model does not interpret it.
      - fromReflect(ty, v): `ReflectFromReflect::from_reflect` of type ty;
      - defaultData(ty): `ReflectDefault::default` (and `Default::default`);
      - tryApply(d, v): `try_apply` of v onto a value of data d, None on error;
      - partialEq(a, b): `reflect_partial_eq`;
      - encode(v): `TypedReflectSerializer`, None on a serializer error;
      - decode(reg, e): `TypedReflectDeserializer`, None on a format error. */
  datatype Behaviour = Behaviour(
    fromReflect: (TypeInfo, Value) -> Option<Data>,
    defaultData: TypeInfo -> Data,
    tryApply: (Data, Value) -> Option<Data>,
    partialEq: (Value, Value) -> Option<bool>,
    encode: Value -> Option<Encoded>,
    decode: (Registration, Encoded) -> Option<Value>)

  /** The panics of the crate, one per call site kind. */
  datatype Panic =
    | ShortPathMismatch(shortPath: string, registeredPath: string, requestedPath: string)
    | NotRegistered(fullPath: string, shortPath: string)
    | NotPreferences(ty: TypeInfo)
    | NoFromReflect(ty: TypeInfo)
    | FromReflectFailed(typePath: string)
    | MissingRepresentedType
    | NotReflect
    | EntryMissing(typePath: string)
    | CouldNotDowncast
    | BuiltTwice
    | SystemRanTwice
    | CloneFailed
    | ResourceMissing
    | NoPreferenceDir
    | InvalidKey(typePath: string)

  /** The recoverable errors of the crate (`PreferencesError`). */
  datatype PreferencesError =
    | IoError(notFound: bool)
    | DeserializationError
    | SerializationError
    | UnregisteredType(key: string)
    | GlooError(keyNotFound: bool)

  /** What an operation of the crate ends with: a value, a returned error,
      or a panic. */
  datatype Outcome<+T> = Done(value: T) | Failed(error: PreferencesError) | Panicked(panic: Panic)

  /** The shared `TypeRegistryArc`: maps hold it and read the registry it
      currently holds, so registrations made after a map was created are
      seen by that map. */
  class RegistryArc {
    var registry: Registry

    constructor (registry: Registry)
      ensures this.registry == registry
    {
      this.registry := registry;
    }

    method Register(reg: Registration)
      modifies this
      ensures registry == old(registry).Register(reg)
    {
      registry := registry.Register(reg);
    }
  }
}
