/**
  `PreferencesMap` (src/map.rs): the preference map that stores boxed
  values exactly as it is given them. Unlike `PreferencesReflectMap` it
  never converts a dynamic value, on `set_dyn` or when deserializing.
 */
module PlainMap {
  import opened Reflection
  import opened KeyOrder
  import opened EffectivePath
  import opened TypedStore
  import opened Codec

  /** `get::<T>()`: the entry of type T; a missing entry, or one that is
      not a T, panics where `get_fallible` returns `None`. */
  function Fetch(reg: Registry, values: map<string, Value>, ty: TypeInfo): (r: Outcome<Value>)
    ensures !r.Failed?
    ensures r.Done? <==> Lookup(reg, values, ty).Done? && Lookup(reg, values, ty).value.Some?
    ensures r.Done? ==> Lookup(reg, values, ty) == Done(Some(r.value))
    ensures Lookup(reg, values, ty) == Done(None) ==> r == Panicked(EntryMissing(ty.fullPath))
    ensures Lookup(reg, values, ty).Panicked? ==> r == Panicked(Lookup(reg, values, ty).panic)
  {
    match Lookup(reg, values, ty)
    case Done(found) =>
      if found.Some? then Done(found.value) else Panicked(EntryMissing(ty.fullPath))
    case Failed(e) => Failed(e)
    case Panicked(p) => Panicked(p)
  }

  /** `set_if_missing`: the entry under the key of `ty` is made by the
      factory, whose value is `made`, only when the key is free. */
  function InsertIfMissing(reg: Registry, values: map<string, Value>, ty: TypeInfo, made: Value): (r: Outcome<map<string, Value>>)
    ensures !r.Failed?
    ensures r.Panicked? <==> EffectiveTypePath(ty, reg).Panicked?
    ensures r.Done? ==> EffectiveTypePath(ty, reg).value in r.value
    // an existing entry is left untouched, whatever it holds
    ensures r.Done? && EffectiveTypePath(ty, reg).value in values ==> r.value == values
    ensures r.Done? && EffectiveTypePath(ty, reg).value !in values ==>
      r.value[EffectiveTypePath(ty, reg).value] == made && |r.value| == |values| + 1
    ensures r.Done? ==> forall k :: k in values ==> k in r.value && r.value[k] == values[k]
  {
    match EffectiveTypePath(ty, reg)
    case Done(key) =>
      if key in values then Done(values) else Done(values[key := made])
    case Failed(e) => Failed(e)
    case Panicked(p) => Panicked(p)
  }

  /** `get_mut_or_default::<T>()` followed by an edit through the returned
      reference: a free key is first filled with T's default; the entry is
      then downcast to T, which panics when an existing entry is not a T. */
  function EditOrDefault(reg: Registry, b: Behaviour, values: map<string, Value>, ty: TypeInfo, edit: Data -> Data): (r: Outcome<(map<string, Value>, Value)>)
    ensures !r.Failed?
    ensures r.Panicked? <==>
      || EffectiveTypePath(ty, reg).Panicked?
      || (var key := EffectiveTypePath(ty, reg).value; key in values && !IsOf(values[key], ty))
    ensures r.Panicked? && EffectiveTypePath(ty, reg).Done? ==> r.panic == CouldNotDowncast
    // the edited entry is what `get` of T now finds
    ensures r.Done? ==> Lookup(reg, r.value.0, ty) == Done(Some(r.value.1))
    ensures r.Done? && EffectiveTypePath(ty, reg).value !in values ==>
      r.value.1 == Concrete(ty, edit(b.defaultData(ty)))
    ensures r.Done? && EffectiveTypePath(ty, reg).value in values ==>
      var before := values[EffectiveTypePath(ty, reg).value];
      r.value.1 == before.(data := edit(before.data))
    ensures r.Done? ==> forall k :: k in values && k != EffectiveTypePath(ty, reg).value ==> k in r.value.0 && r.value.0[k] == values[k]
    ensures r.Done? ==> r.value.0.Keys == values.Keys + {EffectiveTypePath(ty, reg).value}
  {
    match EffectiveTypePath(ty, reg)
    case Done(key) =>
      var filled := if key in values then values else values[key := Concrete(ty, b.defaultData(ty))];
      if IsOf(filled[key], ty) then
        var edited := filled[key].(data := edit(filled[key].data));
        Done((filled[key := edited], edited))
      else Panicked(CouldNotDowncast)
    case Failed(e) => Failed(e)
    case Panicked(p) => Panicked(p)
  }

  class PreferencesMap {
    var values: map<string, Value>
    const arc: RegistryArc

    /** `new`. */
    constructor New(arc: RegistryArc)
      ensures values == map[] && this.arc == arc
    {
      values := map[];
      this.arc := arc;
    }

    /** `set_if_missing`. */
    method SetIfMissing(ty: TypeInfo, made: Value) returns (r: Outcome<()>)
      modifies this
      ensures !r.Failed?
      ensures r.Panicked? <==> InsertIfMissing(arc.registry, old(values), ty, made).Panicked?
      ensures r.Done? ==> values == InsertIfMissing(arc.registry, old(values), ty, made).value
      ensures r.Panicked? ==> r.panic == InsertIfMissing(arc.registry, old(values), ty, made).panic && values == old(values)
    {
      match InsertIfMissing(arc.registry, values, ty, made)
      case Done(updated) =>
        values := updated;
        return Done(());
      case Failed(e) =>
        return Failed(e);
      case Panicked(p) =>
        return Panicked(p);
    }

    /** `set`: the value goes under the effective path of its own type. */
    method Set(value: Value) returns (r: Outcome<()>)
      modifies this
      ensures !r.Failed?
      ensures r.Done? <==> Store(arc.registry, old(values), value).Done?
      ensures r.Done? ==> values == Store(arc.registry, old(values), value).value
      ensures r.Panicked? ==> r.panic == Store(arc.registry, old(values), value).panic && values == old(values)
    {
      match Store(arc.registry, values, value)
      case Done(updated) =>
        values := updated;
        return Done(());
      case Failed(e) =>
        return Failed(e);
      case Panicked(p) =>
        return Panicked(p);
    }

    /** `set_dyn`: the boxed value is stored as it is, under the effective
        path of the type it reports for itself; a dynamic value is not
        converted. */
    method SetDyn(value: Value) returns (r: Outcome<()>)
      modifies this
      ensures !r.Failed?
      ensures r.Done? <==> EffectiveTypePath(value.OwnType(), arc.registry).Done?
      ensures r.Done? ==> values == old(values)[EffectiveTypePath(value.OwnType(), arc.registry).value := value]
      ensures r.Panicked? ==> r.panic == EffectiveTypePath(value.OwnType(), arc.registry).panic && values == old(values)
    {
      r := Set(value);
    }

    /** `get::<T>()`. */
    function Get(ty: TypeInfo): (r: Outcome<Value>)
      reads this, arc
      ensures r == Fetch(arc.registry, values, ty)
      ensures r.Done? ==> r.value in values.Values && IsOf(r.value, ty)
    {
      Fetch(arc.registry, values, ty)
    }

    /** `get_fallible::<T>()`. */
    function GetFallible(ty: TypeInfo): (r: Outcome<Option<Value>>)
      reads this, arc
      ensures r == Lookup(arc.registry, values, ty)
      ensures r.Done? && r.value.Some? ==> r.value.value in values.Values && IsOf(r.value.value, ty)
    {
      Lookup(arc.registry, values, ty)
    }

    /** `get_mut_fallible::<T>()` followed by an edit through the returned
        reference. */
    method GetMutFallible(ty: TypeInfo, edit: Data -> Data) returns (r: Outcome<Option<Value>>)
      modifies this
      ensures !r.Failed?
      ensures r.Panicked? <==> Modify(arc.registry, old(values), ty, edit).Panicked?
      ensures r.Done? ==> values == Modify(arc.registry, old(values), ty, edit).value.0
      ensures r.Done? ==> r.value == Modify(arc.registry, old(values), ty, edit).value.1
      ensures r.Panicked? ==> r.panic == Modify(arc.registry, old(values), ty, edit).panic && values == old(values)
    {
      match Modify(arc.registry, values, ty, edit)
      case Done(result) =>
        values := result.0;
        return Done(result.1);
      case Failed(e) =>
        return Failed(e);
      case Panicked(p) =>
        return Panicked(p);
    }

    /** `get_mut::<T>()` followed by an edit: as `get_mut_fallible`, but a
        missing entry panics. */
    method GetMut(ty: TypeInfo, edit: Data -> Data) returns (r: Outcome<Value>)
      modifies this
      ensures !r.Failed?
      ensures r.Done? <==> Fetch(arc.registry, old(values), ty).Done?
      ensures r.Done? ==> Modify(arc.registry, old(values), ty, edit) == Done((values, Some(r.value)))
      ensures r.Panicked? ==> r.panic == Fetch(arc.registry, old(values), ty).panic && values == old(values)
    {
      var found := GetMutFallible(ty, edit);
      match found
      case Done(v) =>
        if v.None? {
          return Panicked(EntryMissing(ty.fullPath));
        }
        return Done(v.value);
      case Failed(e) =>
        return Failed(e);
      case Panicked(p) =>
        return Panicked(p);
    }

    /** `get_mut_or_default::<T>()` followed by an edit. */
    method GetMutOrDefault(b: Behaviour, ty: TypeInfo, edit: Data -> Data) returns (r: Outcome<Value>)
      modifies this
      ensures !r.Failed?
      ensures r.Panicked? <==> EditOrDefault(arc.registry, b, old(values), ty, edit).Panicked?
      ensures r.Done? ==> EditOrDefault(arc.registry, b, old(values), ty, edit) == Done((values, r.value))
      ensures r.Panicked? ==> r.panic == EditOrDefault(arc.registry, b, old(values), ty, edit).panic && values == old(values)
    {
      match EditOrDefault(arc.registry, b, values, ty, edit)
      case Done(result) =>
        values := result.0;
        return Done(result.1);
      case Failed(e) =>
        return Failed(e);
      case Panicked(p) =>
        return Panicked(p);
    }

    /** `remove::<T>()`: the entry is removed whatever it holds and
        returned when it is a T. */
    method Remove(ty: TypeInfo) returns (r: Outcome<Option<Value>>)
      modifies this
      ensures !r.Failed?
      ensures r.Panicked? <==> TypedStore.Remove(arc.registry, old(values), ty).Panicked?
      ensures r.Panicked? ==> r.panic == TypedStore.Remove(arc.registry, old(values), ty).panic
      ensures r.Done? ==> TypedStore.Remove(arc.registry, old(values), ty) == Done((values, r.value))
      ensures r.Panicked? ==> values == old(values)
    {
      match TypedStore.Remove(arc.registry, values, ty)
      case Done(result) =>
        values := result.0;
        return Done(result.1);
      case Failed(e) =>
        return Failed(e);
      case Panicked(p) =>
        return Panicked(p);
    }

    /** `is_empty`. */
    function IsEmpty(): (r: bool)
      reads this
      ensures r <==> Len() == 0
    {
      values == map[]
    }

    /** `len`. */
    function Len(): (r: nat)
      reads this
      ensures r == |SortedKeys(values.Keys)|
      ensures r == 0 <==> values == map[]
    {
      |values|
    }

    /** `Serialize`: one entry per stored value, in key order. */
    method Serialize(b: Behaviour) returns (r: Outcome<Document>)
      ensures r == EncodeMap(b, values)
      ensures r.Done? ==> |r.value| == Len()
    {
      r := SerializeMap(b, values);
    }

    /** The deserialize seed: `visit_map` into a `BTreeMap`, stored as
        decoded. */
    static method Deserialize(arc: RegistryArc, b: Behaviour, doc: Document) returns (r: Outcome<PreferencesMap>)
      ensures !r.Panicked?
      ensures r.Failed? ==> DecodeEntries(arc.registry, b, doc) == Failed(r.error)
      ensures r.Done? ==> fresh(r.value) && r.value.arc == arc
      ensures r.Done? ==> DecodeEntries(arc.registry, b, doc) == Done(r.value.values)
    {
      var decoded := VisitMap(arc.registry, b, doc);
      if decoded.Failed? {
        return Failed(decoded.error);
      }
      var m := new PreferencesMap.New(arc);
      m.values := decoded.value;
      return Done(m);
    }
  }

  // ---------------------------------------------------------------------
  // Properties

  /** `get` panics exactly where `get_fallible` has nothing to give. */
  lemma GetPanicsWhereFallibleIsNone(reg: Registry, values: map<string, Value>, ty: TypeInfo)
    requires reg.DistinctFullPaths() && reg.Knows(ty)
    ensures Fetch(reg, values, ty).Panicked? <==> Lookup(reg, values, ty) == Done(None)
  {
    KnownTypeHasKey(reg, ty);
  }

  /** A second `set_if_missing` of the same type changes nothing, whatever
      its factory would make. */
  lemma InsertIfMissingTwice(reg: Registry, values: map<string, Value>, ty: TypeInfo, first: Value, second: Value)
    requires InsertIfMissing(reg, values, ty, first).Done?
    ensures var once := InsertIfMissing(reg, values, ty, first).value;
      InsertIfMissing(reg, once, ty, second) == Done(once)
  {
  }

  /** On an empty map, `get_mut_or_default` inserts the default, and an edit
      through the returned reference is what a later `get` returns. */
  lemma {:induction false} EditedDefaultIsVisible(reg: Registry, b: Behaviour, ty: TypeInfo, edit: Data -> Data)
    requires reg.DistinctFullPaths() && reg.Knows(ty)
    ensures EditOrDefault(reg, b, map[], ty, edit).Done?
    ensures Fetch(reg, EditOrDefault(reg, b, map[], ty, edit).value.0, ty) == Done(Concrete(ty, edit(b.defaultData(ty))))
  {
    KnownTypeHasKey(reg, ty);
  }

  /** Two registered types sharing a short path are written under their
      full paths: the document has exactly those two keys, in order. */
  lemma {:induction false} SharedShortPathSerialisedUnderFullPaths(reg: Registry, b: Behaviour, x: Value, y: Value)
    requires reg.DistinctFullPaths() && reg.Knows(x.OwnType()) && reg.Knows(y.OwnType())
    requires x.OwnType().shortPath == y.OwnType().shortPath && x.TypeId() != y.TypeId()
    requires b.encode(x).Some? && b.encode(y).Some?
    ensures Store(reg, map[], x).Done? && Store(reg, Store(reg, map[], x).value, y).Done?
    ensures var m := Store(reg, Store(reg, map[], x).value, y).value;
      && EncodeMap(b, m).Done?
      && Keys(EncodeMap(b, m).value) == SortedKeys({x.TypeId(), y.TypeId()})
  {
    SharedShortPathStoredApart(reg, x, y);
    var m := Store(reg, Store(reg, map[], x).value, y).value;
    assert m.Keys == {x.TypeId(), y.TypeId()};
    EncodeMapFailsIff(b, m);
  }
}
