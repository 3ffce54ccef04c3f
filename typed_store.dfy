/**
  The typed view the three preference maps give of their `BTreeMap`: a value
  of type T lives under T's effective type path, and reading it back
  downcasts the stored box to T.
 */
module TypedStore {
  import opened Reflection
  import opened EffectivePath

  /** `downcast_ref::<T>()` succeeds: the box holds a value whose own type is T. */
  predicate IsOf(v: Value, ty: TypeInfo) {
    v.TypeId() == ty.fullPath
  }

  /** `get::<T>()` / `get_fallible::<T>()`: the entry under T's key, if it is a T. */
  function Lookup(reg: Registry, values: map<string, Value>, ty: TypeInfo): (r: Outcome<Option<Value>>)
    ensures !r.Failed?
    ensures r.Panicked? <==> EffectiveTypePath(ty, reg).Panicked?
    ensures r.Panicked? ==> r.panic == EffectiveTypePath(ty, reg).panic
    ensures r.Done? && r.value.Some? ==>
      EffectiveTypePath(ty, reg).value in values && r.value.value == values[EffectiveTypePath(ty, reg).value]
      && IsOf(r.value.value, ty)
    ensures r.Done? && r.value.None? ==>
      EffectiveTypePath(ty, reg).value !in values || !IsOf(values[EffectiveTypePath(ty, reg).value], ty)
  {
    match EffectiveTypePath(ty, reg)
    case Done(key) =>
      if key in values && IsOf(values[key], ty) then Done(Some(values[key])) else Done(None)
    case Failed(e) => Failed(e)
    case Panicked(p) => Panicked(p)
  }

  /** `insert` under the effective path of `ty`. */
  function StoreUnder(reg: Registry, values: map<string, Value>, ty: TypeInfo, v: Value): (r: Outcome<map<string, Value>>)
    ensures !r.Failed?
    ensures r.Panicked? <==> EffectiveTypePath(ty, reg).Panicked?
    ensures r.Done? ==> r.value == values[EffectiveTypePath(ty, reg).value := v]
  {
    match EffectiveTypePath(ty, reg)
    case Done(key) => Done(values[key := v])
    case Failed(e) => Failed(e)
    case Panicked(p) => Panicked(p)
  }

  /** `set(value)`: the value is stored under the effective path of its own type. */
  function Store(reg: Registry, values: map<string, Value>, v: Value): (r: Outcome<map<string, Value>>)
    ensures !r.Failed?
    ensures r.Panicked? <==> EffectiveTypePath(v.OwnType(), reg).Panicked?
    ensures r.Panicked? ==> r.panic == EffectiveTypePath(v.OwnType(), reg).panic
    ensures r.Done? ==> r.value == values[EffectiveTypePath(v.OwnType(), reg).value := v]
    ensures r.Done? ==> v in r.value.Values
    ensures r.Done? ==> forall k :: k in values ==> k in r.value
    ensures r.Done? ==> |r.value| == |values| || |r.value| == |values| + 1
  {
    var r := StoreUnder(reg, values, v.OwnType(), v);
    assert r.Done? ==> r.value[EffectiveTypePath(v.OwnType(), reg).value] == v;
    r
  }

  /** `take::<T>()` / `remove::<T>()`: the entry under T's key is removed
      whatever it holds, and returned when it is a T. */
  function Remove(reg: Registry, values: map<string, Value>, ty: TypeInfo): (r: Outcome<(map<string, Value>, Option<Value>)>)
    ensures !r.Failed?
    ensures r.Panicked? <==> EffectiveTypePath(ty, reg).Panicked?
    ensures r.Done? ==> EffectiveTypePath(ty, reg).value !in r.value.0
    ensures r.Done? ==> r.value.0 == values - {EffectiveTypePath(ty, reg).value}
    ensures r.Done? ==> r.value.1 == Lookup(reg, values, ty).value
  {
    match EffectiveTypePath(ty, reg)
    case Done(key) =>
      var taken := if key in values && IsOf(values[key], ty) then Some(values[key]) else None;
      Done((values - {key}, taken))
    case Failed(e) => Failed(e)
    case Panicked(p) => Panicked(p)
  }

  /** `get_mut::<T>()` followed by an edit through the returned reference:
      the entry under T's key, when it is a T, gets its contents replaced by
      `edit`; nothing else changes. */
  function Modify(reg: Registry, values: map<string, Value>, ty: TypeInfo, edit: Data -> Data): (r: Outcome<(map<string, Value>, Option<Value>)>)
    ensures !r.Failed?
    ensures r.Panicked? <==> EffectiveTypePath(ty, reg).Panicked?
    ensures r.Panicked? ==> r.panic == EffectiveTypePath(ty, reg).panic
    ensures r.Done? ==> (r.value.1.Some? <==> Lookup(reg, values, ty).value.Some?)
    ensures r.Done? && r.value.1.None? ==> r.value.0 == values
    ensures r.Done? && r.value.1.Some? ==>
      var before := Lookup(reg, values, ty).value.value;
      r.value.1.value == before.(data := edit(before.data))
    ensures r.Done? ==> Lookup(reg, r.value.0, ty) == Done(r.value.1)
    ensures r.Done? ==> r.value.0.Keys == values.Keys
    ensures r.Done? ==> forall k :: k in values && k != EffectiveTypePath(ty, reg).value ==> r.value.0[k] == values[k]
  {
    match EffectiveTypePath(ty, reg)
    case Done(key) =>
      if key in values && IsOf(values[key], ty) then
        var edited := values[key].(data := edit(values[key].data));
        Done((values[key := edited], Some(edited)))
      else Done((values, None))
    case Failed(e) => Failed(e)
    case Panicked(p) => Panicked(p)
  }

  /** Every stored value sits under the effective path of its own type, as
      `set` leaves it. */
  predicate WellKeyed(reg: Registry, values: map<string, Value>) {
    forall k :: k in values ==> EffectiveTypePath(values[k].OwnType(), reg) == Done(k)
  }

  // ---------------------------------------------------------------------
  // Properties

  /** `set` then `get` of the same type gives back the stored value. */
  lemma StoreThenLookup(reg: Registry, values: map<string, Value>, v: Value)
    requires Store(reg, values, v).Done?
    ensures Lookup(reg, Store(reg, values, v).value, v.OwnType()) == Done(Some(v))
  {
  }

  /** `set` on an occupied key replaces the value and keeps the size. */
  lemma StoreOverwriteKeepsSize(reg: Registry, values: map<string, Value>, v: Value)
    requires Store(reg, values, v).Done?
    requires EffectiveTypePath(v.OwnType(), reg).value in values
    ensures |Store(reg, values, v).value| == |values|
    ensures Store(reg, values, v).value.Keys == values.Keys
  {
  }

  /** Storing a value of one registered type leaves what `get` returns for
      any other registered type unchanged. */
  lemma StoreKeepsOtherTypes(reg: Registry, values: map<string, Value>, v: Value, other: TypeInfo)
    requires reg.Coherent() && reg.Knows(v.OwnType()) && reg.Knows(other)
    requires other.fullPath != v.TypeId()
    ensures Store(reg, values, v).Done?
    ensures Lookup(reg, Store(reg, values, v).value, other) == Lookup(reg, values, other)
  {
    DistinctTypesGetDistinctKeys(reg, v.OwnType(), other);
    var ka := EffectiveTypePath(v.OwnType(), reg).value;
    var kb := EffectiveTypePath(other, reg).value;
    var m := Store(reg, values, v).value;
    assert m == values[ka := v];
    assert kb in m <==> kb in values;
    assert kb in m ==> m[kb] == values[kb];
  }

  /** `take` after `set` returns the value and leaves the map as it was
      before, without the key: on an empty map, empty again. */
  lemma TakeAfterStore(reg: Registry, values: map<string, Value>, v: Value)
    requires Store(reg, values, v).Done?
    requires EffectiveTypePath(v.OwnType(), reg).value !in values
    ensures Remove(reg, Store(reg, values, v).value, v.OwnType()) == Done((values, Some(v)))
  {
    var key := EffectiveTypePath(v.OwnType(), reg).value;
    assert Store(reg, values, v).value - {key} == values;
  }

  /** After `take`, `get` of the same type finds nothing. */
  lemma LookupAfterRemove(reg: Registry, values: map<string, Value>, ty: TypeInfo)
    requires Remove(reg, values, ty).Done?
    ensures Lookup(reg, Remove(reg, values, ty).value.0, ty) == Done(None)
  {
  }

  /** Two registered types sharing a short path are both stored, under
      their two full paths, and each `get` returns its own value. */
  lemma SharedShortPathStoredApart(reg: Registry, a: Value, b: Value)
    requires reg.DistinctFullPaths() && reg.Knows(a.OwnType()) && reg.Knows(b.OwnType())
    requires a.OwnType().shortPath == b.OwnType().shortPath && a.TypeId() != b.TypeId()
    ensures Store(reg, map[], a).Done?
    ensures Store(reg, Store(reg, map[], a).value, b).Done?
    ensures var m := Store(reg, Store(reg, map[], a).value, b).value;
      && m == map[a.TypeId() := a, b.TypeId() := b]
      && Lookup(reg, m, a.OwnType()) == Done(Some(a))
      && Lookup(reg, m, b.OwnType()) == Done(Some(b))
  {
    SharedShortPathFallsBack(reg, a.OwnType(), b.OwnType());
    var m1 := Store(reg, map[], a).value;
    assert m1 == map[a.TypeId() := a];
    var m := Store(reg, m1, b).value;
    assert m == map[a.TypeId() := a, b.TypeId() := b];
  }
}
