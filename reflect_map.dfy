/**
  `PreferencesReflectMap` (src/reflect_map.rs): the preference map that
  holds full `Reflect` values, converts dynamic values into concrete ones
  with `apply_from_reflect`, and reads the shared type registry through its
  `TypeRegistryArc`.
 */
module ReflectMap {
  import opened Reflection
  import opened KeyOrder
  import opened EffectivePath
  import opened TypedStore
  import opened Codec
  import opened Conversion

  /** How `from_dynamic_values` treats one value: a value that carries type
      info is converted to the registered concrete type of that info; a
      value without type info is kept as it is. */
  function ConvertValue(reg: Registry, b: Behaviour, value: Value): (r: Outcome<Value>)
    ensures !r.Failed?
    ensures value.RepresentedTypeInfo().None? ==> r == Done(value)
    ensures value.RepresentedTypeInfo().Some? && r.Done? ==>
      r.value.TypeId() == value.RepresentedTypeInfo().value.fullPath
    ensures value.RepresentedTypeInfo().Some? && FromTypeInfo(reg, value.RepresentedTypeInfo().value).Done? ==>
      r == ApplyFromReflect(FromTypeInfo(reg, value.RepresentedTypeInfo().value).value, b, value)
    ensures value.RepresentedTypeInfo().Some? && FromTypeInfo(reg, value.RepresentedTypeInfo().value).Panicked? ==>
      r == Panicked(FromTypeInfo(reg, value.RepresentedTypeInfo().value).panic)
  {
    match value.RepresentedTypeInfo()
    case None => Done(value)
    case Some(ti) =>
      match FromTypeInfo(reg, ti)
      case Done(d) => ApplyFromReflect(d, b, value)
      case Failed(e) => Failed(e)
      case Panicked(p) => Panicked(p)
  }

  /** `from_dynamic_values` over the entries for `keys`, in that order: the
      first value whose conversion panics aborts the whole map. */
  function ConvertEntries(reg: Registry, b: Behaviour, values: map<string, Value>, keys: seq<string>): (r: Outcome<map<string, Value>>)
    requires forall k :: k in keys ==> k in values
    ensures !r.Failed?
    ensures r.Done? <==> forall i :: 0 <= i < |keys| ==> ConvertValue(reg, b, values[keys[i]]).Done?
    ensures r.Panicked? ==> exists i :: 0 <= i < |keys| && ConvertValue(reg, b, values[keys[i]]) == Panicked(r.panic)
    ensures r.Done? ==> forall k :: k in r.value <==> k in keys
    ensures r.Done? ==> forall k :: k in r.value ==> r.value[k] == ConvertValue(reg, b, values[k]).value
    decreases |keys|
  {
    if keys == [] then Done(map[])
    else
      var prefix := keys[..|keys| - 1];
      var last := keys[|keys| - 1];
      assert forall i :: 0 <= i < |prefix| ==> prefix[i] == keys[i];
      var before := ConvertEntries(reg, b, values, prefix);
      var current := ConvertValue(reg, b, values[last]);
      if before.Panicked? then
        var i :| 0 <= i < |prefix| && ConvertValue(reg, b, values[prefix[i]]) == Panicked(before.panic);
        assert ConvertValue(reg, b, values[keys[i]]) == Panicked(before.panic);
        Panicked(before.panic)
      else if current.Panicked? then
        assert ConvertValue(reg, b, values[keys[|keys| - 1]]) == current;
        Panicked(current.panic)
      else
        assert forall i :: 0 <= i < |keys| ==> keys[i] in prefix || keys[i] == last;
        Done(before.value[last := current.value])
  }

  /** `from_dynamic_values` of a `BTreeMap`, visited in key order. */
  function ConvertAll(reg: Registry, b: Behaviour, values: map<string, Value>): (r: Outcome<map<string, Value>>)
    ensures !r.Failed?
    ensures r.Done? ==> r.value.Keys == values.Keys
    ensures r.Done? ==> forall k :: k in values ==> Done(r.value[k]) == ConvertValue(reg, b, values[k])
  {
    ConvertEntries(reg, b, values, SortedKeys(values.Keys))
  }

  /** The map converts exactly when each of its values does; otherwise it
      panics with the panic of one of them. */
  lemma ConvertAllSucceedsIff(reg: Registry, b: Behaviour, values: map<string, Value>)
    ensures ConvertAll(reg, b, values).Done? <==> forall k :: k in values ==> ConvertValue(reg, b, values[k]).Done?
    ensures ConvertAll(reg, b, values).Panicked? ==>
      exists k :: k in values && ConvertValue(reg, b, values[k]) == Panicked(ConvertAll(reg, b, values).panic)
  {
    var keys := SortedKeys(values.Keys);
    if ConvertAll(reg, b, values).Done? {
      forall k | k in values ensures ConvertValue(reg, b, values[k]).Done? {
        var i :| 0 <= i < |keys| && keys[i] == k;
      }
    }
  }

  /** After conversion, values without type info are unchanged and every
      value with type info has the type it represents. */
  lemma ConvertAllKeepsOrConverts(reg: Registry, b: Behaviour, values: map<string, Value>, k: string)
    requires ConvertAll(reg, b, values).Done? && k in values
    ensures values[k].RepresentedTypeInfo().None? ==> ConvertAll(reg, b, values).value[k] == values[k]
    ensures values[k].RepresentedTypeInfo().Some? ==>
      ConvertAll(reg, b, values).value[k].TypeId() == values[k].RepresentedTypeInfo().value.fullPath
  {
  }

  /** `set_dyn`: the key and the value stored for a boxed value of unknown
      type. A dynamic value is keyed by the type it represents and converted
      to it; a dynamic value representing nothing panics; any other value is
      stored as it is under the key of its own type. */
  function SetDynEntry(reg: Registry, b: Behaviour, value: Value): (r: Outcome<(string, Value)>)
    ensures !r.Failed?
    ensures value.IsDynamic() && value.RepresentedTypeInfo().None? ==> r == Panicked(MissingRepresentedType)
    ensures !value.IsDynamic() ==> (r.Done? <==> EffectiveTypePath(value.OwnType(), reg).Done?)
    ensures !value.IsDynamic() && r.Panicked? ==> r.panic == EffectiveTypePath(value.OwnType(), reg).panic
    // a dynamic value with type info is stored exactly when its key and its
    // conversion both succeed; otherwise the first of them to panic decides
    ensures value.IsDynamic() && value.RepresentedTypeInfo().Some? ==>
      (r.Done? <==> EffectiveTypePath(value.RepresentedTypeInfo().value, reg).Done? && ConvertValue(reg, b, value).Done?)
    ensures value.IsDynamic() && value.RepresentedTypeInfo().Some? && EffectiveTypePath(value.RepresentedTypeInfo().value, reg).Panicked? ==>
      r == Panicked(EffectiveTypePath(value.RepresentedTypeInfo().value, reg).panic)
    ensures value.IsDynamic() && value.RepresentedTypeInfo().Some? && EffectiveTypePath(value.RepresentedTypeInfo().value, reg).Done?
            && ConvertValue(reg, b, value).Panicked? ==>
      r == Panicked(ConvertValue(reg, b, value).panic)
    ensures !value.IsDynamic() && r.Done? ==> r.value == (EffectiveTypePath(value.OwnType(), reg).value, value)
    ensures value.IsDynamic() && r.Done? ==>
      && value.RepresentedTypeInfo().Some?
      && EffectiveTypePath(value.RepresentedTypeInfo().value, reg) == Done(r.value.0)
      && Done(r.value.1) == ConvertValue(reg, b, value)
      && r.value.1.TypeId() == value.RepresentedTypeInfo().value.fullPath
  {
    if value.IsDynamic() then
      match value.RepresentedTypeInfo()
      case None => Panicked(MissingRepresentedType)
      case Some(ti) =>
        match EffectiveTypePath(ti, reg)
        case Done(key) =>
          (match ConvertValue(reg, b, value)
           case Done(v) => Done((key, v))
           case Failed(e) => Failed(e)
           case Panicked(p) => Panicked(p))
        case Failed(e) => Failed(e)
        case Panicked(p) => Panicked(p)
    else
      match EffectiveTypePath(value.OwnType(), reg)
      case Done(key) => Done((key, value))
      case Failed(e) => Failed(e)
      case Panicked(p) => Panicked(p)
  }

  /** `Map::get_at`: the `index`-th entry in key order. */
  function EntryAt(values: map<string, Value>, index: nat): (r: Option<(string, Value)>)
    ensures r.Some? <==> index < |values|
    ensures r.Some? ==> r.value.0 in values && r.value.1 == values[r.value.0]
  {
    var keys := SortedKeys(values.Keys);
    if index < |keys| then Some((keys[index], values[keys[index]])) else None
  }

  /** Entries come out of `get_at` in ascending key order, one per key. */
  lemma EntryAtAscending(values: map<string, Value>, i: nat, j: nat)
    requires i < j < |values|
    ensures Less(EntryAt(values, i).value.0, EntryAt(values, j).value.0)
  {
  }

  lemma EntryAtCoversKeys(values: map<string, Value>, k: string)
    requires k in values
    ensures exists i :: 0 <= i < |values| && EntryAt(values, i).value.0 == k
  {
    var keys := SortedKeys(values.Keys);
    var i :| 0 <= i < |keys| && keys[i] == k;
    assert EntryAt(values, i).value.0 == k;
  }

  /** A key handed to `Map::insert_boxed`: a `String`, or a value of some
      other type. */
  datatype ReflectKey = StringKey(s: string) | OtherKey(ty: TypeInfo)

  class PreferencesReflectMap {
    var values: map<string, Value>
    const arc: RegistryArc

    /** `empty`. */
    constructor Empty(arc: RegistryArc)
      ensures values == map[] && this.arc == arc
    {
      values := map[];
      this.arc := arc;
    }

    /** `from_dynamic_values`. */
    static method FromDynamicValues(arc: RegistryArc, b: Behaviour, values: map<string, Value>) returns (r: Outcome<PreferencesReflectMap>)
      ensures !r.Failed?
      ensures r.Panicked? <==> ConvertAll(arc.registry, b, values).Panicked?
      ensures r.Panicked? ==> r.panic == ConvertAll(arc.registry, b, values).panic
      ensures r.Done? ==> fresh(r.value) && r.value.arc == arc && r.value.values == ConvertAll(arc.registry, b, values).value
    {
      var converted := ConvertAll(arc.registry, b, values);
      if converted.Panicked? {
        return Panicked(converted.panic);
      }
      var m := new PreferencesReflectMap.Empty(arc);
      m.values := converted.value;
      return Done(m);
    }

    /** `set`: the value goes under the effective path of its own type,
        replacing what was there. */
    method Set(value: Value) returns (r: Outcome<()>)
      modifies this
      ensures !r.Failed?
      ensures r.Done? <==> Store(arc.registry, old(values), value).Done?
      ensures r.Done? ==> values == Store(arc.registry, old(values), value).value
      ensures r.Panicked? ==> r.panic == EffectiveTypePath(value.OwnType(), arc.registry).panic && values == old(values)
    {
      match Store(arc.registry, values, value)
      case Done(updated) =>
        values := updated;
        return Done(());
      case Failed(e) =>
        return Failed(e);
      case Panicked(p) =>
        return Panicked(p);
    }

    /** `set_dyn`. */
    method SetDyn(b: Behaviour, value: Value) returns (r: Outcome<()>)
      modifies this
      ensures !r.Failed?
      ensures r.Done? <==> SetDynEntry(arc.registry, b, value).Done?
      ensures r.Done? ==> values == old(values)[SetDynEntry(arc.registry, b, value).value.0 := SetDynEntry(arc.registry, b, value).value.1]
      ensures r.Panicked? ==> r.panic == SetDynEntry(arc.registry, b, value).panic && values == old(values)
    {
      match SetDynEntry(arc.registry, b, value)
      case Done(entry) =>
        values := values[entry.0 := entry.1];
        return Done(());
      case Failed(e) =>
        return Failed(e);
      case Panicked(p) =>
        return Panicked(p);
    }

    /** `get::<T>()`. */
    function Get(ty: TypeInfo): (r: Outcome<Option<Value>>)
      reads this, arc
      ensures r == Lookup(arc.registry, values, ty)
      ensures r.Done? && r.value.Some? ==> r.value.value in values.Values && IsOf(r.value.value, ty)
    {
      Lookup(arc.registry, values, ty)
    }

    /** `get_mut::<T>()` followed by an edit through the returned reference. */
    method GetMut(ty: TypeInfo, edit: Data -> Data) returns (r: Outcome<Option<Value>>)
      modifies this
      ensures !r.Failed?
      ensures r.Panicked? <==> Modify(arc.registry, old(values), ty, edit).Panicked?
      ensures r.Done? ==> values == Modify(arc.registry, old(values), ty, edit).value.0
      ensures r.Done? ==> r.value == Modify(arc.registry, old(values), ty, edit).value.1
      ensures r.Panicked? ==> r.panic == Modify(arc.registry, old(values), ty, edit).panic && values == old(values)
    {
      match Modify(arc.registry, values, ty, edit)
      case Done(result) =>
        values := result.0;
        return Done(result.1);
      case Failed(e) =>
        return Failed(e);
      case Panicked(p) =>
        return Panicked(p);
    }

    /** `take::<T>()`: the entry is removed whatever it holds and returned
        when it is a T. */
    method Take(ty: TypeInfo) returns (r: Outcome<Option<Value>>)
      modifies this
      ensures !r.Failed?
      ensures r.Panicked? <==> Remove(arc.registry, old(values), ty).Panicked?
      ensures r.Panicked? ==> r.panic == Remove(arc.registry, old(values), ty).panic
      ensures r.Done? ==>
        values == Remove(arc.registry, old(values), ty).value.0 && r.value == Remove(arc.registry, old(values), ty).value.1
      ensures r.Panicked? ==> values == old(values)
    {
      match Remove(arc.registry, values, ty)
      case Done(result) =>
        values := result.0;
        return Done(result.1);
      case Failed(e) =>
        return Failed(e);
      case Panicked(p) =>
        return Panicked(p);
    }

    /** `is_empty`. */
    function IsEmpty(): (r: bool)
      reads this
      ensures r <==> Len() == 0
    {
      values == map[]
    }

    /** `len`: the number of entries, which is the number `serialize`
        writes. */
    function Len(): (r: nat)
      reads this
      ensures r == |SortedKeys(values.Keys)|
      ensures r == 0 <==> values == map[]
    {
      |values|
    }

    /** `Map::get_at`. */
    function GetAt(index: nat): (r: Option<(string, Value)>)
      reads this
      ensures r.Some? <==> index < Len()
      ensures r.Some? ==> r.value.0 in values && r.value.1 == values[r.value.0]
    {
      EntryAt(values, index)
    }

    /** `Map::insert_boxed`: a `String` key inserts and returns the previous
        value; any other key panics. */
    method InsertBoxed(key: ReflectKey, value: Value) returns (r: Outcome<Option<Value>>)
      modifies this
      ensures !r.Failed?
      ensures key.OtherKey? ==> r == Panicked(InvalidKey(key.ty.fullPath)) && values == old(values)
      ensures key.StringKey? ==> values == old(values)[key.s := value]
      ensures key.StringKey? ==> r == Done(if key.s in old(values) then Some(old(values)[key.s]) else None)
    {
      match key
      case OtherKey(ty) =>
        return Panicked(InvalidKey(ty.fullPath));
      case StringKey(s) =>
        var previous := if s in values then Some(values[s]) else None;
        values := values[s := value];
        return Done(previous);
    }

    /** `Serialize`. */
    method Serialize(b: Behaviour) returns (r: Outcome<Document>)
      ensures r == EncodeMap(b, values)
      ensures r.Done? ==> |r.value| == Len()
    {
      r := SerializeMap(b, values);
    }

    /** The deserialize seed: `visit_map` into a `BTreeMap`, then
        `from_dynamic_values`. */
    static method Deserialize(arc: RegistryArc, b: Behaviour, doc: Document) returns (r: Outcome<PreferencesReflectMap>)
      ensures r.Failed? <==> DecodeEntries(arc.registry, b, doc).Failed?
      ensures r.Failed? ==> r.error == DecodeEntries(arc.registry, b, doc).error
      ensures r.Done? ==> DecodeEntries(arc.registry, b, doc).Done?
      ensures r.Panicked? <==> DecodeEntries(arc.registry, b, doc).Done? && ConvertAll(arc.registry, b, DecodeEntries(arc.registry, b, doc).value).Panicked?
      ensures r.Done? ==> fresh(r.value) && r.value.arc == arc
      ensures r.Done? ==> ConvertAll(arc.registry, b, DecodeEntries(arc.registry, b, doc).value).Done?
      ensures r.Done? ==> r.value.values == ConvertAll(arc.registry, b, DecodeEntries(arc.registry, b, doc).value).value
    {
      var decoded := VisitMap(arc.registry, b, doc);
      if decoded.Failed? {
        return Failed(decoded.error);
      }
      r := FromDynamicValues(arc, b, decoded.value);
    }
  }

  // ---------------------------------------------------------------------
  // Properties

  /** `set_dyn` of a dynamic copy of a registered value stores the concrete
      value that `from_reflect` rebuilds, so `get` returns a value equal to
      the original. */
  lemma SetDynThenGet(reg: Registry, b: Behaviour, values: map<string, Value>, ty: TypeInfo, own: TypeInfo, data: Data)
    requires reg.DistinctFullPaths() && reg.Knows(ty)
    requires reg.GetWithTypePath(ty.fullPath).value.preferences && reg.GetWithTypePath(ty.fullPath).value.fromReflect
    requires own.fullPath != ty.fullPath
    requires b.fromReflect(ty, Dynamic(own, Some(ty), data)) == Some(data)
    ensures SetDynEntry(reg, b, Dynamic(own, Some(ty), data)).Done?
    ensures var e := SetDynEntry(reg, b, Dynamic(own, Some(ty), data)).value;
      Lookup(reg, values[e.0 := e.1], ty) == Done(Some(Concrete(ty, data)))
  {
    KnownTypeHasKey(reg, ty);
  }

  /** The stored values a map can write and read back: concrete values of
      registered preference types, each under its own effective path, in a
      coherent registry, whose host serializer and deserializer invert each
      other. */
  predicate Persistable(reg: Registry, b: Behaviour, values: map<string, Value>) {
    && reg.Coherent()
    && WellKeyed(reg, values)
    && forall k :: k in values ==>
      && values[k].Concrete?
      && reg.Knows(values[k].ty)
      && RegistrationOf(reg, values[k].ty).preferences
      && RegistrationOf(reg, values[k].ty).fromReflect
      && b.encode(values[k]).Some?
      && b.decode(RegistrationOf(reg, values[k].ty), b.encode(values[k]).value) == Some(values[k])
  }

  /** Serialising a map and deserialising the document gives back the same
      entries. */
  lemma {:induction false} ReflectMapRoundTrip(reg: Registry, b: Behaviour, values: map<string, Value>)
    requires Persistable(reg, b, values)
    ensures EncodeMap(b, values).Done?
    ensures DecodeEntries(reg, b, EncodeMap(b, values).value) == Done(values)
    ensures ConvertAll(reg, b, values) == Done(values)
  {
    PersistableValuesRoundTrip(reg, b, values);
    EncodeDecodeRoundTrip(reg, b, values);
    PersistableValuesConvertToThemselves(reg, b, values);
  }

  lemma PersistableValuesRoundTrip(reg: Registry, b: Behaviour, values: map<string, Value>)
    requires Persistable(reg, b, values)
    ensures ValuesRoundTrip(reg, b, values)
  {
    forall k | k in values
      ensures ResolveKey(reg, k) == Some(RegistrationOf(reg, values[k].ty))
    {
      KeyResolvesToType(reg, values[k].ty);
    }
  }

  lemma PersistableValuesConvertToThemselves(reg: Registry, b: Behaviour, values: map<string, Value>)
    requires Persistable(reg, b, values)
    ensures ConvertAll(reg, b, values) == Done(values)
  {
    forall k | k in values ensures ConvertValue(reg, b, values[k]) == Done(values[k]) {
      ConcreteValueConvertsToItself(reg, b, values[k]);
    }
    ConvertAllSucceedsIff(reg, b, values);
    ConvertedAgreesEverywhere(reg, b, values, ConvertAll(reg, b, values).value, values);
  }

  /** A concrete value of a registered preferences type is kept as it is. */
  lemma ConcreteValueConvertsToItself(reg: Registry, b: Behaviour, v: Value)
    requires reg.DistinctFullPaths() && v.Concrete? && reg.Knows(v.ty)
    requires RegistrationOf(reg, v.ty).preferences && RegistrationOf(reg, v.ty).fromReflect
    ensures ConvertValue(reg, b, v) == Done(v)
  {
    var x := RegistrationOf(reg, v.ty);
    assert reg.GetWithTypePath(v.ty.fullPath) == Some(x);
  }

  lemma ConvertedAgreesEverywhere(reg: Registry, b: Behaviour, source: map<string, Value>, c: map<string, Value>, target: map<string, Value>)
    requires c.Keys == source.Keys && target.Keys == source.Keys
    requires forall k :: k in source ==> Done(c[k]) == ConvertValue(reg, b, source[k])
    requires forall k :: k in source ==> ConvertValue(reg, b, source[k]) == Done(target[k])
    ensures c == target
  {
    forall k | k in c ensures c[k] == target[k] {
      assert Done(c[k]) == Done(target[k]);
    }
  }


  /** How the host's deserializer usually reads a written concrete value
      back: as a dynamic value of another type that represents the
      value's type, from which `from_reflect` rebuilds the value's data. */
  predicate ReadsBackAsDynamic(b: Behaviour, x: Registration, v: Value)
    requires v.Concrete?
  {
    b.encode(v).Some? &&
    var d := b.decode(x, b.encode(v).value);
    && d.Some?
    && d.value.Dynamic?
    && d.value.represented == Some(v.ty)
    && d.value.own.fullPath != v.ty.fullPath
    && b.fromReflect(v.ty, d.value) == Some(v.data)
  }

  /** The stored values a map can write and read back through dynamic
      values: as `Persistable`, but the deserializer hands back a dynamic
      copy of each value rather than the value itself. */
  predicate PersistableAsDynamic(reg: Registry, b: Behaviour, values: map<string, Value>) {
    && reg.Coherent()
    && WellKeyed(reg, values)
    && forall k :: k in values ==>
      && values[k].Concrete?
      && reg.Knows(values[k].ty)
      && RegistrationOf(reg, values[k].ty).preferences
      && RegistrationOf(reg, values[k].ty).fromReflect
      && ReadsBackAsDynamic(b, RegistrationOf(reg, values[k].ty), values[k])
  }

  /** The value the deserializer reads back for a written value. */
  function ReadBack(b: Behaviour, x: Registration, v: Value): Value
    requires v.Concrete? && ReadsBackAsDynamic(b, x, v)
  {
    b.decode(x, b.encode(v).value).value
  }

  /** The dynamic copies the deserializer reads back, key by key. */
  function DynamicCopies(reg: Registry, b: Behaviour, values: map<string, Value>): (r: map<string, Value>)
    requires PersistableAsDynamic(reg, b, values)
    ensures r.Keys == values.Keys
    ensures forall k :: k in r ==> r[k] == ReadBack(b, RegistrationOf(reg, values[k].ty), values[k])
  {
    map k | k in values :: ReadBack(b, RegistrationOf(reg, values[k].ty), values[k])
  }

  /** A dynamic copy of a registered concrete value converts back to the
      value through `from_reflect`. */
  lemma DynamicCopyConvertsBack(reg: Registry, b: Behaviour, v: Value, d: Value)
    requires reg.DistinctFullPaths() && v.Concrete? && reg.Knows(v.ty)
    requires RegistrationOf(reg, v.ty).preferences && RegistrationOf(reg, v.ty).fromReflect
    requires d.Dynamic? && d.represented == Some(v.ty) && d.own.fullPath != v.ty.fullPath
    requires b.fromReflect(v.ty, d) == Some(v.data)
    ensures ConvertValue(reg, b, d) == Done(v)
  {
    var x := RegistrationOf(reg, v.ty);
    assert reg.GetWithTypePath(v.ty.fullPath) == Some(x);
  }

  /** Each written value is read back, under its key, as its dynamic copy. */
  lemma DynamicCopiesAreRead(reg: Registry, b: Behaviour, values: map<string, Value>)
    requires PersistableAsDynamic(reg, b, values)
    ensures DecodesTo(reg, b, values, DynamicCopies(reg, b, values))
  {
    var decoded := DynamicCopies(reg, b, values);
    forall k | k in values
      ensures ResolveKey(reg, k) == Some(RegistrationOf(reg, values[k].ty))
      ensures b.decode(ResolveKey(reg, k).value, b.encode(values[k]).value) == Some(decoded[k])
    {
      KeyResolvesToType(reg, values[k].ty);
    }
  }

  /** The dynamic copy under one key converts back to the value under it. */
  lemma DynamicCopyAtConvertsBack(reg: Registry, b: Behaviour, values: map<string, Value>, k: string)
    requires PersistableAsDynamic(reg, b, values) && k in values
    ensures ConvertValue(reg, b, DynamicCopies(reg, b, values)[k]) == Done(values[k])
  {
    var v := values[k];
    var d := DynamicCopies(reg, b, values)[k];
    assert ReadsBackAsDynamic(b, RegistrationOf(reg, v.ty), v);
    assert d == ReadBack(b, RegistrationOf(reg, v.ty), v);
    DynamicCopyConvertsBack(reg, b, v, d);
  }

  /** `from_dynamic_values` turns the dynamic copies back into the values. */
  lemma DynamicCopiesConvertBack(reg: Registry, b: Behaviour, values: map<string, Value>)
    requires PersistableAsDynamic(reg, b, values)
    ensures ConvertAll(reg, b, DynamicCopies(reg, b, values)) == Done(values)
  {
    var decoded := DynamicCopies(reg, b, values);
    forall k | k in decoded ensures ConvertValue(reg, b, decoded[k]) == Done(values[k]) {
      DynamicCopyAtConvertsBack(reg, b, values, k);
    }
    ConvertAllSucceedsIff(reg, b, decoded);
    ConvertedAgreesEverywhere(reg, b, decoded, ConvertAll(reg, b, decoded).value, values);
  }

  /** Serialising a map and deserialising the document, when the
      deserializer yields dynamic values: the decoded map holds dynamic
      copies under the original keys, and the conversion of
      `from_dynamic_values` turns them back into exactly the original
      values. */
  lemma {:induction false} ReflectMapDynamicRoundTrip(reg: Registry, b: Behaviour, values: map<string, Value>)
    requires PersistableAsDynamic(reg, b, values)
    ensures EncodeMap(b, values).Done?
    ensures DecodeEntries(reg, b, EncodeMap(b, values).value) == Done(DynamicCopies(reg, b, values))
    ensures forall k :: k in values ==> DynamicCopies(reg, b, values)[k].Dynamic?
    ensures ConvertAll(reg, b, DynamicCopies(reg, b, values)) == Done(values)
  {
    DynamicCopiesAreRead(reg, b, values);
    EncodeDecodeYields(reg, b, values, DynamicCopies(reg, b, values));
    DynamicCopiesConvertBack(reg, b, values);
  }

  /** Saving a map and loading the saved document gives a map with exactly
      the original entries. */
  method SaveThenLoad(m: PreferencesReflectMap, b: Behaviour) returns (loaded: Outcome<PreferencesReflectMap>)
    requires PersistableAsDynamic(m.arc.registry, b, m.values)
    ensures loaded.Done? && loaded.value.values == m.values
  {
    ReflectMapDynamicRoundTrip(m.arc.registry, b, m.values);
    var doc := m.Serialize(b);
    loaded := PreferencesReflectMap.Deserialize(m.arc, b, doc.value);
  }
}
