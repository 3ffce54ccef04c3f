/**
  `PreferencesSerializableMap` (src/serializable_map.rs): the variant of
  the preference map that accepts partially reflected values. Values
  without type info are dropped on construction, dynamic values are
  converted to their concrete types, and equality walks the two maps side
  by side.
 */
module SerializableMap {
  import opened Reflection
  import opened KeyOrder
  import opened EffectivePath
  import opened TypedStore
  import opened Codec
  import opened ReflectMap

  /** The entries `from_dynamic_values` keeps: those whose value carries
      type info. */
  function WithTypeInfo(values: map<string, Value>): (r: map<string, Value>)
    ensures forall k :: k in r <==> k in values && values[k].RepresentedTypeInfo().Some?
    ensures forall k :: k in r ==> r[k] == values[k]
  {
    map k | k in values && values[k].RepresentedTypeInfo().Some? :: values[k]
  }

  /** `from_dynamic_values`: entries without type info are dropped and every
      kept entry is converted to its registered concrete type. */
  function ConvertKept(reg: Registry, b: Behaviour, values: map<string, Value>): (r: Outcome<map<string, Value>>)
    ensures !r.Failed?
    ensures r.Done? ==> forall k :: k in r.value <==> k in values && values[k].RepresentedTypeInfo().Some?
  {
    ConvertAll(reg, b, WithTypeInfo(values))
  }

  /** Every kept value now has the type its type info named. */
  lemma ConvertKeptYieldsRepresentedTypes(reg: Registry, b: Behaviour, values: map<string, Value>, k: string)
    requires ConvertKept(reg, b, values).Done? && k in ConvertKept(reg, b, values).value
    ensures values[k].RepresentedTypeInfo().Some?
    ensures ConvertKept(reg, b, values).value[k].TypeId() == values[k].RepresentedTypeInfo().value.fullPath
  {
    ConvertAllKeepsOrConverts(reg, b, WithTypeInfo(values), k);
  }

  /** `set_dyn`: a dynamic value is converted and stored under the key of
      the type it represents, as in `PreferencesReflectMap`; a value that
      is neither dynamic nor a full `Reflect` value panics. */
  function SerializableSetDynEntry(reg: Registry, b: Behaviour, value: Value): (r: Outcome<(string, Value)>)
    ensures !r.Failed?
    ensures value.PartialOnly? ==> r == Panicked(NotReflect)
    ensures value.Dynamic? ==> r == SetDynEntry(reg, b, value)
    ensures value.Concrete? ==> (r.Done? <==> Store(reg, map[], value).Done?)
    ensures value.Concrete? && r.Done? ==> r.value == (EffectiveTypePath(value.OwnType(), reg).value, value)
  {
    if value.PartialOnly? then Panicked(NotReflect) else SetDynEntry(reg, b, value)
  }

  // ---------------------------------------------------------------------
  // Equality

  /** The `i`-th pair of the zipped iteration: same key, and the host's
      `reflect_partial_eq` answers `Some(true)`. */
  predicate PairAgrees(b: Behaviour, m1: map<string, Value>, m2: map<string, Value>, i: nat)
    requires i < |m1| && i < |m2|
  {
    var k1 := SortedKeys(m1.Keys)[i];
    var k2 := SortedKeys(m2.Keys)[i];
    k1 == k2 && b.partialEq(m1[k1], m2[k2]) == Some(true)
  }

  /** `PartialEq::eq` as written: every pair of the zipped iteration agrees.
      The zip stops at the end of the shorter map, so entries past it are
      never looked at. */
  predicate ZipAgree(b: Behaviour, m1: map<string, Value>, m2: map<string, Value>) {
    forall i :: 0 <= i < |m1| && i < |m2| ==> PairAgrees(b, m1, m2, i)
  }

  /** The equality the implementation evidently means: the zipped walk over
      maps of the same size. */
  predicate MapsEqual(b: Behaviour, m1: map<string, Value>, m2: map<string, Value>) {
    |m1| == |m2| && ZipAgree(b, m1, m2)
  }

  class PreferencesSerializableMap {
    var values: map<string, Value>
    const arc: RegistryArc

    /** `empty`. */
    constructor Empty(arc: RegistryArc)
      ensures values == map[] && this.arc == arc
    {
      values := map[];
      this.arc := arc;
    }

    /** `from_dynamic_values`. */
    static method FromDynamicValues(arc: RegistryArc, b: Behaviour, values: map<string, Value>) returns (r: Outcome<PreferencesSerializableMap>)
      ensures !r.Failed?
      ensures r.Panicked? <==> ConvertKept(arc.registry, b, values).Panicked?
      ensures r.Panicked? ==> r.panic == ConvertKept(arc.registry, b, values).panic
      ensures r.Done? ==> fresh(r.value) && r.value.arc == arc && r.value.values == ConvertKept(arc.registry, b, values).value
    {
      var converted := ConvertKept(arc.registry, b, values);
      if converted.Panicked? {
        return Panicked(converted.panic);
      }
      var m := new PreferencesSerializableMap.Empty(arc);
      m.values := converted.value;
      return Done(m);
    }

    /** `PartialEq::eq`: walk both maps in key order, pair by pair, and
        answer false at the first pair whose keys differ or whose values are
        not equal. */
    method Eq(b: Behaviour, other: PreferencesSerializableMap) returns (r: bool)
      ensures r <==> ZipAgree(b, values, other.values)
    {
      var m1, m2 := values, other.values;
      var keys1 := SortedKeys(m1.Keys);
      var keys2 := SortedKeys(m2.Keys);
      var n := if |keys1| < |keys2| then |keys1| else |keys2|;
      assert n <= |m1| && n <= |m2|;
      var i := 0;
      while i < n
        invariant 0 <= i <= n
        invariant forall j :: 0 <= j < i ==> PairAgrees(b, m1, m2, j)
      {
        var k1, k2 := keys1[i], keys2[i];
        assert k1 in m1.Keys && k2 in m2.Keys;
        if k1 != k2 || b.partialEq(m1[k1], m2[k2]) != Some(true) {
          assert !PairAgrees(b, m1, m2, i);
          return false;
        }
        i := i + 1;
      }
      return true;
    }

    /** The corrected equality: maps of different sizes differ, and maps of
        the same size are compared by the zipped walk above. */
    method SameEntries(b: Behaviour, other: PreferencesSerializableMap) returns (r: bool)
      ensures r <==> values.Keys == other.values.Keys &&
                     forall k :: k in values ==> b.partialEq(values[k], other.values[k]) == Some(true)
    {
      MapsEqualMeansSameEntries(b, values, other.values);
      if |values| != |other.values| {
        return false;
      }
      r := Eq(b, other);
    }

    /** `set`. */
    method Set(value: Value) returns (r: Outcome<()>)
      modifies this
      ensures !r.Failed?
      ensures r.Done? <==> Store(arc.registry, old(values), value).Done?
      ensures r.Done? ==> values == Store(arc.registry, old(values), value).value
      ensures r.Panicked? ==> r.panic == Store(arc.registry, old(values), value).panic && values == old(values)
    {
      match Store(arc.registry, values, value)
      case Done(updated) =>
        values := updated;
        return Done(());
      case Failed(e) =>
        return Failed(e);
      case Panicked(p) =>
        return Panicked(p);
    }

    /** `set_dyn`. */
    method SetDyn(b: Behaviour, value: Value) returns (r: Outcome<()>)
      modifies this
      ensures !r.Failed?
      ensures r.Done? <==> SerializableSetDynEntry(arc.registry, b, value).Done?
      ensures r.Done? ==> values == old(values)[SerializableSetDynEntry(arc.registry, b, value).value.0 := SerializableSetDynEntry(arc.registry, b, value).value.1]
      ensures r.Panicked? ==> r.panic == SerializableSetDynEntry(arc.registry, b, value).panic && values == old(values)
    {
      match SerializableSetDynEntry(arc.registry, b, value)
      case Done(entry) =>
        values := values[entry.0 := entry.1];
        return Done(());
      case Failed(e) =>
        return Failed(e);
      case Panicked(p) =>
        return Panicked(p);
    }

    /** `get::<T>()`: the entry of type T, if any. */
    function Get(ty: TypeInfo): (r: Outcome<Option<Value>>)
      reads this, arc
      ensures r == Lookup(arc.registry, values, ty)
      ensures r.Done? && r.value.Some? ==> r.value.value in values.Values && IsOf(r.value.value, ty)
    {
      Lookup(arc.registry, values, ty)
    }

    /** `get_mut::<T>()` followed by an edit through the returned reference. */
    method GetMut(ty: TypeInfo, edit: Data -> Data) returns (r: Outcome<Option<Value>>)
      modifies this
      ensures !r.Failed?
      ensures r.Panicked? <==> Modify(arc.registry, old(values), ty, edit).Panicked?
      ensures r.Done? ==> Modify(arc.registry, old(values), ty, edit) == Done((values, r.value))
      ensures r.Panicked? ==> r.panic == Modify(arc.registry, old(values), ty, edit).panic && values == old(values)
    {
      match Modify(arc.registry, values, ty, edit)
      case Done(result) =>
        values := result.0;
        return Done(result.1);
      case Failed(e) =>
        return Failed(e);
      case Panicked(p) =>
        return Panicked(p);
    }

    /** `take::<T>()`. */
    method Take(ty: TypeInfo) returns (r: Outcome<Option<Value>>)
      modifies this
      ensures !r.Failed?
      ensures r.Panicked? <==> Remove(arc.registry, old(values), ty).Panicked?
      ensures r.Panicked? ==> r.panic == Remove(arc.registry, old(values), ty).panic
      ensures r.Done? ==> Remove(arc.registry, old(values), ty) == Done((values, r.value))
      ensures r.Panicked? ==> values == old(values)
    {
      match Remove(arc.registry, values, ty)
      case Done(result) =>
        values := result.0;
        return Done(result.1);
      case Failed(e) =>
        return Failed(e);
      case Panicked(p) =>
        return Panicked(p);
    }

    /** `is_empty`. */
    function IsEmpty(): (r: bool)
      reads this
      ensures r <==> Len() == 0
    {
      values == map[]
    }

    /** `len`. */
    function Len(): (r: nat)
      reads this
      ensures r == |SortedKeys(values.Keys)|
      ensures r == 0 <==> values == map[]
    {
      |values|
    }

    /** `Serialize`. */
    method Serialize(b: Behaviour) returns (r: Outcome<Document>)
      ensures r == EncodeMap(b, values)
      ensures r.Done? ==> |r.value| == Len()
    {
      r := SerializeMap(b, values);
    }

    /** The deserialize seed: `visit_map`, then `from_dynamic_values`. */
    static method Deserialize(arc: RegistryArc, b: Behaviour, doc: Document) returns (r: Outcome<PreferencesSerializableMap>)
      ensures r.Failed? <==> DecodeEntries(arc.registry, b, doc).Failed?
      ensures r.Failed? ==> r.error == DecodeEntries(arc.registry, b, doc).error
      ensures r.Done? ==> DecodeEntries(arc.registry, b, doc).Done?
      ensures r.Panicked? <==> DecodeEntries(arc.registry, b, doc).Done? && ConvertKept(arc.registry, b, DecodeEntries(arc.registry, b, doc).value).Panicked?
      ensures r.Done? ==> fresh(r.value) && r.value.arc == arc
      ensures r.Done? ==> ConvertKept(arc.registry, b, DecodeEntries(arc.registry, b, doc).value).Done?
      ensures r.Done? ==> r.value.values == ConvertKept(arc.registry, b, DecodeEntries(arc.registry, b, doc).value).value
    {
      var decoded := VisitMap(arc.registry, b, doc);
      if decoded.Failed? {
        return Failed(decoded.error);
      }
      r := FromDynamicValues(arc, b, decoded.value);
    }
  }

  // ---------------------------------------------------------------------
  // Properties

  /** The zipped walk never looks past the shorter map: the empty map is
      equal to every map, including one with entries it lacks. */
  lemma EmptyMapZipAgreesWithAny(b: Behaviour, m: map<string, Value>, k: string)
    requires k in m
    ensures ZipAgree(b, map[], m) && ZipAgree(b, m, map[])
    ensures !MapsEqual(b, map[], m)
  {
  }

  /** A concrete instance: `{k: v}` is equal to `{k: v, k2: w}` for any `w`
      once the host calls `v` equal to itself, though the second map has an
      entry the first lacks. */
  lemma {:induction false} PrefixMapZipAgrees(b: Behaviour, k: string, k2: string, v: Value, w: Value)
    requires Less(k, k2) && b.partialEq(v, v) == Some(true)
    ensures ZipAgree(b, map[k := v], map[k := v, k2 := w])
    ensures !MapsEqual(b, map[k := v], map[k := v, k2 := w])
  {
    var m1 := map[k := v];
    var m2 := map[k := v, k2 := w];
    LessIrreflexive(k);
    assert m2.Keys == {k, k2};
    var s1 := SortedKeys(m1.Keys);
    var s2 := SortedKeys(m2.Keys);
    assert s1[0] == k;
    assert s2[0] == k by {
      if s2[0] != k {
        assert s2[0] == k2 && s2[1] == k;
        LessAsymmetric(k, k2);
      }
    }
    assert PairAgrees(b, m1, m2, 0);
  }

  /** Equality on maps of the same size means the same keys and, key by
      key, values the host calls equal; and the converse. */
  lemma {:induction false} MapsEqualMeansSameEntries(b: Behaviour, m1: map<string, Value>, m2: map<string, Value>)
    ensures MapsEqual(b, m1, m2) <==>
      && m1.Keys == m2.Keys
      && forall k :: k in m1 ==> b.partialEq(m1[k], m2[k]) == Some(true)
  {
    var s1 := SortedKeys(m1.Keys);
    var s2 := SortedKeys(m2.Keys);
    if MapsEqual(b, m1, m2) {
      assert s1 == s2 by {
        forall i | 0 <= i < |s1| ensures s1[i] == s2[i] {
          assert PairAgrees(b, m1, m2, i);
        }
      }
      assert m1.Keys == m2.Keys by {
        forall k ensures k in m1 <==> k in m2 {
          assert k in s1 <==> k in s2;
        }
      }
      forall k | k in m1 ensures b.partialEq(m1[k], m2[k]) == Some(true) {
        var i :| 0 <= i < |s1| && s1[i] == k;
        assert PairAgrees(b, m1, m2, i);
      }
    }
    if m1.Keys == m2.Keys && forall k :: k in m1 ==> b.partialEq(m1[k], m2[k]) == Some(true) {
      assert |m1| == |m1.Keys| == |m2.Keys| == |m2|;
      forall i | 0 <= i < |m1| && i < |m2| ensures PairAgrees(b, m1, m2, i) {
        assert s1[i] in m1.Keys;
      }
    }
  }

  /** `set_dyn` of a dynamic copy of a registered value stores the concrete
      value that `from_reflect` rebuilds, so `get` returns it. */
  lemma SerializableSetDynThenGet(reg: Registry, b: Behaviour, values: map<string, Value>, ty: TypeInfo, own: TypeInfo, data: Data)
    requires reg.DistinctFullPaths() && reg.Knows(ty)
    requires reg.GetWithTypePath(ty.fullPath).value.preferences && reg.GetWithTypePath(ty.fullPath).value.fromReflect
    requires own.fullPath != ty.fullPath
    requires b.fromReflect(ty, Dynamic(own, Some(ty), data)) == Some(data)
    ensures SerializableSetDynEntry(reg, b, Dynamic(own, Some(ty), data)).Done?
    ensures var e := SerializableSetDynEntry(reg, b, Dynamic(own, Some(ty), data)).value;
      Lookup(reg, values[e.0 := e.1], ty) == Done(Some(Concrete(ty, data)))
  {
    SetDynThenGet(reg, b, values, ty, own, data);
  }

  /** Serialising a map of persistable values and deserialising the
      document gives back the same entries. */
  lemma {:induction false} SerializableMapRoundTrip(reg: Registry, b: Behaviour, values: map<string, Value>)
    requires Persistable(reg, b, values)
    ensures EncodeMap(b, values).Done?
    ensures DecodeEntries(reg, b, EncodeMap(b, values).value) == Done(values)
    ensures ConvertKept(reg, b, values) == Done(values)
  {
    ReflectMapRoundTrip(reg, b, values);
    AllTypedKept(values);
  }

  /** The same round trip when the deserializer yields dynamic values: each
      dynamic copy carries the type info of the value it was written from,
      so `from_dynamic_values` keeps every entry and converts it back. */
  lemma {:induction false} SerializableMapDynamicRoundTrip(reg: Registry, b: Behaviour, values: map<string, Value>)
    requires PersistableAsDynamic(reg, b, values)
    ensures EncodeMap(b, values).Done?
    ensures DecodeEntries(reg, b, EncodeMap(b, values).value) == Done(DynamicCopies(reg, b, values))
    ensures ConvertKept(reg, b, DynamicCopies(reg, b, values)) == Done(values)
  {
    ReflectMapDynamicRoundTrip(reg, b, values);
    DynamicCopiesKeepTypeInfo(reg, b, values);
  }

  /** The dynamic copy read back under one key names the type it was
      written from. */
  lemma DynamicCopyHasTypeInfo(reg: Registry, b: Behaviour, values: map<string, Value>, k: string)
    requires PersistableAsDynamic(reg, b, values) && k in values
    ensures DynamicCopies(reg, b, values)[k].RepresentedTypeInfo() == Some(values[k].ty)
  {
    var v := values[k];
    assert ReadsBackAsDynamic(b, RegistrationOf(reg, v.ty), v);
  }

  /** No dynamic copy is dropped by `from_dynamic_values`. */
  lemma DynamicCopiesKeepTypeInfo(reg: Registry, b: Behaviour, values: map<string, Value>)
    requires PersistableAsDynamic(reg, b, values)
    ensures WithTypeInfo(DynamicCopies(reg, b, values)) == DynamicCopies(reg, b, values)
  {
    var copies := DynamicCopies(reg, b, values);
    forall k | k in copies ensures copies[k].RepresentedTypeInfo().Some? {
      DynamicCopyHasTypeInfo(reg, b, values, k);
    }
    AllTypedKept(copies);
  }

  /** A map whose every value carries type info loses nothing. */
  lemma AllTypedKept(values: map<string, Value>)
    requires forall k :: k in values ==> values[k].RepresentedTypeInfo().Some?
    ensures WithTypeInfo(values) == values
  {
  }

  /** Saving a serializable map and loading the saved document gives a map
      with exactly the original entries. */
  method SaveThenLoad(m: PreferencesSerializableMap, b: Behaviour) returns (loaded: Outcome<PreferencesSerializableMap>)
    requires PersistableAsDynamic(m.arc.registry, b, m.values)
    ensures loaded.Done? && loaded.value.values == m.values
  {
    SerializableMapDynamicRoundTrip(m.arc.registry, b, m.values);
    var doc := m.Serialize(b);
    loaded := PreferencesSerializableMap.Deserialize(m.arc, b, doc.value);
  }
}
