/**
  `RegisteredPreferencesPlugin<T>` (src/registry.rs): the plugin added for
  each registered preferences type. It holds the type's default value
  until `build` hands it, once, to the system that assigns the initial
  value of the type's resource; a value stored in the
  `PreferencesReflectMap` wins over that default.
 */
module RegisteredPlugin {
  import opened Reflection
  import opened TypedStore
  import opened ReflectMap

  class RegisteredPreferencesPlugin {
    /** The `Mutex<Option<T>>` that holds the default until `build`. */
    var defaultValue: Option<Value>
    const ty: TypeInfo

    /** `new`: `register_preferences` passes T's `Default` value,
        `register_preferences_with_default_value` the given one. */
    constructor New(ty: TypeInfo, value: Value)
      ensures defaultValue == Some(value) && this.ty == ty
    {
      defaultValue := Some(value);
      this.ty := ty;
    }

    /** `build`: the default is taken out of the plugin and moved into the
        `assign_initial_value` system; building twice panics. */
    method Build() returns (r: Outcome<InitialValueSystem>)
      modifies this
      ensures !r.Failed?
      ensures r.Panicked? <==> old(defaultValue).None?
      ensures r.Panicked? ==> r.panic == BuiltTwice
      ensures r.Done? ==> fresh(r.value) && r.value.pending == old(defaultValue) && r.value.ty == ty
      ensures defaultValue == None
    {
      if defaultValue.None? {
        return Panicked(BuiltTwice);
      }
      var initial := defaultValue.value;
      defaultValue := None;
      var system := new InitialValueSystem(ty, initial);
      return Done(system);
    }
  }

  /** The system `assign_initial_value` returns: a closure owning the
      default in an `Option` of its own. */
  class InitialValueSystem {
    var pending: Option<Value>
    const ty: TypeInfo

    constructor (ty: TypeInfo, value: Value)
      ensures pending == Some(value) && this.ty == ty
    {
      pending := Some(value);
      this.ty := ty;
    }

    /** One run of the system: the value to put in `PreferencesResource<T>`.
        A value of type T taken from the map wins, and `take` removes the
        key even when it does not hold a T; otherwise the default is
        consumed, which the second time panics. */
    method Run(storageMap: PreferencesReflectMap?) returns (r: Outcome<Value>)
      modifies this, storageMap
      ensures !r.Failed?
      ensures storageMap != null && Remove(storageMap.arc.registry, old(storageMap.values), ty).Panicked? ==>
        r == Panicked(Remove(storageMap.arc.registry, old(storageMap.values), ty).panic)
        && storageMap.values == old(storageMap.values) && pending == old(pending)
      // the stored value wins and the default stays where it was
      ensures storageMap != null && Remove(storageMap.arc.registry, old(storageMap.values), ty).Done? ==>
        storageMap.values == Remove(storageMap.arc.registry, old(storageMap.values), ty).value.0
      ensures storageMap != null && Remove(storageMap.arc.registry, old(storageMap.values), ty).Done?
              && Remove(storageMap.arc.registry, old(storageMap.values), ty).value.1.Some? ==>
        r == Done(Remove(storageMap.arc.registry, old(storageMap.values), ty).value.1.value) && pending == old(pending)
      // otherwise the default is consumed, at most once
      ensures (|| storageMap == null
               || (&& Remove(storageMap.arc.registry, old(storageMap.values), ty).Done?
                   && Remove(storageMap.arc.registry, old(storageMap.values), ty).value.1.None?)) ==>
        if old(pending).Some? then r == Done(old(pending).value) && pending == None
        else r == Panicked(SystemRanTwice) && pending == None
    {
      var stored: Option<Value> := None;
      if storageMap != null {
        var taken := storageMap.Take(ty);
        if taken.Panicked? {
          return Panicked(taken.panic);
        }
        stored := taken.value;
      }
      if stored.Some? {
        return Done(stored.value);
      }
      if pending.None? {
        return Panicked(SystemRanTwice);
      }
      var value := pending.value;
      pending := None;
      return Done(value);
    }
  }

  /** `set_reflect_map_value`: the resource's value is cloned with
      `from_reflect` and stored in the map; a failed clone panics. */
  method SetReflectMapValue(b: Behaviour, ty: TypeInfo, resource: Value, storageMap: PreferencesReflectMap) returns (r: Outcome<()>)
    modifies storageMap
    ensures !r.Failed?
    ensures b.fromReflect(ty, resource).None? ==> r == Panicked(CloneFailed) && storageMap.values == old(storageMap.values)
    ensures b.fromReflect(ty, resource).Some? ==>
      var clone := Concrete(ty, b.fromReflect(ty, resource).value);
      && (r.Done? <==> Store(storageMap.arc.registry, old(storageMap.values), clone).Done?)
      && (r.Done? ==> storageMap.values == Store(storageMap.arc.registry, old(storageMap.values), clone).value)
      && (r.Panicked? ==> r.panic == Store(storageMap.arc.registry, old(storageMap.values), clone).panic
                          && storageMap.values == old(storageMap.values))
  {
    match b.fromReflect(ty, resource)
    case None =>
      return Panicked(CloneFailed);
    case Some(data) =>
      r := storageMap.Set(Concrete(ty, data));
  }

  /** `preferences_changed::<T>()` and-then `resource_exists`: the run
      condition of `set_reflect_map_value`. `changed` is the resource's
      change flag, absent when the resource is. */
  function WritesBack(changed: Option<bool>, mapExists: bool): (r: bool)
    ensures r <==> changed == Some(true) && mapExists
  {
    (match changed case Some(c) => c case None => false) && mapExists
  }

  // ---------------------------------------------------------------------
  // Scenarios

  /** Without a stored value the default is used once: the second run of
      the system panics, and so does a second `build`. */
  method DefaultIsTakenOnce(ty: TypeInfo, value: Value) returns (first: Outcome<Value>, second: Outcome<Value>, rebuilt: bool)
    ensures first == Done(value)
    ensures second == Panicked(SystemRanTwice)
    ensures !rebuilt
  {
    var plugin := new RegisteredPreferencesPlugin.New(ty, value);
    var built := plugin.Build();
    assert built.Done?;
    var system := built.value;
    first := system.Run(null);
    second := system.Run(null);
    var again := plugin.Build();
    rebuilt := again.Done?;
  }

  /** A value of T already in the map wins over the default, and leaves
      the map without T's key. */
  method StoredValueWins(arc: RegistryArc, ty: TypeInfo, default: Value, data: Data) returns (initial: Outcome<Value>, left: map<string, Value>)
    requires arc.registry.DistinctFullPaths() && arc.registry.Knows(ty)
    ensures initial == Done(Concrete(ty, data))
    ensures left == map[]
  {
    var storageMap := new PreferencesReflectMap.Empty(arc);
    var stored := storageMap.Set(Concrete(ty, data));
    var plugin := new RegisteredPreferencesPlugin.New(ty, default);
    var built := plugin.Build();
    assert built.Done?;
    TakeAfterStore(arc.registry, map[], Concrete(ty, data));
    initial := built.value.Run(storageMap);
    left := storageMap.values;
  }

  /** A changed resource is written back: after `set_reflect_map_value`
      the map's `get` returns the resource's value. */
  method WrittenBackValueIsVisible(arc: RegistryArc, b: Behaviour, ty: TypeInfo, data: Data) returns (found: Outcome<Option<Value>>)
    requires arc.registry.DistinctFullPaths() && arc.registry.Knows(ty)
    requires b.fromReflect(ty, Concrete(ty, data)) == Some(data)
    ensures found == Done(Some(Concrete(ty, data)))
  {
    var storageMap := new PreferencesReflectMap.Empty(arc);
    var written := SetReflectMapValue(b, ty, Concrete(ty, data), storageMap);
    StoreThenLookup(arc.registry, map[], Concrete(ty, data));
    found := storageMap.Get(ty);
  }
}
