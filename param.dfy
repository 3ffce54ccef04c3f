/**
  The `Preferences<T>` system parameter (src/param.rs): reading a type's
  entry of the `PreferencesMap`, and changing it through a guard that, when
  dropped, queues a command to store the edited copy.
 */
module Param {
  import opened Reflection
  import opened TypedStore
  import opened PlainMap

  /** `SetPreferencesCommand<T>`: the value to store. */
  datatype SetPreferencesCommand = SetPreferencesCommand(value: Value)

  /** The world the parameter works on: the `PreferencesMap` resource, if
      present, and the queue of commands not yet applied. */
  class World {
    var preferences: PreferencesMap?
    var commands: seq<SetPreferencesCommand>

    constructor (preferences: PreferencesMap?)
      ensures this.preferences == preferences && commands == []
    {
      this.preferences := preferences;
      commands := [];
    }
  }

  /** `SetPreferencesCommand::apply`: the carried value is stored in the
      map; a missing map resource panics. */
  method Apply(command: SetPreferencesCommand, world: World) returns (r: Outcome<()>)
    modifies world.preferences
    ensures !r.Failed?
    ensures world.preferences == null ==> r == Panicked(ResourceMissing)
    ensures world.preferences != null ==>
      && (r.Done? <==> Store(world.preferences.arc.registry, old(world.preferences.values), command.value).Done?)
      && (r.Done? ==> world.preferences.values == Store(world.preferences.arc.registry, old(world.preferences.values), command.value).value)
      && (r.Panicked? ==> world.preferences.values == old(world.preferences.values))
  {
    if world.preferences == null {
      return Panicked(ResourceMissing);
    }
    r := world.preferences.Set(command.value);
  }

  /** `Preferences<T>`: the map through the world, and the `Local` that
      holds the copy handed out by the last `mutate`. */
  class Preferences {
    const world: World
    const ty: TypeInfo
    var lastValue: Option<Value>

    constructor (world: World, ty: TypeInfo)
      ensures this.world == world && this.ty == ty && lastValue.None?
    {
      this.world := world;
      this.ty := ty;
      lastValue := None;
    }

    /** `Deref`: `get::<T>()` on the map, which panics without an entry. */
    function Deref(): (r: Outcome<Value>)
      requires world.preferences != null
      reads this, world, world.preferences, world.preferences.arc
      ensures r == Fetch(world.preferences.arc.registry, world.preferences.values, ty)
      ensures r.Done? ==> r.value in world.preferences.values.Values && IsOf(r.value, ty)
    {
      world.preferences.Get(ty)
    }

    /** `mutate`: a clone of the map's entry goes into `last_value`, and the
        guard refers to that clone, not to the entry. */
    method Mutate() returns (r: Outcome<MutatePreferencesGuard>)
      requires world.preferences != null
      modifies this
      ensures !r.Failed?
      ensures r.Done? <==> Fetch(world.preferences.arc.registry, world.preferences.values, ty).Done?
      ensures r.Panicked? ==> r.panic == Fetch(world.preferences.arc.registry, world.preferences.values, ty).panic && lastValue == old(lastValue)
      ensures r.Done? ==> lastValue == Some(Fetch(world.preferences.arc.registry, world.preferences.values, ty).value)
      ensures r.Done? ==> fresh(r.value) && r.value.param == this
    {
      var current := world.preferences.Get(ty);
      match current {
        case Done(v) =>
          lastValue := Some(v);
          var guard := new MutatePreferencesGuard(this);
          return Done(guard);
        case Failed(e) =>
          return Failed(e);
        case Panicked(p) =>
          return Panicked(p);
      }
    }
  }

  /** `MutatePreferencesGuard<T>`: a mutable reference to the parameter's
      `last_value` together with its `Commands`. */
  class MutatePreferencesGuard {
    const param: Preferences

    constructor (param: Preferences)
      ensures this.param == param
    {
      this.param := param;
    }

    /** `DerefMut` followed by a change of the referenced value. */
    method Edit(edit: Data -> Data)
      requires param.lastValue.Some?
      modifies param
      ensures param.lastValue == Some(old(param.lastValue.value).(data := edit(old(param.lastValue.value.data))))
    {
      var v := param.lastValue.value;
      param.lastValue := Some(v.(data := edit(v.data)));
    }

    /** `Drop`: exactly one command, carrying a clone of the edited value,
        joins the queue; the map itself is not touched. */
    method Drop()
      requires param.lastValue.Some?
      modifies param.world
      ensures param.world.commands == old(param.world.commands) + [SetPreferencesCommand(param.lastValue.value)]
      ensures param.world.preferences == old(param.world.preferences)
    {
      param.world.commands := param.world.commands + [SetPreferencesCommand(param.lastValue.value)];
    }
  }

  // ---------------------------------------------------------------------
  // Scenario

  /** A system mutates a stored value: until the queued command is applied
      the map still holds the old value, and afterwards `get` returns the
      edited one. */
  method MutateEditDropApply(arc: RegistryArc, ty: TypeInfo, data: Data, edit: Data -> Data)
    returns (queued: nat, beforeApply: Outcome<Value>, afterApply: Outcome<Value>)
    requires arc.registry.DistinctFullPaths() && arc.registry.Knows(ty)
    ensures queued == 1
    ensures beforeApply == Done(Concrete(ty, data))
    ensures afterApply == Done(Concrete(ty, edit(data)))
  {
    var prefs := new PreferencesMap.New(arc);
    var stored := prefs.Set(Concrete(ty, data));
    StoreThenLookup(arc.registry, map[], Concrete(ty, data));
    var world := new World(prefs);
    var param := new Preferences(world, ty);
    var guard := param.Mutate();
    assert guard.Done?;
    guard.value.Edit(edit);
    guard.value.Drop();
    queued := |world.commands|;
    beforeApply := param.Deref();
    var held := prefs.values;
    var applied := Apply(world.commands[0], world);
    StoreThenLookup(arc.registry, held, Concrete(ty, edit(data)));
    afterApply := param.Deref();
  }
}
