/**
  `PreferencesRegistryData` and the registration helpers of registry.rs:
  which type data a preferences type must carry, and how a reflected value
  is turned into a value of the registered concrete type.
 */
module Conversion {
  import opened Reflection

  /** The type data the crate extracts from a registration: the type it
      stands for and whether a `ReflectDefault` is available (the
      `ReflectPreferences` and `ReflectFromReflect` data are mandatory). */
  datatype RegistryData = RegistryData(ty: TypeInfo, hasDefault: bool)

  /** `from_type_registration`: panics unless the registration carries
      `ReflectPreferences` and `ReflectFromReflect`; the default is optional. */
  function FromTypeRegistration(registration: Registration): (r: Outcome<RegistryData>)
    ensures !r.Failed?
    ensures r.Done? <==> registration.preferences && registration.fromReflect
    ensures !registration.preferences ==> r == Panicked(NotPreferences(registration.info))
    ensures registration.preferences && !registration.fromReflect ==> r == Panicked(NoFromReflect(registration.info))
    ensures r.Done? ==> r.value.ty == registration.info && r.value.hasDefault == registration.hasDefault
  {
    if !registration.preferences then Panicked(NotPreferences(registration.info))
    else if !registration.fromReflect then Panicked(NoFromReflect(registration.info))
    else Done(RegistryData(registration.info, registration.hasDefault))
  }

  /** `from_type_info`: the registration is looked up by type id; an
      unregistered type panics. */
  function FromTypeInfo(reg: Registry, ty: TypeInfo): (r: Outcome<RegistryData>)
    ensures !r.Failed?
    ensures reg.GetWithTypePath(ty.fullPath).None? ==> r == Panicked(NotRegistered(ty.fullPath, ty.shortPath))
    ensures reg.GetWithTypePath(ty.fullPath).Some? ==> r == FromTypeRegistration(reg.GetWithTypePath(ty.fullPath).value)
    ensures r.Done? ==> exists x :: (x in reg.entries && x.info.fullPath == ty.fullPath
      && x.preferences && x.fromReflect && r.value == RegistryData(x.info, x.hasDefault))
  {
    match reg.GetWithTypePath(ty.fullPath)
    case None => Panicked(NotRegistered(ty.fullPath, ty.shortPath))
    case Some(registration) => FromTypeRegistration(registration)
  }

  /** `apply_from_reflect`: a value that already has the registered type is
      kept; otherwise `from_reflect` converts it; otherwise the registered
      default with the value applied onto it; otherwise a panic. */
  function ApplyFromReflect(d: RegistryData, b: Behaviour, value: Value): (r: Outcome<Value>)
    ensures !r.Failed?
    // whatever comes out is a value of the registered type
    ensures r.Done? ==> r.value.TypeId() == d.ty.fullPath
    ensures value.TypeId() == d.ty.fullPath ==> r == Done(value)
    ensures value.TypeId() != d.ty.fullPath && r.Done? ==> r.value.Concrete? && r.value.ty == d.ty
    ensures value.TypeId() != d.ty.fullPath && b.fromReflect(d.ty, value).Some? ==>
      r == Done(Concrete(d.ty, b.fromReflect(d.ty, value).value))
    ensures (value.TypeId() != d.ty.fullPath && b.fromReflect(d.ty, value).None? && d.hasDefault
             && b.tryApply(b.defaultData(d.ty), value).Some?) ==>
      r == Done(Concrete(d.ty, b.tryApply(b.defaultData(d.ty), value).value))
    // it panics exactly when every fallback fails
    ensures r.Panicked? <==>
      && value.TypeId() != d.ty.fullPath
      && b.fromReflect(d.ty, value).None?
      && (!d.hasDefault || b.tryApply(b.defaultData(d.ty), value).None?)
    ensures r.Panicked? ==> r.panic == FromReflectFailed(value.TypeId())
  {
    if value.TypeId() == d.ty.fullPath then Done(value)
    else match b.fromReflect(d.ty, value)
      case Some(data) => Done(Concrete(d.ty, data))
      case None =>
        if !d.hasDefault then Panicked(FromReflectFailed(value.TypeId()))
        else match b.tryApply(b.defaultData(d.ty), value)
          case Some(data) => Done(Concrete(d.ty, data))
          case None => Panicked(FromReflectFailed(value.TypeId()))
  }

  /** Converting a converted value again changes nothing. */
  lemma ApplyFromReflectIdempotent(d: RegistryData, b: Behaviour, value: Value)
    requires ApplyFromReflect(d, b, value).Done?
    ensures ApplyFromReflect(d, b, ApplyFromReflect(d, b, value).value) == ApplyFromReflect(d, b, value)
  {
  }

  /** The registration steps of `register_preferences` (`withDefault`) and
      `register_preferences_with_default_value` (not `withDefault`):
      register the type as the host derives it, add the ReflectPreferences
      and ReflectFromReflect data (and ReflectDefault for the first), and
      register the `PreferencesResource<T>` wrapper type. */
  function RegisterPreferencesTypes(reg: Registry, own: Registration, resource: Registration, withDefault: bool): (r: Registry)
    requires reg.DistinctFullPaths()
    requires resource.info.fullPath != own.info.fullPath
    ensures r.DistinctFullPaths()
    ensures var x := r.GetWithTypePath(own.info.fullPath);
      x.Some? && x.value.preferences && x.value.fromReflect
    ensures withDefault ==> r.GetWithTypePath(own.info.fullPath).value.hasDefault
    // without a default nothing but the derive decides ReflectDefault
    ensures !withDefault ==>
      (r.GetWithTypePath(own.info.fullPath).value.hasDefault ==
       reg.Register(own).GetWithTypePath(own.info.fullPath).value.hasDefault)
    ensures r.GetWithTypePath(resource.info.fullPath).Some?
  {
    var withType := reg.Register(own);
    RegisteredIsFound(reg, own);
    var withData := withType.InsertTypeData(own.info.fullPath, true, true, withDefault);
    InsertTypeDataSetsFlags(withType, own.info.fullPath, true, true, withDefault);
    var r := withData.Register(resource);
    RegisteredIsFound(withData, resource);
    KeepsEarlierLookup(withData, resource, own.info.fullPath);
    r
  }

  lemma RegisteredIsFound(reg: Registry, x: Registration)
    ensures reg.Register(x).GetWithTypePath(x.info.fullPath).Some?
  {
    if reg.GetWithTypePath(x.info.fullPath).None? {
      assert x in reg.Register(x).entries;
    }
  }

  lemma KeepsEarlierLookup(reg: Registry, x: Registration, path: string)
    requires reg.DistinctFullPaths() && reg.GetWithTypePath(path).Some?
    requires x.info.fullPath != path
    ensures reg.Register(x).GetWithTypePath(path) == reg.GetWithTypePath(path)
  {
    var r := reg.Register(x);
    if r != reg {
      var e := reg.GetWithTypePath(path).value;
      var f := r.GetWithTypePath(path).value;
      SameFullPathSameEntry(r, e, f);
    }
  }

  /** `register_type_data` on a registered type adds the data to its
      registration and keeps the rest. */
  lemma InsertTypeDataSetsFlags(reg: Registry, path: string, p: bool, f: bool, d: bool)
    requires reg.DistinctFullPaths() && reg.GetWithTypePath(path).Some?
    ensures var e := reg.GetWithTypePath(path).value;
      reg.InsertTypeData(path, p, f, d).GetWithTypePath(path) ==
        Some(Registration(e.info, e.preferences || p, e.fromReflect || f, e.hasDefault || d))
  {
    var e := reg.GetWithTypePath(path).value;
    var r := reg.InsertTypeData(path, p, f, d);
    var i :| 0 <= i < |reg.entries| && reg.entries[i] == e;
    assert r.entries[i] in r.entries;
    var g := r.GetWithTypePath(path).value;
    SameFullPathSameEntry(r, g, r.entries[i]);
  }
}
