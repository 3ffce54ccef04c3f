/**
  The key rule shared by the three preference maps: the key a value of a
  given type is stored under, and the lookup the decoders use to turn a
  document key back into a registration.
 */
module EffectivePath {
  import opened Reflection

  /** `effective_type_path`: the short path when the registry resolves it to
      this very type, else the full path when that is registered, else a
      panic. A short path that resolves to another type also panics. */
  function EffectiveTypePath(ty: TypeInfo, reg: Registry): (r: Outcome<string>)
    ensures !r.Failed?
    // the short path is the key exactly when the short lookup finds this type
    ensures (var s := reg.GetWithShortTypePath(ty.shortPath);
             s.Some? && s.value.info.fullPath == ty.fullPath) ==> r == Done(ty.shortPath)
    ensures r.Done? && reg.GetWithShortTypePath(ty.shortPath).Some? ==>
      r.value == ty.shortPath && reg.GetWithShortTypePath(ty.shortPath).value.info.fullPath == ty.fullPath
    // otherwise the full path is the key, when the type is registered
    ensures reg.GetWithShortTypePath(ty.shortPath).None? && reg.GetWithTypePath(ty.fullPath).Some? ==>
      r == Done(ty.fullPath)
    ensures r.Done? && reg.GetWithShortTypePath(ty.shortPath).None? ==>
      r.value == ty.fullPath && reg.GetWithTypePath(ty.fullPath).Some?
    // a panic names the reason
    ensures r.Panicked? <==>
      (|| reg.GetWithTypePath(ty.fullPath).None?
       || (var s := reg.GetWithShortTypePath(ty.shortPath);
           s.Some? && s.value.info.fullPath != ty.fullPath))
    ensures r.Panicked? && reg.GetWithShortTypePath(ty.shortPath).Some? ==>
      r.panic == ShortPathMismatch(ty.shortPath, reg.GetWithShortTypePath(ty.shortPath).value.info.fullPath, ty.fullPath)
    ensures r.Panicked? && reg.GetWithShortTypePath(ty.shortPath).None? ==>
      r.panic == NotRegistered(ty.fullPath, ty.shortPath)
  {
    match reg.GetWithShortTypePath(ty.shortPath)
    case Some(registration) =>
      var registeredPath := registration.info.fullPath;
      if registeredPath != ty.fullPath then Panicked(ShortPathMismatch(ty.shortPath, registeredPath, ty.fullPath))
      else
        assert reg.GetWithTypePath(ty.fullPath).Some?;
        Done(ty.shortPath)
    case None =>
      if reg.GetWithTypePath(ty.fullPath).Some? then Done(ty.fullPath)
      else Panicked(NotRegistered(ty.fullPath, ty.shortPath))
  }

  /** The decoders' lookup of a document key: as a short path first, then
      as a full path. */
  function ResolveKey(reg: Registry, key: string): (r: Option<Registration>)
    ensures r.Some? ==> r.value in reg.entries
    ensures r.Some? ==> r.value.info.shortPath == key || r.value.info.fullPath == key
    ensures r.None? <==> forall x :: x in reg.entries ==> x.info.fullPath != key && reg.GetWithShortTypePath(key).None?
  {
    match reg.GetWithShortTypePath(key)
    case Some(registration) => Some(registration)
    case None => reg.GetWithTypePath(key)
  }

  /** The registration of a known type. */
  function RegistrationOf(reg: Registry, ty: TypeInfo): (r: Registration)
    requires reg.Knows(ty)
    ensures r in reg.entries && r.info == ty
  {
    reg.GetWithTypePath(ty.fullPath).value
  }

  lemma RegistrationOfUnique(reg: Registry, ty: TypeInfo, x: Registration)
    requires reg.DistinctFullPaths() && reg.Knows(ty)
    requires x in reg.entries && x.info.fullPath == ty.fullPath
    ensures x == RegistrationOf(reg, ty)
  {
    SameFullPathSameEntry(reg, x, RegistrationOf(reg, ty));
  }

  /** A registered type always gets a key. */
  lemma {:induction false} KnownTypeHasKey(reg: Registry, ty: TypeInfo)
    requires reg.DistinctFullPaths() && reg.Knows(ty)
    ensures EffectiveTypePath(ty, reg).Done?
  {
    var s := reg.GetWithShortTypePath(ty.shortPath);
    if s.Some? {
      var r := RegistrationOf(reg, ty);
      assert r.info.shortPath == ty.shortPath;
      assert s.value == r;
    }
  }

  /** The key a type is stored under leads the decoder back to that type's
      registration: what `serialize` writes, `visit_map` can read. */
  lemma {:induction false} KeyResolvesToType(reg: Registry, ty: TypeInfo)
    requires reg.Coherent() && reg.Knows(ty)
    ensures EffectiveTypePath(ty, reg).Done?
    ensures ResolveKey(reg, EffectiveTypePath(ty, reg).value) == Some(RegistrationOf(reg, ty))
  {
    KnownTypeHasKey(reg, ty);
    var k := EffectiveTypePath(ty, reg).value;
    var r := RegistrationOf(reg, ty);
    if reg.GetWithShortTypePath(ty.shortPath).Some? {
      var s := reg.GetWithShortTypePath(ty.shortPath).value;
      RegistrationOfUnique(reg, ty, s);
    } else {
      assert k == ty.fullPath;
      var s := reg.GetWithShortTypePath(k);
      if s.Some? {
        // s has short path ty.fullPath, which is r's full path: by coherence
        // r's short path is the same, so the two short lookups coincide
        assert false;
      }
    }
  }

  /** Two different registered types never share a key, so one can never
      overwrite the other's entry. */
  lemma {:induction false} DistinctTypesGetDistinctKeys(reg: Registry, a: TypeInfo, b: TypeInfo)
    requires reg.Coherent() && reg.Knows(a) && reg.Knows(b)
    requires a.fullPath != b.fullPath
    ensures EffectiveTypePath(a, reg).Done? && EffectiveTypePath(b, reg).Done?
    ensures EffectiveTypePath(a, reg).value != EffectiveTypePath(b, reg).value
  {
    KeyResolvesToType(reg, a);
    KeyResolvesToType(reg, b);
  }

  /** Once two registered types share a short path, both are keyed by their
      full paths. */
  lemma {:induction false} SharedShortPathFallsBack(reg: Registry, a: TypeInfo, b: TypeInfo)
    requires reg.DistinctFullPaths() && reg.Knows(a) && reg.Knows(b)
    requires a.shortPath == b.shortPath && a.fullPath != b.fullPath
    ensures EffectiveTypePath(a, reg) == Done(a.fullPath)
    ensures EffectiveTypePath(b, reg) == Done(b.fullPath)
  {
    var ra := RegistrationOf(reg, a);
    var rb := RegistrationOf(reg, b);
    var s := reg.GetWithShortTypePath(a.shortPath);
    if s.Some? {
      assert false;
    }
  }

  /** A type alone under its short path is keyed by it. */
  lemma {:induction false} UniqueShortPathIsKey(reg: Registry, ty: TypeInfo)
    requires reg.DistinctFullPaths() && reg.Knows(ty)
    requires forall x :: x in reg.entries && x.info.shortPath == ty.shortPath ==> x.info.fullPath == ty.fullPath
    ensures EffectiveTypePath(ty, reg) == Done(ty.shortPath)
  {
    var r := RegistrationOf(reg, ty);
    var s := reg.GetWithShortTypePath(ty.shortPath);
    if s.None? {
      AmbiguousMatchesHaveRivals(reg.entries, ty.shortPath);
      assert false;
    }
  }
}
