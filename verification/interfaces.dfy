/**
  Interface resolution: the keys a marked class is registered under, chosen by
  an explicit override, the naming convention, or the base-type difference.
 */
module Interfaces {
  import opened Wrappers
  import opened Descriptors
  import Linq

  /** The interface name the convention looks for on class `t`: "I" followed by its short name. */
  function ConventionName(t: ClassType): string {
    "I" + t.name
  }

  /** True when interface `i` is the one the naming convention picks out for `t`. */
  predicate FollowsConvention(t: ClassType, i: InterfaceType) {
    i.name == ConventionName(t)
  }

  /**
    The interfaces class `t` is registered under, given the service type its
    marker names (`declaredInterface`), tried in order: the override; the first
    interface following the naming convention; every interface when there is no
    base type; else the interfaces the base type does not have (LINQ `Except`).
   */
  function DirectDeclaredInterfaces(t: ClassType, declaredInterface: Option<InterfaceType>): (r: seq<InterfaceType>)
    ensures declaredInterface.Some? ==> r == [declaredInterface.value]
    ensures declaredInterface.None? ==> forall i :: i in r ==> i in t.interfaces
    ensures declaredInterface.None? ==> |r| <= |t.interfaces|
  {
    if declaredInterface.Some? then [declaredInterface.value]
    else
      match Linq.FirstWhere(t.interfaces, (i: InterfaceType) => FollowsConvention(t, i))
      case Some(i) => [i]
      case None =>
        match t.baseType
        case None => t.interfaces
        case Some(b) =>
          Linq.ExceptSpec(t.interfaces, b.interfaces);
          Linq.DistinctSubsetLength(Linq.Except(t.interfaces, b.interfaces), t.interfaces);
          Linq.Except(t.interfaces, b.interfaces)
  }

  /** An explicit service type wins, whatever interfaces the class implements. */
  lemma ExplicitOverrideWins(t: ClassType, declared: InterfaceType)
    ensures forall t' :: DirectDeclaredInterfaces(t', Some(declared)) == DirectDeclaredInterfaces(t, Some(declared))
  {
  }

  /**
    Without an override, the first interface that follows the naming convention
    is the only key, even when the class implements others.
   */
  lemma NameConventionWins(t: ClassType, k: nat)
    requires k < |t.interfaces| && FollowsConvention(t, t.interfaces[k])
    requires forall j :: 0 <= j < k ==> !FollowsConvention(t, t.interfaces[j])
    ensures DirectDeclaredInterfaces(t, None) == [t.interfaces[k]]
  {
  }

  /** True when no interface of `t` follows the naming convention. */
  predicate NoConventionMatch(t: ClassType) {
    forall j :: 0 <= j < |t.interfaces| ==> !FollowsConvention(t, t.interfaces[j])
  }

  /** With no override, no convention match and no base type: every interface, as listed (maybe none). */
  lemma AllInterfacesWithoutBaseType(t: ClassType)
    requires NoConventionMatch(t) && t.baseType.None?
    ensures DirectDeclaredInterfaces(t, None) == t.interfaces
  {
  }

  /**
    With no override, no convention match and a base type: the class's
    interfaces that the base type does not have, each once, in their order.
   */
  lemma InterfacesNotOnBaseType(t: ClassType)
    requires NoConventionMatch(t) && t.baseType.Some?
    ensures var r := DirectDeclaredInterfaces(t, None);
      && (forall i :: i in r <==> i in t.interfaces && i !in t.baseType.value.interfaces)
      && Linq.Distinct(r)
      && (forall a, b :: 0 <= a < b < |r| ==> Linq.IndexOf(t.interfaces, r[a]) < Linq.IndexOf(t.interfaces, r[b]))
  {
    Linq.ExceptSpec(t.interfaces, t.baseType.value.interfaces);
  }

  /**
    The documented caveat: an interface the base type also has is dropped, so a
    derived class that adds no interface of its own resolves to no key at all.
   */
  lemma DerivedTypeAddingNothingResolvesToNone(t: ClassType)
    requires NoConventionMatch(t) && t.baseType.Some?
    requires forall i :: i in t.interfaces ==> i in t.baseType.value.interfaces
    ensures DirectDeclaredInterfaces(t, None) == []
  {
    Linq.ExceptOfContained(t.interfaces, t.baseType.value.interfaces);
  }

  /**
    Types are told apart by their defining assembly as well as their full name:
    an interface of the class is kept when every interface of the base type comes
    from another assembly, even one with the same full name.
   */
  lemma InterfaceFromOtherAssemblyIsKept(t: ClassType, i: InterfaceType)
    requires NoConventionMatch(t) && t.baseType.Some? && i in t.interfaces
    requires forall j :: j in t.baseType.value.interfaces ==> j.assembly != i.assembly
    ensures i in DirectDeclaredInterfaces(t, None)
  {
    InterfacesNotOnBaseType(t);
  }
}
