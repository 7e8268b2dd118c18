/**
  Discovery: the marked classes exported by the assemblies that reference the
  registrar's own assembly. The list of loaded assemblies is a parameter.
 */
module Discovery {
  import opened Descriptors
  import Linq

  /** True when assembly `a` references the assembly whose full name is `self`. */
  predicate ReferencesSelf(a: Assembly, self: string) {
    self in a.referencedAssemblies
  }

  /** The loaded assemblies that reference `self`, in their order. */
  function ReferringAssemblies(assemblies: seq<Assembly>, self: string): (r: seq<Assembly>)
    ensures forall a :: a in r <==> a in assemblies && ReferencesSelf(a, self)
  {
    Linq.FilterMembership(assemblies, (a: Assembly) => ReferencesSelf(a, self));
    Linq.Filter(assemblies, (a: Assembly) => ReferencesSelf(a, self))
  }

  /** The exported types of the given assemblies, assembly after assembly. */
  function ExportedTypes(assemblies: seq<Assembly>): (r: seq<ClassType>)
    ensures forall t :: t in r <==> exists a :: a in assemblies && t in a.exportedTypes
  {
    var parts := seq(|assemblies|, k requires 0 <= k < |assemblies| => assemblies[k].exportedTypes);
    Linq.FlattenMembership(parts);
    forall t, a | a in assemblies && t in a.exportedTypes
      ensures exists k :: 0 <= k < |parts| && t in parts[k]
    {
      var k :| 0 <= k < |assemblies| && assemblies[k] == a;
      assert t in parts[k];
    }
    forall t, k | 0 <= k < |parts| && t in parts[k]
      ensures exists a :: a in assemblies && t in a.exportedTypes
    {
      assert assemblies[k] in assemblies;
    }
    Linq.Flatten(parts)
  }

  /**
    `GetAnnotatedTypes`: the exported types of the referring assemblies that
    carry at least one of the four markers.
   */
  function GetAnnotatedTypes(assemblies: seq<Assembly>, self: string): (r: seq<ClassType>)
    ensures forall t :: t in r ==> IsAnnotated(t)
  {
    Linq.FilterMembership(ExportedTypes(ReferringAssemblies(assemblies, self)), IsAnnotated);
    Linq.Filter(ExportedTypes(ReferringAssemblies(assemblies, self)), IsAnnotated)
  }

  /**
    A class is discovered exactly when it carries a marker and is exported by
    some loaded assembly that references `self`.
   */
  lemma DiscoveredIff(assemblies: seq<Assembly>, self: string, t: ClassType)
    ensures t in GetAnnotatedTypes(assemblies, self) <==>
            IsAnnotated(t) && exists a :: a in assemblies && ReferencesSelf(a, self) && t in a.exportedTypes
  {
    Linq.FilterMembership(ExportedTypes(ReferringAssemblies(assemblies, self)), IsAnnotated);
  }
}
