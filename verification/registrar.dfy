/**
  The registrar itself: `AddDiAutoRegistration` and its four passes, which walk
  the discovered classes and append entries to the mutable service collection.
  Each pass is proved to append exactly what `Emission` says.
 */
module Registrar {
  import opened Wrappers
  import opened Descriptors
  import opened Interfaces
  import opened Emission
  import Discovery

  /** The container's service collection: the entries added so far, in order. */
  class ServiceCollection {
    var entries: seq<Entry>

    constructor ()
      ensures entries == []
    {
      entries := [];
    }

    /** `AddScoped`, `AddTransient` and `AddSingleton` each append one entry; one `Configure<T>` call is recorded as one entry. */
    method Add(e: Entry)
      modifies this
      ensures entries == old(entries) + [e]
    {
      entries := entries + [e];
    }
  }

  lemma SeqAssoc<T>(s: seq<T>, a: seq<T>, b: seq<T>)
    ensures s + a + b == s + (a + b)
  {
  }

  lemma SeqAssoc4<T>(s: seq<T>, a: seq<T>, b: seq<T>, c: seq<T>, d: seq<T>)
    ensures s + a + b + c + d == s + (a + b + c + d)
  {
  }

  /**
    The inner loop of the Scoped and Singleton passes: the first interface is
    bound to the class, and, once `firstInterface` is set, every later one to a
    factory forwarding to it.
   */
  method AddSharingFirstInstance(services: ServiceCollection, t: ClassType, interfaces: seq<InterfaceType>, life: Lifetime)
    requires interfaces != [] && life != Transient
    modifies services
    ensures services.entries == old(services.entries) + EntriesFor(t, interfaces, life)
  {
    ghost var spec := EntriesFor(t, interfaces, life);
    var firstInterface: Option<InterfaceType> := None;
    for j := 0 to |interfaces|
      invariant firstInterface == if j == 0 then None else Some(interfaces[0])
      invariant services.entries == old(services.entries) + spec[..j]
    {
      assert spec[..j + 1] == spec[..j] + [spec[j]];
      if firstInterface.Some? {
        services.Add(Service(Iface(interfaces[j]), Forward(firstInterface.value), life));
      } else {
        services.Add(Service(Iface(interfaces[j]), Type(t), life));
        firstInterface := Some(interfaces[j]);
      }
    }
    assert spec[..|interfaces|] == spec;
  }

  /** The inner loop of the Transient pass: every interface is bound to the class. */
  method AddEachIndependently(services: ServiceCollection, t: ClassType, interfaces: seq<InterfaceType>)
    requires interfaces != []
    modifies services
    ensures services.entries == old(services.entries) + EntriesFor(t, interfaces, Transient)
  {
    ghost var spec := EntriesFor(t, interfaces, Transient);
    for j := 0 to |interfaces|
      invariant services.entries == old(services.entries) + spec[..j]
    {
      assert spec[..j + 1] == spec[..j] + [spec[j]];
      services.Add(Service(Iface(interfaces[j]), Type(t), Transient));
    }
    assert spec[..|interfaces|] == spec;
  }

  /**
    The Scoped pass: for each class with a Scoped marker, register it under its
    resolved interfaces, the first constructing it and the rest forwarding to
    the first; with no interface, under the class itself.
   */
  method RegisterScopedServices(services: ServiceCollection, types: seq<ClassType>)
    modifies services
    ensures services.entries == old(services.entries) + ServicePass(types, Scoped)
  {
    for i := 0 to |types|
      invariant services.entries == old(services.entries) + ServicePass(types[..i], Scoped)
    {
      var t := types[i];
      ghost var start := services.entries;
      ServicePassSnoc(types, i, Scoped);
      match ServiceMarker(t, Scoped) {
        case None =>
        case Some(declaredInterface) =>
          var interfaces := DirectDeclaredInterfaces(t, declaredInterface);
          assert ServiceStep(t, Scoped) == EntriesFor(t, interfaces, Scoped);
          if |interfaces| == 0 {
            services.Add(Service(Concrete(t), Type(t), Scoped));
          } else {
            AddSharingFirstInstance(services, t, interfaces, Scoped);
          }
      }
      assert services.entries == start + ServiceStep(t, Scoped);
      SeqAssoc(old(services.entries), ServicePass(types[..i], Scoped), ServiceStep(t, Scoped));
    }
    assert types[..|types|] == types;
  }

  /**
    The Transient pass: for each class with a Transient marker, one entry per
    resolved interface, each constructing the class; with no interface, one
    entry under the class itself.
   */
  method RegisterTransientServices(services: ServiceCollection, types: seq<ClassType>)
    modifies services
    ensures services.entries == old(services.entries) + ServicePass(types, Transient)
  {
    for i := 0 to |types|
      invariant services.entries == old(services.entries) + ServicePass(types[..i], Transient)
    {
      var t := types[i];
      ghost var start := services.entries;
      ServicePassSnoc(types, i, Transient);
      match ServiceMarker(t, Transient) {
        case None =>
        case Some(declaredInterface) =>
          var interfaces := DirectDeclaredInterfaces(t, declaredInterface);
          assert ServiceStep(t, Transient) == EntriesFor(t, interfaces, Transient);
          if |interfaces| == 0 {
            services.Add(Service(Concrete(t), Type(t), Transient));
          } else {
            AddEachIndependently(services, t, interfaces);
          }
      }
      assert services.entries == start + ServiceStep(t, Transient);
      SeqAssoc(old(services.entries), ServicePass(types[..i], Transient), ServiceStep(t, Transient));
    }
    assert types[..|types|] == types;
  }

  /**
    The Singleton pass: as the Scoped pass, with the Singleton marker and
    lifetime.
   */
  method RegisterSingletonServices(services: ServiceCollection, types: seq<ClassType>)
    modifies services
    ensures services.entries == old(services.entries) + ServicePass(types, Singleton)
  {
    for i := 0 to |types|
      invariant services.entries == old(services.entries) + ServicePass(types[..i], Singleton)
    {
      var t := types[i];
      ghost var start := services.entries;
      ServicePassSnoc(types, i, Singleton);
      match ServiceMarker(t, Singleton) {
        case None =>
        case Some(declaredInterface) =>
          var interfaces := DirectDeclaredInterfaces(t, declaredInterface);
          assert ServiceStep(t, Singleton) == EntriesFor(t, interfaces, Singleton);
          if |interfaces| == 0 {
            services.Add(Service(Concrete(t), Type(t), Singleton));
          } else {
            AddSharingFirstInstance(services, t, interfaces, Singleton);
          }
      }
      assert services.entries == start + ServiceStep(t, Singleton);
      SeqAssoc(old(services.entries), ServicePass(types[..i], Singleton), ServiceStep(t, Singleton));
    }
    assert types[..|types|] == types;
  }

  /**
    The configuration pass: for each class with a configuration marker, bind
    its options to the marker's section name, or to the class's short name when
    the marker names none.
   */
  method RegisterConfigurations(services: ServiceCollection, types: seq<ClassType>)
    modifies services
    ensures services.entries == old(services.entries) + ConfigurationPass(types)
  {
    for i := 0 to |types|
      invariant services.entries == old(services.entries) + ConfigurationPass(types[..i])
    {
      var t := types[i];
      ConfigurationPassSnoc(types, i);
      ghost var start := services.entries;
      match ConfigurationMarkerOf(t) {
        case None =>
        case Some(section) =>
          var sectionName := if section.Some? then section.value else t.name;
          services.Add(Options(t, sectionName));
      }
      assert services.entries == start + ConfigurationStep(t);
      SeqAssoc(old(services.entries), ConfigurationPass(types[..i]), ConfigurationStep(t));
    }
    assert types[..|types|] == types;
  }

  /**
    The entry point: discover the marked classes of the assemblies referencing
    `selfAssembly`, then run the Scoped, Transient, Singleton and Configuration
    passes in that order. The collection is only appended to.
   */
  method AddDiAutoRegistration(services: ServiceCollection, assemblies: seq<Assembly>, selfAssembly: string)
    returns (result: ServiceCollection)
    modifies services
    ensures result == services
    ensures services.entries == old(services.entries) + Registration(Discovery.GetAnnotatedTypes(assemblies, selfAssembly))
  {
    var types := Discovery.GetAnnotatedTypes(assemblies, selfAssembly);
    ghost var scoped, transient, singleton := ServicePass(types, Scoped), ServicePass(types, Transient), ServicePass(types, Singleton);
    RegisterScopedServices(services, types);
    RegisterTransientServices(services, types);
    RegisterSingletonServices(services, types);
    RegisterConfigurations(services, types);
    SeqAssoc4(old(services.entries), scoped, transient, singleton, ConfigurationPass(types));
    result := services;
  }

  /**
    End to end: a class is named by some entry of a call exactly when it
    carries a marker and is exported by a loaded assembly referencing
    `selfAssembly`; a class without markers is never registered.
   */
  lemma RegisteredIffDiscoverable(assemblies: seq<Assembly>, selfAssembly: string, t: ClassType)
    ensures (exists e :: e in Registration(Discovery.GetAnnotatedTypes(assemblies, selfAssembly)) && Mentions(e, t))
            <==> IsAnnotated(t) && exists a :: a in assemblies && Discovery.ReferencesSelf(a, selfAssembly) && t in a.exportedTypes
  {
    RegisteredIffAnnotated(Discovery.GetAnnotatedTypes(assemblies, selfAssembly), t);
    Discovery.DiscoveredIff(assemblies, selfAssembly, t);
  }
}
