# DiAutoRegistration, modelled in Dafny

DiAutoRegistration registers classes with a dependency-injection container
according to marker attributes. A class marked `[ScopedService]`,
`[TransientService]` or `[SingletonService]` is registered with that lifetime.
A class marked `[Configuration]` is bound as an options object to a
configuration section. One call, `AddDiAutoRegistration`, does four things:

1. It discovers the marked classes exported by the assemblies that reference
   the library.
2. It resolves the interfaces each service class is registered under. An
   explicit service type on the marker wins. Otherwise the first interface
   named `"I" + ClassName` wins. Otherwise, with no base type, every interface
   counts. Otherwise only the interfaces the base type lacks count (LINQ
   `Except`).
3. It appends descriptors to the service collection. A class with no resolved
   interface is registered under itself. A Scoped or Singleton class is
   registered directly under its first interface, and each later interface
   gets a factory that forwards to the first. A Transient class gets one
   independent descriptor per interface.
4. It binds each configuration class to the section the marker names, or to
   the section named after the class.

Here reflection becomes plain descriptors (`ClassType`, `InterfaceType`,
`Assembly`, `Marker`). The container's collection becomes a class
`ServiceCollection` holding a `seq<Entry>`, and each pass appends to it in a
loop.

Modules:

- `Wrappers`: the option type.
- `Descriptors`: the data model, plus the marker lookups that stand for
  `GetCustomAttribute<T>()`.
- `Linq`: `Where`, `SelectMany`, `FirstOrDefault` and `Except`, each proved
  against an independent description.
- `Interfaces`: `GetDirectDeclaredInterfaces` and its four priority rules.
- `Discovery`: `GetAnnotatedTypes`.
- `Emission`: the entries each pass must append, written as functions, plus
  the lemmas about them.
- `Registrar`: the mutable collection and the imperative passes. Each pass is
  proved to append exactly what `Emission` specifies.

The inner `foreach` over the interfaces is a method of its own. The Scoped
and Singleton passes share `AddSharingFirstInstance`, and the Transient pass
uses `AddEachIndependently`. This keeps each proof small. The statements are
the same as the source's.

The model follows the code literally in three places:

- The convention rule takes the *first* interface with the matching name
  (`FirstOrDefault`). It does not require that exactly one matches.
- The no-base-type rule tests `BaseType == null` literally. The base type is an
  `Option` in the model, with no special case for the universal root class.
- A class may carry markers of several different kinds. Each pass looks only at
  its own kind, so such a class is registered once per marker it carries.

## Model

| member | source | states |
|---|---|---|
| `Descriptors.ServiceMarker` | DiAutoRegistration/Extensions/AutomaticRegistrationExtension.cs:69-73 | no result exactly when the class has no service marker of that lifetime; otherwise the result is the service type of a marker it does carry |
| `Descriptors.ConfigurationMarkerOf` | DiAutoRegistration/Extensions/AutomaticRegistrationExtension.cs:50-59 | no result exactly when the class has no configuration marker; otherwise the result is the section-name argument of a marker it carries |
| `Descriptors.ServiceMarkerUnique` | DiAutoRegistration/Attributes/ScopedServiceAttribute.cs:5-12 | on a class with at most one marker per kind, the lookup returns exactly the service type that the class's own marker carries (None for the parameterless form) |
| `Descriptors.ConfigurationMarkerUnique` | DiAutoRegistration/Attributes/ConfigurationAttribute.cs:5-12 | on a class with at most one marker per kind, the lookup returns exactly the section name its configuration marker carries |
| `Descriptors.IsAnnotated` | DiAutoRegistration/Extensions/AutomaticRegistrationExtension.cs:39-42 | a class carries a marker if and only if one of the four attribute lookups (configuration, scoped, transient, singleton) finds something |
| `Linq.FirstWhere` | DiAutoRegistration/Extensions/AutomaticRegistrationExtension.cs:167 | `FirstOrDefault`: no result exactly when no element satisfies the predicate; otherwise the result is an element that satisfies it, and every element before it does not |
| `Linq.Except` | DiAutoRegistration/Extensions/AutomaticRegistrationExtension.cs:186 | every element of the result is in the first sequence and not in the second, every element of the first sequence that is not in the second appears in the result, and the result is no longer than the first sequence |
| `Linq.ExceptFrom` | DiAutoRegistration/Extensions/AutomaticRegistrationExtension.cs:186 | the walk behind `Except`: everything it yields is in the walked sequence and not yet seen, and it yields no more elements than it walks |
| `Linq.ExceptSpec` | DiAutoRegistration/Extensions/AutomaticRegistrationExtension.cs:186 | `Except` yields exactly the elements of the first sequence that are not in the second, each once, in order of first occurrence |
| `Linq.ExceptOfContained` | DiAutoRegistration/Extensions/AutomaticRegistrationExtension.cs:181-186 | `Except` yields nothing when every element of the first sequence is in the second |
| `Linq.Filter` | DiAutoRegistration/Extensions/AutomaticRegistrationExtension.cs:34 | `Where`: every element kept satisfies the predicate, and no more elements are kept than given |
| `Linq.FilterMembership` | DiAutoRegistration/Extensions/AutomaticRegistrationExtension.cs:34 | `Where` keeps exactly the elements that satisfy the predicate |
| `Linq.Flatten` | DiAutoRegistration/Extensions/AutomaticRegistrationExtension.cs:38 | `SelectMany`: the result is at least as long as each part, and empty when there are no parts |
| `Linq.FlattenMembership` | DiAutoRegistration/Extensions/AutomaticRegistrationExtension.cs:38 | `SelectMany` holds exactly the elements of the parts |
| `Interfaces.DirectDeclaredInterfaces` | DiAutoRegistration/Extensions/AutomaticRegistrationExtension.cs:155-187 | an explicit service type yields exactly that one key; without one, every key is an interface the class implements, and there are no more keys than interfaces |
| `Interfaces.ExplicitOverrideWins` | DiAutoRegistration/Extensions/AutomaticRegistrationExtension.cs:158-161 | with an explicit service type the result is the same for every class, whatever it implements (`DirectDeclaredInterfaces` states that it is exactly `[that type]`) |
| `Interfaces.NameConventionWins` | DiAutoRegistration/Extensions/AutomaticRegistrationExtension.cs:164-172 | with no override, if the interface at position k is the first named "I" + class name, the result is exactly that one interface |
| `Interfaces.AllInterfacesWithoutBaseType` | DiAutoRegistration/Extensions/AutomaticRegistrationExtension.cs:174-178 | with no override, no convention match and no base type, the result is the class's interface list unchanged, possibly empty |
| `Interfaces.InterfacesNotOnBaseType` | DiAutoRegistration/Extensions/AutomaticRegistrationExtension.cs:180-186 | with no override, no convention match and a base type, the result holds exactly the class's interfaces the base lacks, each once, in their original order; an interface shared with the base is dropped |
| `Interfaces.DerivedTypeAddingNothingResolvesToNone` | DiAutoRegistration/Extensions/AutomaticRegistrationExtension.cs:181-186 | a derived class whose interfaces all belong to its base resolves to no key |
| `Interfaces.InterfaceFromOtherAssemblyIsKept` | DiAutoRegistration/Extensions/AutomaticRegistrationExtension.cs:180-186 | an interface of the class stays a key when the base type's interfaces all come from other assemblies, even ones with the same full name, because types are compared by identity |
| `Discovery.ReferringAssemblies` | DiAutoRegistration/Extensions/AutomaticRegistrationExtension.cs:31-35 | exactly the loaded assemblies that reference the library's assembly |
| `Discovery.ExportedTypes` | DiAutoRegistration/Extensions/AutomaticRegistrationExtension.cs:38 | exactly the types that some of the given assemblies export |
| `Discovery.GetAnnotatedTypes` | DiAutoRegistration/Extensions/AutomaticRegistrationExtension.cs:25-44 | every discovered class carries at least one marker |
| `Discovery.DiscoveredIff` | DiAutoRegistration/Extensions/AutomaticRegistrationExtension.cs:31-43 | a class is discovered if and only if it carries a marker and is exported by a loaded assembly that references the library |
| `Emission.ServiceStep` | DiAutoRegistration/Extensions/AutomaticRegistrationExtension.cs:71-93 | a class without the pass's marker adds nothing; otherwise it adds at least one entry; every entry has the pass's lifetime; every key or implementation naming a class names this class; the first entry constructs the class |
| `Emission.EntriesFor` | DiAutoRegistration/Extensions/AutomaticRegistrationExtension.cs:76-93 | the entries of one class under one lifetime (the bodies at lines 76-93, 107-118 and 133-149): never empty, all service entries of that lifetime, the first constructs the class, and with N >= 1 interfaces there are exactly N, keyed by the interfaces in order |
| `Emission.ZeroInterfacesRegistersConcrete` | DiAutoRegistration/Extensions/AutomaticRegistrationExtension.cs:76-80 | when resolution yields no interface, the class adds exactly one entry: keyed by itself, constructing itself, with its marker's lifetime |
| `Emission.SharedLifetimeEmission` | DiAutoRegistration/Extensions/AutomaticRegistrationExtension.cs:82-93 | Scoped or Singleton with N >= 1 interfaces gives N entries keyed by the interfaces in order, all of that lifetime; exactly one entry (the first) constructs the class, and each of the others forwards to the first interface |
| `Emission.TransientEmission` | DiAutoRegistration/Extensions/AutomaticRegistrationExtension.cs:113-118 | Transient with N >= 1 interfaces gives N entries keyed by the interfaces in order; all N construct the class and none forwards |
| `Emission.SectionName` | DiAutoRegistration/Extensions/AutomaticRegistrationExtension.cs:59 | the section is either the class's short name or a section name that a configuration marker on the class gives |
| `Emission.SectionNameChoice` | DiAutoRegistration/Extensions/AutomaticRegistrationExtension.cs:59 | the section is the marker's section name when one is given, otherwise the class's short name |
| `Emission.ConfigurationStep` | DiAutoRegistration/Extensions/AutomaticRegistrationExtension.cs:56-61 | a class without a configuration marker adds nothing; a configuration class adds exactly one record of a `Configure<T>` call, to its section |
| `Emission.ServicePassOnlyMarked` | DiAutoRegistration/Extensions/AutomaticRegistrationExtension.cs:69 | a lifetime pass appends the same entries when run over only the classes that carry its marker; every entry it appends has its lifetime |
| `Emission.RegisteredIffAnnotated` | DiAutoRegistration/Extensions/AutomaticRegistrationExtension.cs:13-18 | some appended entry names a class if and only if the class was discovered and carries a marker |
| `Emission.RegistrationEmptyIffNoneAnnotated` | DiAutoRegistration/Extensions/AutomaticRegistrationExtension.cs:13-18 | a call appends nothing if and only if no discovered class carries a marker |
| `Emission.RepeatedRegistration` | DiAutoRegistration/Extensions/AutomaticRegistrationExtension.cs:10-21 | a second call keeps the first call's collection as a prefix and appends the same model entries again; it leaves the collection unchanged only when nothing carries a marker |
| `Registrar.ServiceCollection.Add` | DiAutoRegistration/Extensions/AutomaticRegistrationExtension.cs:78 | `AddScoped` and its siblings append one entry and change nothing else |
| `Registrar.AddSharingFirstInstance` | DiAutoRegistration/Extensions/AutomaticRegistrationExtension.cs:82-93 | the inner loop, which tracks the first interface in a variable, appends exactly the shared-instance entries for the class's interfaces (characterised by `Emission.SharedLifetimeEmission`) |
| `Registrar.AddEachIndependently` | DiAutoRegistration/Extensions/AutomaticRegistrationExtension.cs:113-118 | the inner loop appends exactly one entry per interface, each constructing the class (characterised by `Emission.TransientEmission`) |
| `Registrar.RegisterScopedServices` | DiAutoRegistration/Extensions/AutomaticRegistrationExtension.cs:67-97 | the loop over the discovered classes appends exactly the Scoped pass after the existing entries |
| `Registrar.RegisterTransientServices` | DiAutoRegistration/Extensions/AutomaticRegistrationExtension.cs:98-122 | the loop appends exactly the Transient pass after the existing entries |
| `Registrar.RegisterSingletonServices` | DiAutoRegistration/Extensions/AutomaticRegistrationExtension.cs:124-153 | the loop over the discovered classes appends exactly the Singleton pass after the existing entries |
| `Registrar.RegisterConfigurations` | DiAutoRegistration/Extensions/AutomaticRegistrationExtension.cs:46-65 | the loop appends exactly one `Configure<T>` record per configuration class, to the section `SectionName ?? Name`, after the existing entries |
| `Registrar.AddDiAutoRegistration` | DiAutoRegistration/Extensions/AutomaticRegistrationExtension.cs:10-21 | returns the same collection; the existing entries are kept in place; the Scoped, Transient, Singleton and Configuration passes over the discovered classes follow, in that order |
| `Registrar.RegisteredIffDiscoverable` | DiAutoRegistration/Extensions/AutomaticRegistrationExtension.cs:25-44 | end to end: some entry names a class if and only if the class carries a marker and is exported by an assembly that references the library; an unmarked class is never registered |

## Left out

- Assembly scanning (`AppDomain.CurrentDomain.GetAssemblies()`, `GetReferencedAssemblies()`, `GetExportedTypes()`) is runtime reflection. The model takes the loaded assemblies and the library's own assembly name as parameters.
- Options binding (`GetSection`, and `Configure<T>` called through `MakeGenericMethod(...).Invoke`) calls into foreign code. The model records each call as one `Options(class, section)` entry. The descriptors the call really adds are not modelled: its two per-type descriptors, and the shared options descriptors that `AddOptions()` adds once with `TryAdd`. So `RepeatedRegistration` speaks of the model's entries; a real second call would not add the shared descriptors again. The configuration source is not modelled. The model assumes the reflective lookup of `Configure` succeeds, so the `configure?.` null case is not modelled.
- Container resolution (`BuildServiceProvider`, `GetService`, caching instances per scope or per process) belongs to the host container. The model stops at the shape of the collection. A forwarding factory appears only as `Forward(firstInterface)`. "Same instance" and "last registration wins" are not modelled.
- Type identity is modelled as the pair of the defining assembly's full name and the type's full name, compared as values. The CLR compares `Type` objects by runtime identity, so two types with equal names from the same assembly loaded twice (in separate load contexts) are merged by the model.
- .NET does not promise an order for `GetInterfaces()`. The model uses the order of the class descriptor's interface list.
- The CLR type system is not modelled. The base type is an `Option`, and the model branches on it exactly where the code checks `BaseType == null`.
- The source accepts any `Type` as the service type of a marker. The model takes an interface descriptor.
- The compiler enforces `AttributeUsage(AllowMultiple = false)`. The model states it as `WellFormed`, which allows at most one marker per kind. The lookups return the first marker of a kind. With duplicates, `GetCustomAttribute` would throw instead, but duplicates cannot occur.
- The private `Register*` helpers return the collection so that calls can be chained. Only `AddDiAutoRegistration` models that return value.
- Test classes and fixtures are evidence for the lemmas above. They are not part of the model.
