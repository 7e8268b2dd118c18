/**
  The data the registrar works on, with reflection replaced by plain descriptors:
  the types it inspects, the marker attributes they carry, the assemblies they come
  from, and the entries it adds to the service collection.
 */
module Descriptors {
  import opened Wrappers
  import Linq

  /**
    An interface type: the full name of the assembly that defines it and its own
    full name, which together identify it, and its short name.
   */
  datatype InterfaceType = InterfaceType(assembly: string, fullName: string, name: string)

  /** The three service lifetimes of the container. */
  datatype Lifetime = Transient | Scoped | Singleton

  /**
    A marker attribute with its constructor argument; `None` is what the
    parameterless constructor passes on (a null section name or service type).
   */
  datatype Marker =
    | ConfigurationMarker(sectionName: Option<string>)
    | ScopedServiceMarker(typeOfService: Option<InterfaceType>)
    | TransientServiceMarker(typeOfService: Option<InterfaceType>)
    | SingletonServiceMarker(typeOfService: Option<InterfaceType>)
  {
    /** True of the service marker that asks for lifetime `life`. */
    predicate IsServiceMarker(life: Lifetime) {
      match this
      case ConfigurationMarker(_) => false
      case ScopedServiceMarker(_) => life == Scoped
      case TransientServiceMarker(_) => life == Transient
      case SingletonServiceMarker(_) => life == Singleton
    }

    /** The kind of the marker, so that "one of each kind" can be stated. */
    function Kind(): nat {
      match this
      case ConfigurationMarker(_) => 0
      case ScopedServiceMarker(_) => 1
      case TransientServiceMarker(_) => 2
      case SingletonServiceMarker(_) => 3
    }
  }

  /** The service marker of lifetime `life` with the given service type. */
  function ServiceMarkerOf(life: Lifetime, typeOfService: Option<InterfaceType>): (m: Marker)
    ensures m.IsServiceMarker(life) && m.typeOfService == typeOfService
  {
    match life
    case Scoped => ScopedServiceMarker(typeOfService)
    case Transient => TransientServiceMarker(typeOfService)
    case Singleton => SingletonServiceMarker(typeOfService)
  }

  /**
    A class as reflection shows it: its defining assembly's full name, its own
    full name, its short name, every
    interface `GetInterfaces()` reports (inherited ones included), its base
    type if it has one, and the marker attributes declared on it.
   */
  datatype ClassType = ClassType(
    assembly: string,
    fullName: string,
    name: string,
    interfaces: seq<InterfaceType>,
    baseType: Option<ClassType>,
    markers: seq<Marker>)

  /**
    Each marker attribute allows at most one use per class, so a class carries
    at most one marker of each kind.
   */
  predicate WellFormed(t: ClassType) {
    forall i, j :: 0 <= i < j < |t.markers| ==> t.markers[i].Kind() != t.markers[j].Kind()
  }

  /**
    `GetCustomAttribute<ScopedServiceAttribute>()` and its two siblings: the
    service-type argument of the class's service marker of lifetime `life`, or
    `None` when the class carries no such marker.
   */
  function ServiceMarker(t: ClassType, life: Lifetime): (r: Option<Option<InterfaceType>>)
    ensures r.None? <==> forall i :: 0 <= i < |t.markers| ==> !t.markers[i].IsServiceMarker(life)
    ensures r.Some? ==> ServiceMarkerOf(life, r.value) in t.markers
  {
    match Linq.FirstWhere(t.markers, (m: Marker) => m.IsServiceMarker(life))
    case None => None
    case Some(m) => Some(m.typeOfService)
  }

  /**
    `GetCustomAttribute<ConfigurationAttribute>()`: the section-name argument of
    the class's configuration marker, or `None` when it carries none.
   */
  function ConfigurationMarkerOf(t: ClassType): (r: Option<Option<string>>)
    ensures r.None? <==> forall i :: 0 <= i < |t.markers| ==> !t.markers[i].ConfigurationMarker?
    ensures r.Some? ==> ConfigurationMarker(r.value) in t.markers
  {
    match Linq.FirstWhere(t.markers, (m: Marker) => m.ConfigurationMarker?)
    case None => None
    case Some(m) => Some(m.sectionName)
  }

  /** On a well-formed class the lookup finds the one service marker it carries. */
  lemma ServiceMarkerUnique(t: ClassType, life: Lifetime, typeOfService: Option<InterfaceType>)
    requires WellFormed(t) && ServiceMarkerOf(life, typeOfService) in t.markers
    ensures ServiceMarker(t, life) == Some(typeOfService)
  {
    var i :| 0 <= i < |t.markers| && t.markers[i] == ServiceMarkerOf(life, typeOfService);
    var r := ServiceMarker(t, life);
    var j :| 0 <= j < |t.markers| && t.markers[j] == ServiceMarkerOf(life, r.value);
    assert t.markers[i].Kind() == t.markers[j].Kind();
    assert i == j;
  }

  /** On a well-formed class the lookup finds the one configuration marker it carries. */
  lemma ConfigurationMarkerUnique(t: ClassType, sectionName: Option<string>)
    requires WellFormed(t) && ConfigurationMarker(sectionName) in t.markers
    ensures ConfigurationMarkerOf(t) == Some(sectionName)
  {
    var i :| 0 <= i < |t.markers| && t.markers[i] == ConfigurationMarker(sectionName);
    var r := ConfigurationMarkerOf(t);
    var j :| 0 <= j < |t.markers| && t.markers[j] == ConfigurationMarker(r.value);
    assert t.markers[i].Kind() == t.markers[j].Kind();
    assert i == j;
  }

  /**
    True when the class carries at least one of the four markers, which is the
    same as one of the four attribute lookups finding something.
   */
  function IsAnnotated(t: ClassType): (r: bool)
    ensures r <==> ConfigurationMarkerOf(t).Some? || ServiceMarker(t, Scoped).Some? ||
                   ServiceMarker(t, Transient).Some? || ServiceMarker(t, Singleton).Some?
  {
    t.markers != []
  }

  /** An assembly: its full name, the full names it references, its exported types. */
  datatype Assembly = Assembly(
    fullName: string,
    referencedAssemblies: seq<string>,
    exportedTypes: seq<ClassType>)

  /** What a registration is keyed by: the class itself or one of its interfaces. */
  datatype ServiceKey = Concrete(concrete: ClassType) | Iface(iface: InterfaceType)

  /**
    How a registration is satisfied: by constructing the class, or by a factory
    that asks the container for the service registered under another interface.
   */
  datatype Implementation = Type(implementation: ClassType) | Forward(target: InterfaceType)

  /**
    An entry of the service collection: a service descriptor, or a record of one
    `Configure<T>` call for a configuration class and its section.
   */
  datatype Entry =
    | Service(key: ServiceKey, impl: Implementation, life: Lifetime)
    | Options(options: ClassType, section: string)
}
