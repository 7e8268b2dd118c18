/**
  What the registration passes append to the service collection, stated as
  functions of the discovered classes: per class, per lifetime pass, and for a
  whole call. The imperative passes in `Registrar` are proved against these.
 */
module Emission {
  import opened Wrappers
  import opened Descriptors
  import opened Interfaces
  import Linq

  /** True of a service entry that constructs class `t` itself. */
  predicate IsDirect(e: Entry, t: ClassType) {
    e.Service? && e.impl == Type(t)
  }

  /** True of a service entry whose factory forwards to another registration. */
  predicate IsForwarding(e: Entry) {
    e.Service? && e.impl.Forward?
  }

  /** How many entries construct class `t` itself. */
  function CountDirect(entries: seq<Entry>, t: ClassType): nat {
    if entries == [] then 0
    else (if IsDirect(entries[0], t) then 1 else 0) + CountDirect(entries[1..], t)
  }

  /**
    The entries for class `t`, resolved to `interfaces`, under lifetime `life`:
    with no interface, one entry keyed by the class itself; otherwise one entry
    per interface, in order, where the first constructs the class and, for
    Scoped and Singleton, each later one forwards to the first interface.
   */
  function EntriesFor(t: ClassType, interfaces: seq<InterfaceType>, life: Lifetime): (r: seq<Entry>)
    ensures r != [] && forall k :: 0 <= k < |r| ==> r[k].Service? && r[k].life == life
    ensures interfaces != [] ==> |r| == |interfaces|
    ensures interfaces != [] ==> forall k :: 0 <= k < |r| ==> r[k].key == Iface(interfaces[k])
    ensures r[0].impl == Type(t)
  {
    if interfaces == [] then [Service(Concrete(t), Type(t), life)]
    else seq(|interfaces|, k requires 0 <= k < |interfaces| =>
           Service(Iface(interfaces[k]),
                   if k == 0 || life == Transient then Type(t) else Forward(interfaces[0]),
                   life))
  }

  lemma {:induction false} CountDirectNone(entries: seq<Entry>, t: ClassType)
    requires forall k :: 0 <= k < |entries| ==> !IsDirect(entries[k], t)
    ensures CountDirect(entries, t) == 0
  {
    if entries != [] {
      CountDirectNone(entries[1..], t);
    }
  }

  lemma {:induction false} CountDirectAll(entries: seq<Entry>, t: ClassType)
    requires forall k :: 0 <= k < |entries| ==> IsDirect(entries[k], t)
    ensures CountDirect(entries, t) == |entries|
  {
    if entries != [] {
      CountDirectAll(entries[1..], t);
    }
  }

  /**
    Scoped and Singleton with N >= 1 interfaces: N entries keyed by the
    interfaces in order, all of the lifetime; exactly one, the first, constructs
    the class, and every other one forwards to the first interface.
   */
  lemma SharedLifetimeEmission(t: ClassType, interfaces: seq<InterfaceType>, life: Lifetime)
    requires life != Transient && interfaces != []
    ensures var r := EntriesFor(t, interfaces, life);
      && |r| == |interfaces|
      && (forall k :: 0 <= k < |r| ==> r[k].Service? && r[k].key == Iface(interfaces[k]) && r[k].life == life)
      && IsDirect(r[0], t) && CountDirect(r, t) == 1
      && (forall k :: 0 < k < |r| ==> r[k].impl == Forward(interfaces[0]))
  {
    var r := EntriesFor(t, interfaces, life);
    CountDirectNone(r[1..], t);
  }

  /**
    Transient with N >= 1 interfaces: N entries keyed by the interfaces in
    order, every one constructing the class, none forwarding.
   */
  lemma TransientEmission(t: ClassType, interfaces: seq<InterfaceType>)
    requires interfaces != []
    ensures var r := EntriesFor(t, interfaces, Transient);
      && |r| == |interfaces|
      && (forall k :: 0 <= k < |r| ==> r[k].Service? && r[k].key == Iface(interfaces[k]) && r[k].life == Transient)
      && CountDirect(r, t) == |interfaces|
      && (forall k :: 0 <= k < |r| ==> !IsForwarding(r[k]))
  {
    CountDirectAll(EntriesFor(t, interfaces, Transient), t);
  }

  /**
    The entries one lifetime pass appends for class `t`: none without a marker
    of that lifetime, else the emission for its resolved interfaces.
   */
  function ServiceStep(t: ClassType, life: Lifetime): (r: seq<Entry>)
    ensures ServiceMarker(t, life).None? <==> r == []
    ensures forall e :: e in r ==> e.Service? && e.life == life &&
                                   (e.impl.Type? ==> e.impl.implementation == t) &&
                                   (e.key.Concrete? ==> e.key.concrete == t)
    ensures r != [] ==> IsDirect(r[0], t)
  {
    match ServiceMarker(t, life)
    case None => []
    case Some(declaredInterface) => EntriesFor(t, DirectDeclaredInterfaces(t, declaredInterface), life)
  }

  /**
    A class whose interfaces resolve to none gets exactly one entry, keyed by
    the class itself, constructing it, with the lifetime of its marker.
   */
  lemma ZeroInterfacesRegistersConcrete(t: ClassType, life: Lifetime, declared: Option<InterfaceType>)
    requires WellFormed(t) && ServiceMarkerOf(life, declared) in t.markers
    requires DirectDeclaredInterfaces(t, declared) == []
    ensures ServiceStep(t, life) == [Service(Concrete(t), Type(t), life)]
  {
    ServiceMarkerUnique(t, life, declared);
  }

  /** The section a configuration class binds to: the marker's name if given, else the class's short name. */
  function SectionName(t: ClassType): (r: string)
    ensures r == t.name || ConfigurationMarker(Some(r)) in t.markers
  {
    match ConfigurationMarkerOf(t)
    case Some(Some(sectionName)) => sectionName
    case _ => t.name
  }

  lemma SectionNameChoice(t: ClassType, sectionName: Option<string>)
    requires WellFormed(t) && ConfigurationMarker(sectionName) in t.markers
    ensures sectionName.Some? ==> SectionName(t) == sectionName.value
    ensures sectionName.None? ==> SectionName(t) == t.name
  {
    ConfigurationMarkerUnique(t, sectionName);
  }

  /** The `Configure<T>` call the configuration pass records for class `t`, if it is a configuration class. */
  function ConfigurationStep(t: ClassType): (r: seq<Entry>)
    ensures ConfigurationMarkerOf(t).None? <==> r == []
    ensures forall e :: e in r ==> e == Options(t, SectionName(t))
    ensures |r| <= 1
  {
    match ConfigurationMarkerOf(t)
    case None => []
    case Some(_) => [Options(t, SectionName(t))]
  }

  /** A pass over the discovered classes: the steps of the classes, one after another. */
  function Pass(types: seq<ClassType>, step: ClassType -> seq<Entry>): seq<Entry> {
    if types == [] then [] else Pass(types[..|types| - 1], step) + step(types[|types| - 1])
  }

  function StepFor(life: Lifetime): ClassType -> seq<Entry> {
    (u: ClassType) => ServiceStep(u, life)
  }

  function MarkedFor(life: Lifetime): ClassType -> bool {
    (u: ClassType) => ServiceMarker(u, life).Some?
  }

  /** The entries `RegisterScopedServices` (or its Transient / Singleton sibling) appends. */
  function ServicePass(types: seq<ClassType>, life: Lifetime): seq<Entry> {
    Pass(types, StepFor(life))
  }

  /** The `Configure<T>` calls `RegisterConfigurations` records. */
  function ConfigurationPass(types: seq<ClassType>): seq<Entry> {
    Pass(types, ConfigurationStep)
  }

  /** Everything one call appends: the Scoped, Transient, Singleton and Configuration passes, in that order. */
  function Registration(types: seq<ClassType>): seq<Entry> {
    ServicePass(types, Scoped) + ServicePass(types, Transient) + ServicePass(types, Singleton) + ConfigurationPass(types)
  }

  lemma {:induction false} PassConcat(a: seq<ClassType>, b: seq<ClassType>, step: ClassType -> seq<Entry>)
    ensures Pass(a + b, step) == Pass(a, step) + Pass(b, step)
    decreases |b|
  {
    if b == [] {
      assert a + b == a;
    } else {
      var b' := b[..|b| - 1];
      assert (a + b)[..|a + b| - 1] == a + b';
      assert (a + b)[|a + b| - 1] == b[|b| - 1];
      PassConcat(a, b', step);
    }
  }

  /** A lifetime pass over one more class appends that class's step. */
  lemma ServicePassSnoc(types: seq<ClassType>, i: nat, life: Lifetime)
    requires i < |types|
    ensures ServicePass(types[..i + 1], life) == ServicePass(types[..i], life) + ServiceStep(types[i], life)
  {
    assert types[..i + 1][..i] == types[..i];
  }

  /** The configuration pass over one more class appends that class's step. */
  lemma ConfigurationPassSnoc(types: seq<ClassType>, i: nat)
    requires i < |types|
    ensures ConfigurationPass(types[..i + 1]) == ConfigurationPass(types[..i]) + ConfigurationStep(types[i])
  {
    assert types[..i + 1][..i] == types[..i];
  }

  /** A pass depends only on the classes whose step is not empty. */
  lemma {:induction false} PassFilter(types: seq<ClassType>, step: ClassType -> seq<Entry>, p: ClassType -> bool)
    requires forall u :: !p(u) ==> step(u) == []
    ensures Pass(Linq.Filter(types, p), step) == Pass(types, step)
  {
    if types != [] {
      var head := if p(types[0]) then [types[0]] else [];
      assert types == [types[0]] + types[1..];
      PassFilter(types[1..], step, p);
      PassConcat(head, Linq.Filter(types[1..], p), step);
      PassConcat([types[0]], types[1..], step);
      assert Pass([types[0]], step) == step(types[0]) by {
        assert [types[0]][..0] == [];
      }
      assert Pass(head, step) == Pass([types[0]], step);
    }
  }

  /** Every entry of a pass comes from the step of one of its classes. */
  lemma {:induction false} PassOrigin(types: seq<ClassType>, step: ClassType -> seq<Entry>)
    ensures forall e :: e in Pass(types, step) ==> exists u :: u in types && e in step(u)
  {
    if types != [] {
      var init := types[..|types| - 1];
      PassOrigin(init, step);
      assert forall u :: u in init ==> u in types;
    }
  }

  /** Every entry of a class's step is in the pass. */
  lemma {:induction false} StepInPass(types: seq<ClassType>, step: ClassType -> seq<Entry>, u: ClassType)
    requires u in types
    ensures forall e :: e in step(u) ==> e in Pass(types, step)
  {
    var init := types[..|types| - 1];
    if types[|types| - 1] != u {
      assert u in init;
      StepInPass(init, step, u);
    }
  }

  /** A pass appends nothing when every class's step is empty. */
  lemma {:induction false} PassEmpty(types: seq<ClassType>, step: ClassType -> seq<Entry>)
    requires forall u :: u in types ==> step(u) == []
    ensures Pass(types, step) == []
  {
    if types != [] {
      var init := types[..|types| - 1];
      assert forall u :: u in init ==> u in types;
      assert types[|types| - 1] in types;
      PassEmpty(init, step);
    }
  }

  /** Each lifetime pass touches only the classes carrying that lifetime's marker. */
  lemma ServicePassOnlyMarked(types: seq<ClassType>, life: Lifetime)
    ensures ServicePass(Linq.Filter(types, MarkedFor(life)), life) == ServicePass(types, life)
    ensures forall e :: e in ServicePass(types, life) ==> e.Service? && e.life == life
  {
    PassFilter(types, StepFor(life), MarkedFor(life));
    PassOrigin(types, StepFor(life));
  }

  /** True when entry `e` names class `t`: as its key, as what it constructs, or as the options it binds. */
  predicate Mentions(e: Entry, t: ClassType) {
    match e
    case Service(key, impl, _) => key == Concrete(t) || impl == Type(t)
    case Options(options, _) => options == t
  }

  /** An entry of a lifetime pass names only a discovered class carrying that lifetime's marker. */
  lemma ServicePassMentions(types: seq<ClassType>, life: Lifetime, e: Entry, t: ClassType)
    requires e in ServicePass(types, life) && Mentions(e, t)
    ensures t in types && ServiceMarker(t, life).Some?
  {
    PassOrigin(types, StepFor(life));
    var u :| u in types && e in ServiceStep(u, life);
    assert t == u;
  }

  /** An entry of the configuration pass names only a discovered configuration class. */
  lemma ConfigurationPassMentions(types: seq<ClassType>, e: Entry, t: ClassType)
    requires e in ConfigurationPass(types) && Mentions(e, t)
    ensures t in types && ConfigurationMarkerOf(t).Some?
  {
    PassOrigin(types, ConfigurationStep);
    var u :| u in types && e in ConfigurationStep(u);
    assert t == u;
  }

  /** A discovered class carrying a marker is named by an entry of the pass its first marker selects. */
  lemma AnnotatedIsMentioned(types: seq<ClassType>, t: ClassType) returns (e: Entry)
    requires t in types && IsAnnotated(t)
    ensures e in Registration(types) && Mentions(e, t)
  {
    var m := t.markers[0];
    if m.ConfigurationMarker? {
      StepInPass(types, ConfigurationStep, t);
      e := Options(t, SectionName(t));
      assert e in ConfigurationPass(types);
    } else {
      var life := if m.ScopedServiceMarker? then Scoped else if m.TransientServiceMarker? then Transient else Singleton;
      assert m.IsServiceMarker(life);
      StepInPass(types, StepFor(life), t);
      var r := ServiceStep(t, life);
      e := r[0];
      assert e in r;
      assert e in ServicePass(types, life);
    }
  }

  /**
    A class is named by some entry a call appends exactly when it is among the
    discovered classes and carries a marker.
   */
  lemma RegisteredIffAnnotated(types: seq<ClassType>, t: ClassType)
    ensures (exists e :: e in Registration(types) && Mentions(e, t)) <==> t in types && IsAnnotated(t)
  {
    if t in types && IsAnnotated(t) {
      var e := AnnotatedIsMentioned(types, t);
    }
    forall e | e in Registration(types) && Mentions(e, t)
      ensures t in types && IsAnnotated(t)
    {
      if e in ConfigurationPass(types) {
        ConfigurationPassMentions(types, e, t);
      } else if e in ServicePass(types, Scoped) {
        ServicePassMentions(types, Scoped, e, t);
      } else if e in ServicePass(types, Transient) {
        ServicePassMentions(types, Transient, e, t);
      } else {
        ServicePassMentions(types, Singleton, e, t);
      }
    }
  }

  /** A call appends nothing exactly when no discovered class carries a marker. */
  lemma RegistrationEmptyIffNoneAnnotated(types: seq<ClassType>)
    ensures Registration(types) == [] <==> forall t :: t in types ==> !IsAnnotated(t)
  {
    if forall t :: t in types ==> !IsAnnotated(t) {
      forall life: Lifetime {
        PassEmpty(types, StepFor(life));
      }
      PassEmpty(types, ConfigurationStep);
    } else {
      var t :| t in types && IsAnnotated(t);
      RegisteredIffAnnotated(types, t);
    }
  }

  /**
    Registering twice is not idempotent: the second call appends the same
    entries again after the first call's, and the collection changes unless
    nothing was discovered.
   */
  lemma RepeatedRegistration(before: seq<Entry>, types: seq<ClassType>)
    ensures var once := before + Registration(types);
            var twice := once + Registration(types);
      && twice[..|once|] == once
      && twice[|once|..] == once[|before|..]
      && (twice == once <==> forall t :: t in types ==> !IsAnnotated(t))
  {
    RegistrationEmptyIffNoneAnnotated(types);
    var once := before + Registration(types);
    assert once[|before|..] == Registration(types);
    assert (once + Registration(types))[|once|..] == Registration(types);
  }
}
