/** The container and its registration entries as objects. `Container` keeps
    the registry (`serviceRegistrations`, which an add reassigns to the old
    sequence with the new entry at its end) and the one-way phase flag; each
    `ServiceRegistration` keeps its singleton cache. Both live in one module
    because resolution goes back and forth between them: an entry calls its
    factory, the factory calls back into the container through its resolver.
    Every method is proved to compute the function of `Semantics` that
    describes it. */
module Ioc {
  import opened Services
  import Messages
  import Semantics

  /** The callback handed to `ServiceRegistration.Resolve`: nothing (the
      source's falsy `serviceResolver`), or one of the owner's two bound
      methods, `Resolve` or (when `singletonOnly`) `ResolveSingleton`. */
  datatype Resolver = Missing | Bound(owner: Container, singletonOnly: bool)

  function KindOf(resolver: Resolver): (k: Semantics.ResolverKind)
    ensures k == Semantics.Missing <==> resolver.Missing?
    ensures k == Semantics.SingletonOnly <==> resolver.Bound? && resolver.singletonOnly
  {
    match resolver
    case Missing => Semantics.Missing
    case Bound(_, singletonOnly) => if singletonOnly then Semantics.SingletonOnly else Semantics.General
  }

  /** The fixed parts of a sequence of registrations. */
  function EntriesOf(rs: seq<ServiceRegistration>): (es: seq<Semantics.Entry>)
    ensures |es| == |rs|
    ensures forall i :: 0 <= i < |rs| ==> es[i] == rs[i].Entry()
  {
    if rs == [] then [] else EntriesOf(rs[..|rs| - 1]) + [rs[|rs| - 1].Entry()]
  }

  /** The singleton caches of a sequence of registrations. */
  ghost function CachesOf(rs: seq<ServiceRegistration>): (cs: seq<Option<Instance>>)
    reads rs
    ensures |cs| == |rs|
    ensures forall i :: 0 <= i < |rs| ==> cs[i] == rs[i].singletonInstance
  {
    if rs == [] then [] else CachesOf(rs[..|rs| - 1]) + [rs[|rs| - 1].singletonInstance]
  }

  class ServiceRegistration {
    /** The key the entry is registered for (`type` in the source). */
    const key: Key
    const factory: Recipe
    const lifetime: Lifetime
    var singletonInstance: Option<Instance>

    constructor (key: Key, factory: Recipe, lifetime: Lifetime)
      ensures this.key == key && this.factory == factory && this.lifetime == lifetime
      ensures singletonInstance == None
    {
      this.key := key;
      this.factory := factory;
      this.lifetime := lifetime;
      singletonInstance := None;
    }

    function Entry(): Semantics.Entry {
      Semantics.Entry(key, factory, lifetime)
    }

    /** `resolve(serviceResolver)`. `index` is this entry's position in its
        owner's registry and `rank` witnesses that the registry is acyclic;
        both are ghost. */
    method Resolve(resolver: Resolver, ghost index: nat, ghost rank: Key -> nat) returns (r: Result<Instance>)
      requires resolver.Bound? ==> resolver.owner.Belongs(this, index, rank)
      modifies this, if resolver.Bound? then resolver.owner.Repr() else {}
      ensures resolver.Missing? ==> r == Err(Messages.ResolverRequired) && singletonInstance == old(singletonInstance)
      ensures resolver.Bound? ==> resolver.owner.Valid() && resolver.owner.Same(old(resolver.owner.registrations), old(resolver.owner.hasBegunResolution))
      ensures resolver.Bound? ==>
        (r, resolver.owner.State())
        == Semantics.EntryResolve(resolver.owner.Regs(), old(resolver.owner.State()), resolver.owner.hasBegunResolution,
                                  index, KindOf(resolver), rank)
      decreases rank(key), 1
    {
      if resolver.Missing? {
        return Err(Messages.ResolverRequired);
      }
      var owner := resolver.owner;
      if lifetime == Singleton {
        if singletonInstance.None? {
          var made := CallFactory(resolver, index, rank);
          if made.Err? {
            return made;
          }
          ghost var before := owner.State();
          singletonInstance := Some(made.value);
          owner.CachesAfterFill(index, before);
        }
        return Ok(singletonInstance.value);
      }
      r := CallFactory(resolver, index, rank);
    }

    /** `this.factory(serviceResolver)`: obtain the dependencies, then
        finish. */
    method CallFactory(resolver: Resolver, ghost index: nat, ghost rank: Key -> nat) returns (r: Result<Instance>)
      requires resolver.Bound? && resolver.owner.Belongs(this, index, rank)
      modifies resolver.owner.Repr()
      ensures resolver.owner.Valid() && resolver.owner.Same(old(resolver.owner.registrations), old(resolver.owner.hasBegunResolution))
      ensures (r, resolver.owner.State())
        == Semantics.CallFactory(resolver.owner.Regs(), old(resolver.owner.State()), resolver.owner.hasBegunResolution,
                                 index, KindOf(resolver), 0, [], rank)
      decreases rank(key), 0, 1
    {
      var got := Gather(resolver, index, rank);
      if got.Err? {
        return Err(got.message);
      }
      r := resolver.owner.Finish(factory.outcome, got.value);
    }

    /** The factory's requests, made in order through the resolver; the
        first error aborts the factory. */
    method Gather(resolver: Resolver, ghost index: nat, ghost rank: Key -> nat) returns (r: Result<seq<Instance>>)
      requires resolver.Bound? && resolver.owner.Belongs(this, index, rank)
      modifies resolver.owner.Repr()
      ensures resolver.owner.Valid() && resolver.owner.Same(old(resolver.owner.registrations), old(resolver.owner.hasBegunResolution))
      ensures r.Err? ==>
        (Err(r.message), resolver.owner.State())
        == Semantics.CallFactory(resolver.owner.Regs(), old(resolver.owner.State()), resolver.owner.hasBegunResolution,
                                 index, KindOf(resolver), 0, [], rank)
      ensures r.Ok? ==>
        Semantics.CallFactory(resolver.owner.Regs(), old(resolver.owner.State()), resolver.owner.hasBegunResolution,
                              index, KindOf(resolver), 0, [], rank)
        == Semantics.Finish(factory.outcome, r.value, resolver.owner.State())
      decreases rank(key), 0, 0
    {
      var owner := resolver.owner;
      var requests := factory.requests;
      ghost var regs, begun, kind := owner.Regs(), owner.hasBegunResolution, KindOf(resolver);
      assert regs[index] == Entry();
      ghost var spec := Semantics.CallFactory(regs, owner.State(), begun, index, kind, 0, [], rank);
      ghost var cur := owner.State();
      var got: seq<Instance> := [];
      var j := 0;
      while j < |requests|
        invariant 0 <= j <= |requests|
        invariant owner.Valid() && owner.Same(old(owner.registrations), begun) && owner.Regs() == regs
        invariant cur == owner.State() && Semantics.HeapOk(regs, cur)
        invariant spec == Semantics.CallFactory(regs, cur, begun, index, kind, j, got, rank)
        decreases |requests| - j
      {
        assert rank(requests[j]) < rank(key);
        var dep := owner.Callback(resolver.singletonOnly, requests[j], rank);
        Semantics.CallFactoryStep(regs, cur, begun, index, kind, j, got, rank, dep, owner.State());
        cur := owner.State();
        if dep.Err? {
          return Err(dep.message);
        }
        got := got + [dep.value];
        j := j + 1;
      }
      Semantics.CallFactoryDone(regs, cur, begun, index, kind, got, rank);
      r := Ok(got);
    }
  }

  class Container {
    var registrations: seq<ServiceRegistration>
    var hasBegunResolution: bool
    /** The identity the next object built by a factory receives; it stands
        for the JavaScript heap's allocation of a new object. */
    var nextInstance: nat

    function Regs(): seq<Semantics.Entry>
      reads this`registrations
    {
      EntriesOf(registrations)
    }

    ghost function State(): Semantics.Heap
      reads this, registrations
    {
      Semantics.Heap(CachesOf(registrations), nextInstance)
    }

    /** Keys are pairwise distinct and transient entries have empty caches. */
    ghost predicate Valid()
      reads this, registrations
    {
      Semantics.UniqueKeys(Regs()) && Semantics.HeapOk(Regs(), State())
    }

    ghost function Repr(): set<object>
      reads this`registrations
    {
      {this as object} + set r: ServiceRegistration | r in registrations
    }

    /** `entry` is this container's `index`-th registration and `rank` ranks
        the registry's dependencies. */
    ghost predicate Belongs(entry: ServiceRegistration, index: nat, rank: Key -> nat)
      reads this, registrations
    {
      Valid() && Semantics.Ranked(Regs(), rank) && index < |registrations| && registrations[index] == entry
    }

    /** Resolution leaves the registry and the phase alone. */
    ghost predicate Same(rs: seq<ServiceRegistration>, begun: bool)
      reads this
    {
      registrations == rs && hasBegunResolution == begun
    }

    constructor ()
      ensures Valid() && registrations == [] && !hasBegunResolution && nextInstance == 0 && Repr() == {this}
    {
      registrations := [];
      hasBegunResolution := false;
      nextInstance := 0;
    }

    method AddSingleton(k: Key, serviceFactory: Recipe) returns (r: Result<Container>)
      requires Valid()
      modifies this`registrations
      ensures Valid()
      ensures r.Ok? ==> r.value == this
      ensures r.Err? ==> registrations == old(registrations)
      ensures Semantics.Add(old(Regs()), hasBegunResolution, k, serviceFactory, Singleton)
           == (if r.Ok? then Ok(Regs()) else Err(r.message))
      ensures r.Ok? ==> Appended(old(registrations))
      ensures fresh(Repr() - old(Repr()))
    {
      var added := AddRegistration(k, serviceFactory, Singleton);
      r := if added.Ok? then Ok(this) else Err(added.message);
    }

    method AddTransient(k: Key, serviceFactory: Recipe) returns (r: Result<Container>)
      requires Valid()
      modifies this`registrations
      ensures Valid()
      ensures r.Ok? ==> r.value == this
      ensures r.Err? ==> registrations == old(registrations)
      ensures Semantics.Add(old(Regs()), hasBegunResolution, k, serviceFactory, Transient)
           == (if r.Ok? then Ok(Regs()) else Err(r.message))
      ensures r.Ok? ==> Appended(old(registrations))
      ensures fresh(Repr() - old(Repr()))
    {
      var added := AddRegistration(k, serviceFactory, Transient);
      r := if added.Ok? then Ok(this) else Err(added.message);
    }

    /** The registry grew by one new entry with an empty cache at the end;
        the earlier entries are the same objects. */
    ghost predicate Appended(before: seq<ServiceRegistration>)
      reads this, registrations
    {
      && |registrations| == |before| + 1
      && registrations[..|before|] == before
      && registrations[|before|].singletonInstance == None
    }

    method AddRegistration(k: Key, serviceFactory: Recipe, serviceLifetime: Lifetime) returns (r: Result<()>)
      requires Valid()
      modifies this`registrations
      ensures Valid()
      ensures r.Err? ==> registrations == old(registrations)
      ensures Semantics.Add(old(Regs()), hasBegunResolution, k, serviceFactory, serviceLifetime)
           == (if r.Ok? then Ok(Regs()) else Err(r.message))
      ensures r.Ok? ==> Appended(old(registrations)) && fresh(registrations[|old(registrations)|])
      ensures fresh(Repr() - old(Repr()))
    {
      if hasBegunResolution {
        return Err(Messages.AddAfterBegin(serviceLifetime, k));
      }
      var found := Semantics.Find(Regs(), k);
      if found.Some? {
        return Err(Messages.Duplicate(serviceLifetime, k, registrations[found.value].lifetime));
      }
      var entry := new ServiceRegistration(k, serviceFactory, serviceLifetime);
      registrations := registrations + [entry];
      assert Regs() == old(Regs()) + [entry.Entry()];
      assert State().caches == old(State().caches) + [None];
      r := Ok(());
    }

    method BeginResolution() returns (c: Container)
      requires Valid()
      modifies this`hasBegunResolution
      ensures Valid() && c == this && hasBegunResolution
    {
      hasBegunResolution := true;
      c := this;
    }

    /** The public entry point. `rank` (ghost) witnesses that the registry's
        dependencies are acyclic. */
    method Resolve(k: Key, ghost rank: Key -> nat) returns (r: Result<Instance>)
      requires Valid() && Semantics.Ranked(Regs(), rank)
      modifies Repr()
      ensures Valid() && Same(old(registrations), old(hasBegunResolution))
      ensures (r, State()) == Semantics.Resolve(Regs(), old(State()), hasBegunResolution, k, rank)
      decreases rank(k), 4
    {
      r := ResolveInternal(k, false, rank);
    }

    method ResolveInternal(k: Key, mustBeASingleton: bool, ghost rank: Key -> nat) returns (r: Result<Instance>)
      requires Valid() && Semantics.Ranked(Regs(), rank)
      modifies Repr()
      ensures Valid() && Same(old(registrations), old(hasBegunResolution))
      ensures (r, State()) == Semantics.ResolveInternal(Regs(), old(State()), hasBegunResolution, k, mustBeASingleton, rank)
      decreases rank(k), 3
    {
      if !hasBegunResolution {
        return Err(Messages.NotBegun);
      }
      var found := Semantics.Find(Regs(), k);
      if found.None? {
        return Err(Messages.NotRegistered(k));
      }
      var i := found.value;
      var service := registrations[i];
      assert Regs()[i] == service.Entry() && service in Repr();
      var inner: Result<Instance>;
      if mustBeASingleton && service.lifetime != Singleton {
        inner := Err(Messages.Mismatch(k, service.lifetime));
      } else if service.lifetime == Singleton {
        inner := ResolveSingleton(k, service, i, rank);
      } else {
        inner := service.Resolve(Bound(this, false), i, rank);
      }
      r := Messages.Rethrow(k, inner);
    }

    /** With an entry, resolve it using this method itself as the callback;
        without one, as when a singleton's factory calls back, re-enter
        `ResolveInternal` demanding a singleton. */
    method ResolveSingleton(k: Key, serviceRegistration: ServiceRegistration?, ghost index: nat, ghost rank: Key -> nat)
      returns (r: Result<Instance>)
      requires Valid() && Semantics.Ranked(Regs(), rank)
      requires serviceRegistration != null ==>
        index < |registrations| && registrations[index] == serviceRegistration && serviceRegistration.key == k
      modifies Repr()
      ensures Valid() && Same(old(registrations), old(hasBegunResolution))
      ensures (r, State())
        == Semantics.ResolveSingleton(Regs(), old(State()), hasBegunResolution, k,
                                      if serviceRegistration != null then Some(index) else None, rank)
      decreases rank(k), if serviceRegistration != null then 2 else 4
    {
      if serviceRegistration != null {
        assert serviceRegistration in Repr();
        r := serviceRegistration.Resolve(Bound(this, true), index, rank);
      } else {
        r := ResolveInternal(k, true, rank);
      }
    }

    /** A call of the resolver a factory received: the bound `Resolve` or
        the bound `ResolveSingleton` (without an entry). */
    method Callback(singletonOnly: bool, k: Key, ghost rank: Key -> nat) returns (r: Result<Instance>)
      requires Valid() && Semantics.Ranked(Regs(), rank)
      modifies Repr()
      ensures Valid() && Same(old(registrations), old(hasBegunResolution))
      ensures (r, State())
        == if singletonOnly then Semantics.ResolveSingleton(Regs(), old(State()), hasBegunResolution, k, None, rank)
           else Semantics.Resolve(Regs(), old(State()), hasBegunResolution, k, rank)
      decreases rank(k), 5
    {
      if singletonOnly {
        r := ResolveSingleton(k, null, 0, rank);
      } else {
        r := Resolve(k, rank);
      }
    }

    /** What a factory does once its requests have succeeded. */
    method Finish(outcome: Outcome, got: seq<Instance>) returns (r: Result<Instance>)
      requires Valid()
      modifies this`nextInstance
      ensures Valid()
      ensures (r, State()) == Semantics.Finish(outcome, got, old(State()))
    {
      match outcome
      case Build =>
        var x := Allocate(got);
        r := Ok(x);
      case Throw(m) =>
        r := Err(m);
      case Return(t) =>
        r := Ok(Given(t));
    }

    /** A factory's `new`: an object with a fresh identity holding the
        dependencies the factory obtained. */
    method Allocate(deps: seq<Instance>) returns (x: Instance)
      requires Valid()
      modifies this`nextInstance
      ensures Valid()
      ensures x == Built(old(nextInstance), deps) && nextInstance == old(nextInstance) + 1
    {
      x := Built(nextInstance, deps);
      nextInstance := nextInstance + 1;
    }

    /** Filling the cache of the `index`-th entry changes that one cache in
        the abstract state and nothing else. */
    lemma CachesAfterFill(index: nat, before: Semantics.Heap)
      requires Semantics.UniqueKeys(Regs()) && index < |registrations|
      requires |before.caches| == |registrations| && before.next == nextInstance
      requires forall j :: 0 <= j < |registrations| && j != index ==> before.caches[j] == registrations[j].singletonInstance
      ensures State() == before.(caches := before.caches[index := registrations[index].singletonInstance])
    {
      assert forall j :: 0 <= j < |registrations| && j != index ==> Regs()[j].key != Regs()[index].key;
    }
  }
}
