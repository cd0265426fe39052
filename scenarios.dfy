/** The outcomes the repository's test suite checks, proved of the reference
    semantics for the registries those tests build. The methods of `Ioc`
    compute these functions, so the same outcomes hold for the objects. */
module Scenarios {
  import opened Services
  import Messages
  import opened Semantics
  import Properties

  const TestService: Key := Key("TestService", 0)
  const WithDependency: Key := Key("TestServiceWithConstructorDependency", 1)

  /** A factory with no dependencies that builds a new object. */
  const Plain: Recipe := Recipe([], Build)
  /** A factory that requests `TestService` and builds an object holding it. */
  const NeedsTestService: Recipe := Recipe([TestService], Build)

  /** Ranks the two test keys: the dependent above its dependency. */
  function TestRank(k: Key): nat {
    if k == WithDependency then 1 else 0
  }

  lemma AddTwiceIsRefused(l: Lifetime)
    ensures Add([], false, TestService, Plain, l) == Ok([Entry(TestService, Plain, l)])
    ensures Add([Entry(TestService, Plain, l)], false, TestService, Plain, l)
         == Err("Cannot add a " + LifetimeName(l) + " " + "TestService" + " because a " + LifetimeName(l)
                + " service registration has already been added.")
  {
    assert [] + [Entry(TestService, Plain, l)] == [Entry(TestService, Plain, l)];
    Properties.AddOutcomes([Entry(TestService, Plain, l)], false, TestService, Plain, l, 0);
  }

  lemma AddAfterBeginIsRefused(l: Lifetime)
    ensures Add([], true, TestService, Plain, l)
         == Err("Cannot add a " + LifetimeName(l) + " " + "TestService" + " because resolution has begun.")
  {
  }

  lemma ResolveBeforeBegin(st: Heap)
    requires HeapOk([Entry(TestService, Plain, Singleton)], st)
    ensures Resolve([Entry(TestService, Plain, Singleton)], st, false, TestService, TestRank).0
         == Err("Resolution has not yet begun - did you forget to call BeginResolution on the container?")
  {
    Properties.TopLevelFailuresAreNotWrapped([Entry(TestService, Plain, Singleton)], st, TestService, TestRank);
  }

  lemma ResolveUnregistered(st: Heap)
    requires HeapOk([], st)
    ensures Resolve([], st, true, TestService, TestRank).0 == Err("No registered " + "TestService" + " was found.")
  {
    Properties.TopLevelFailuresAreNotWrapped([], st, TestService, TestRank);
  }

  /** A singleton registered with a factory that builds it resolves. */
  lemma SingletonResolves(st: Heap)
    requires st.caches == [None]
    ensures Resolve([Entry(TestService, Plain, Singleton)], st, true, TestService, TestRank).0 == Ok(Built(st.next, []))
  {
    Properties.ResolveByEntry([Entry(TestService, Plain, Singleton)], st, 0, false, TestRank);
  }

  /** A singleton whose factory hands back the object `Given(testService)`,
      created before the container. */
  lemma SingletonInstanceIsReturned(testService: nat, st: Heap)
    requires st.caches == [None]
    ensures Resolve([Entry(TestService, Recipe([], Return(testService)), Singleton)], st, true, TestService, TestRank).0
         == Ok(Given(testService))
  {
    Properties.PrebuiltSingletonIsReturned([Entry(TestService, Recipe([], Return(testService)), Singleton)], st, 0,
                                           testService, TestRank);
  }

  lemma SingletonResolvedTwice(st: Heap)
    requires st.caches == [None]
    ensures var regs := [Entry(TestService, Plain, Singleton)];
      var (first, st1) := Resolve(regs, st, true, TestService, TestRank);
      first.Ok? && Resolve(regs, st1, true, TestService, TestRank).0 == first
  {
    var regs := [Entry(TestService, Plain, Singleton)];
    Properties.ResolveByEntry(regs, st, 0, false, TestRank);
    assert CallFactory(regs, st, true, 0, SingletonOnly, 0, [], TestRank).0.Ok?;
    Properties.SingletonResolvedTwiceIsSame(regs, st, 0, TestRank);
  }

  /** A transient registered with a factory that builds it resolves. */
  lemma TransientResolves(st: Heap)
    requires st.caches == [None]
    ensures Resolve([Entry(TestService, Plain, Transient)], st, true, TestService, TestRank).0 == Ok(Built(st.next, []))
  {
    Properties.ResolveByEntry([Entry(TestService, Plain, Transient)], st, 0, false, TestRank);
  }

  lemma TransientResolvedTwice(st: Heap)
    requires st.caches == [None]
    ensures var regs := [Entry(TestService, Plain, Transient)];
      var (first, st1) := Resolve(regs, st, true, TestService, TestRank);
      var (second, st2) := Resolve(regs, st1, true, TestService, TestRank);
      first.Ok? && second.Ok? && first.value != second.value
  {
    var regs := [Entry(TestService, Plain, Transient)];
    Properties.ResolveByEntry(regs, st, 0, false, TestRank);
    var (first, st1) := Resolve(regs, st, true, TestService, TestRank);
    Properties.ResolveByEntry(regs, st1, 0, false, TestRank);
    Properties.TransientBuildsAreDistinct(regs, st, 0, TestRank);
  }

  /** A singleton whose factory requests a key nobody registered. */
  lemma SingletonWithMissingDependency(st: Heap)
    requires st.caches == [None]
    ensures Resolve([Entry(WithDependency, NeedsTestService, Singleton)], st, true, WithDependency, TestRank).0
         == Err(("Could not resolve " + "TestServiceWithConstructorDependency" + ":\r\n") + "- "
                + ("No registered " + "TestService" + " was found."))
  {
    var regs := [Entry(WithDependency, NeedsTestService, Singleton)];
    assert !Registered(regs, TestService);
    Properties.MissingDependencyTrace(regs, st, 0, TestService, TestRank);
  }

  /** A singleton whose factory requests a transient. */
  lemma SingletonWithTransientDependency(st: Heap)
    requires st.caches == [None, None]
    ensures Resolve([Entry(TestService, Plain, Transient), Entry(WithDependency, NeedsTestService, Singleton)],
                    st, true, WithDependency, TestRank).0
         == Err(("Could not resolve " + "TestServiceWithConstructorDependency" + ":\r\n") + "- "
                + ("Could not resolve " + "TestService" + ":\r\n") + "-- "
                + ("Cannot resolve a singleton " + "TestService" + " as it was registered as a " + "transient" + "."))
  {
    var regs := [Entry(TestService, Plain, Transient), Entry(WithDependency, NeedsTestService, Singleton)];
    Properties.SingletonOnTransientTrace(regs, st, 1, 0, TestRank);
  }

  /** A singleton whose factory requests another singleton resolves to an
      object holding that singleton, and both end up cached. */
  lemma SingletonWithSingletonDependency(st: Heap)
    requires st.caches == [None, None]
    ensures var regs := [Entry(TestService, Plain, Singleton), Entry(WithDependency, NeedsTestService, Singleton)];
      var (service, st1) := Resolve(regs, st, true, WithDependency, TestRank);
      && service.Ok? && service.value.Built? && service.value.deps == [Built(st.next, [])]
      && st1.caches == [Some(Built(st.next, [])), Some(service.value)]
  {
    var regs := [Entry(TestService, Plain, Singleton), Entry(WithDependency, NeedsTestService, Singleton)];
    Properties.ResolveByEntry(regs, st, 0, true, TestRank);
    assert CallFactory(regs, st, true, 0, SingletonOnly, 0, [], TestRank).0.Ok?;
    Properties.SingletonReceivesItsDependency(regs, st, 1, TestService, TestRank);
  }

  /** A transient whose factory requests a singleton, registered first. */
  lemma TransientWithSingletonDependency(st: Heap)
    requires st.caches == [None, None]
    ensures var regs := [Entry(TestService, Plain, Singleton), Entry(WithDependency, NeedsTestService, Transient)];
      var (service, st1) := Resolve(regs, st, true, WithDependency, TestRank);
      service.Ok? && service.value.Built? && service.value.deps == [Built(st.next, [])]
  {
    var regs := [Entry(TestService, Plain, Singleton), Entry(WithDependency, NeedsTestService, Transient)];
    Properties.TransientOverSingleton(regs, st, 0, 1, TestRank);
  }

  /** A transient whose factory requests another transient resolves to an
      object holding a new object of that transient. */
  lemma TransientWithTransientDependency(st: Heap)
    requires st.caches == [None, None]
    ensures var regs := [Entry(TestService, Plain, Transient), Entry(WithDependency, NeedsTestService, Transient)];
      var (service, st1) := Resolve(regs, st, true, WithDependency, TestRank);
      service.Ok? && service.value.Built? && service.value.deps == [Built(st.next, [])]
  {
    var regs := [Entry(TestService, Plain, Transient), Entry(WithDependency, NeedsTestService, Transient)];
    Properties.ResolveByEntry(regs, st, 0, false, TestRank);
    assert CallFactory(regs, st, true, 0, General, 0, [], TestRank).0.Ok?;
    Properties.TransientReceivesItsDependency(regs, st, 1, TestService, TestRank);
  }

  /** The example of the project's README: a transient registered before the
      singleton it depends on resolves to an object holding that singleton. */
  lemma ReadmeExample(st: Heap)
    requires st.caches == [None, None]
    ensures var regs := [Entry(WithDependency, NeedsTestService, Transient), Entry(TestService, Plain, Singleton)];
      var (service, st1) := Resolve(regs, st, true, WithDependency, TestRank);
      service.Ok? && service.value.Built? && service.value.deps == [Built(st.next, [])]
  {
    var regs := [Entry(WithDependency, NeedsTestService, Transient), Entry(TestService, Plain, Singleton)];
    Properties.TransientOverSingleton(regs, st, 1, 0, TestRank);
  }
}
