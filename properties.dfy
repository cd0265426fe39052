/** What the container promises, proved of the reference semantics. */
module Properties {
  import opened Services
  import Messages
  import opened Semantics

  /** The usual situation: unique keys, a heap that fits the registry and an
      acyclic dependency relation. */
  predicate Ready(regs: seq<Entry>, st: Heap, rank: Key -> nat) {
    UniqueKeys(regs) && HeapOk(regs, st) && Ranked(regs, rank)
  }

  /** With unique keys, the lookup finds the one entry for its key. */
  lemma FindsTheEntry(regs: seq<Entry>, i: nat)
    requires UniqueKeys(regs) && i < |regs|
    ensures Find(regs, regs[i].key) == Some(i)
  {
  }

  /** The callback an entry's factory receives, by the entry's lifetime. */
  function KindFor(l: Lifetime): (kind: ResolverKind)
    ensures kind != Missing
    ensures kind == SingletonOnly <==> l == Singleton
  {
    match l
    case Singleton => SingletonOnly
    case Transient => General
  }

  /** Once resolution has begun, resolving a registered key either fails the
      lifetime check or is the entry's own `resolve`, handed the callback its
      lifetime calls for, with any error rethrown wrapped. */
  lemma ResolveByEntry(regs: seq<Entry>, st: Heap, i: nat, must: bool, rank: Key -> nat)
    requires Ready(regs, st, rank) && i < |regs|
    ensures var k := regs[i].key;
      ResolveInternal(regs, st, true, k, must, rank)
      == if must && regs[i].lifetime == Transient then (Err(Messages.Wrap(k, Messages.Mismatch(k, Transient))), st)
         else
           var inner := EntryResolve(regs, st, true, i, KindFor(regs[i].lifetime), rank);
           (Messages.Rethrow(k, inner.0), inner.1)
  {
    FindsTheEntry(regs, i);
    if regs[i].lifetime == Singleton {
      assert ResolveSingleton(regs, st, true, regs[i].key, Some(i), rank)
          == EntryResolve(regs, st, true, i, SingletonOnly, rank);
    }
  }

  // ---------------------------------------------------------------------
  // Registration

  /** Adding after resolution has begun fails with the phase message, and
      adding a key that is already there fails with a message that names the
      lifetime of the entry already registered; either way the registry is
      unchanged. A successful add appends exactly the new entry and keeps
      keys distinct, whatever the order of the adds. */
  lemma AddOutcomes(regs: seq<Entry>, begun: bool, k: Key, f: Recipe, l: Lifetime, i: nat)
    requires UniqueKeys(regs) && i < |regs| && regs[i].key == k
    ensures Add(regs, true, k, f, l) == Err(Messages.AddAfterBegin(l, k))
    ensures Add(regs, false, k, f, l) == Err(Messages.Duplicate(l, k, regs[i].lifetime))
  {
  }

  /** Registering two different keys in either order gives registries that
      agree on every lookup. */
  lemma {:induction false} AddOrderIrrelevant(regs: seq<Entry>, a: Entry, b: Entry, k: Key)
    requires a.key != b.key
    ensures Find(regs + [a, b], k).Some? <==> Find(regs + [b, a], k).Some?
    ensures Find(regs + [a, b], k).Some? ==>
      (regs + [a, b])[Find(regs + [a, b], k).value] == (regs + [b, a])[Find(regs + [b, a], k).value]
  {
    var ab, ba := regs + [a, b], regs + [b, a];
    assert forall j :: 0 <= j < |regs| ==> ab[j] == regs[j] && ba[j] == regs[j];
    assert ab[|regs|] == a && ab[|regs| + 1] == b && ba[|regs|] == b && ba[|regs| + 1] == a;
    assert Registered(ab, k) <==> Registered(regs, k) || a.key == k || b.key == k;
    assert Registered(ba, k) <==> Registered(regs, k) || a.key == k || b.key == k;
  }

  // ---------------------------------------------------------------------
  // The two failures outside the `try`

  /** Resolving before `BeginResolution`, or resolving a key nobody
      registered, fails with a bare message: neither is wrapped. */
  lemma TopLevelFailuresAreNotWrapped(regs: seq<Entry>, st: Heap, k: Key, rank: Key -> nat)
    requires HeapOk(regs, st) && Ranked(regs, rank)
    ensures Resolve(regs, st, false, k, rank) == (Err(Messages.NotBegun), st)
    ensures !Registered(regs, k) ==> Resolve(regs, st, true, k, rank) == (Err(Messages.NotRegistered(k)), st)
  {
  }

  // ---------------------------------------------------------------------
  // Singletons are cached

  /** A resolution of a singleton that succeeds leaves its result in the
      entry's cache. */
  lemma SingletonResultIsCached(regs: seq<Entry>, st: Heap, begun: bool, i: nat, must: bool, rank: Key -> nat)
    requires Ready(regs, st, rank) && i < |regs| && regs[i].lifetime == Singleton
    ensures var res := ResolveInternal(regs, st, begun, regs[i].key, must, rank);
      res.0.Ok? ==> res.1.caches[i] == Some(res.0.value)
  {
    if begun {
      ResolveByEntry(regs, st, i, must, rank);
    }
  }

  /** A singleton whose cache is filled resolves to the cached object and
      nothing changes: the factory is not called. */
  lemma CachedSingletonIsReturned(regs: seq<Entry>, st: Heap, i: nat, must: bool, rank: Key -> nat)
    requires Ready(regs, st, rank) && i < |regs| && regs[i].lifetime == Singleton && st.caches[i].Some?
    ensures ResolveInternal(regs, st, true, regs[i].key, must, rank) == (Ok(st.caches[i].value), st)
  {
    ResolveByEntry(regs, st, i, must, rank);
  }

  /** Resolving a singleton twice gives the identical object, and the second
      resolution changes nothing. */
  lemma SingletonResolvedTwiceIsSame(regs: seq<Entry>, st: Heap, i: nat, rank: Key -> nat)
    requires Ready(regs, st, rank) && i < |regs| && regs[i].lifetime == Singleton
    ensures var (r1, st1) := Resolve(regs, st, true, regs[i].key, rank);
      r1.Ok? ==> Resolve(regs, st1, true, regs[i].key, rank) == (r1, st1)
  {
    var (r1, st1) := Resolve(regs, st, true, regs[i].key, rank);
    if r1.Ok? {
      SingletonResultIsCached(regs, st, true, i, false, rank);
      CachedSingletonIsReturned(regs, st1, i, false, rank);
    }
  }

  /** A singleton factory that ends by handing back an object created before:
      whatever it requested first, a resolution that succeeds returns exactly
      that object and caches it. A factory with no requests always succeeds,
      and nothing else changes. */
  lemma PrebuiltSingletonIsReturned(regs: seq<Entry>, st: Heap, i: nat, t: nat, rank: Key -> nat)
    requires Ready(regs, st, rank) && i < |regs|
    requires regs[i].lifetime == Singleton && regs[i].factory.outcome == Return(t) && st.caches[i].None?
    ensures var res := Resolve(regs, st, true, regs[i].key, rank);
      res.0.Ok? ==> res.0.value == Given(t) && res.1.caches[i] == Some(Given(t))
    ensures regs[i].factory.requests == [] ==>
      Resolve(regs, st, true, regs[i].key, rank) == (Ok(Given(t)), st.(caches := st.caches[i := Some(Given(t))]))
  {
    ResolveByEntry(regs, st, i, false, rank);
    ReturningFactoryGivesItsObject(regs, st, true, i, SingletonOnly, 0, [], rank);
    if regs[i].factory.requests == [] {
      assert CallFactory(regs, st, true, i, SingletonOnly, 0, [], rank) == (Ok(Given(t)), st);
    }
  }

  /** A factory that ends by returning a given object returns that object
      whenever all its requests succeed. */
  lemma {:induction false} ReturningFactoryGivesItsObject(regs: seq<Entry>, st: Heap, begun: bool, i: nat,
                                                          resolver: ResolverKind, j: nat, got: seq<Instance>,
                                                          rank: Key -> nat)
    requires HeapOk(regs, st) && Ranked(regs, rank) && i < |regs|
    requires resolver != Missing && j <= |regs[i].factory.requests| && regs[i].factory.outcome.Return?
    ensures var res := CallFactory(regs, st, begun, i, resolver, j, got, rank);
      res.0.Ok? ==> res.0.value == Given(regs[i].factory.outcome.tag)
    decreases |regs[i].factory.requests| - j
  {
    var requests := regs[i].factory.requests;
    if j < |requests| {
      var dep :=
        if resolver == SingletonOnly then ResolveSingleton(regs, st, begun, requests[j], None, rank)
        else Resolve(regs, st, begun, requests[j], rank);
      if dep.0.Ok? {
        ReturningFactoryGivesItsObject(regs, dep.1, begun, i, resolver, j + 1, got + [dep.0.value], rank);
      }
    }
  }

  // ---------------------------------------------------------------------
  // The registration entry

  /** `resolve` without a resolver fails before the factory or the cache is
      touched, whatever the lifetime. */
  lemma MissingResolverFails(regs: seq<Entry>, st: Heap, begun: bool, i: nat, rank: Key -> nat)
    requires HeapOk(regs, st) && Ranked(regs, rank) && i < |regs|
    ensures EntryResolve(regs, st, begun, i, Missing, rank) == (Err(Messages.ResolverRequired), st)
  {
  }

  /** A transient entry runs its factory on every call and its cache stays
      empty; a factory call never writes the calling entry's cache. */
  lemma {:induction false} TransientRunsFactory(regs: seq<Entry>, st: Heap, begun: bool, i: nat, resolver: ResolverKind, rank: Key -> nat)
    requires HeapOk(regs, st) && Ranked(regs, rank) && i < |regs| && resolver != Missing
    requires regs[i].lifetime == Transient
    ensures var res := EntryResolve(regs, st, begun, i, resolver, rank);
      res == CallFactory(regs, st, begun, i, resolver, 0, [], rank) && res.1.caches[i] == None
  {
  }

  /** If a singleton's factory throws, its cache stays empty and the next
      `resolve` calls the factory again. */
  lemma FailedSingletonIsRetried(regs: seq<Entry>, st: Heap, begun: bool, i: nat, resolver: ResolverKind, rank: Key -> nat)
    requires HeapOk(regs, st) && Ranked(regs, rank) && i < |regs| && resolver != Missing
    requires regs[i].lifetime == Singleton && st.caches[i].None?
    ensures var (r1, st1) := EntryResolve(regs, st, begun, i, resolver, rank);
      r1.Err? ==>
        && st1.caches[i].None?
        && EntryResolve(regs, st1, begun, i, resolver, rank).0 == CallFactory(regs, st1, begun, i, resolver, 0, [], rank).0
  {
    var made := CallFactory(regs, st, begun, i, resolver, 0, [], rank);
    assert made.1.caches[i] == st.caches[i];
  }

  // ---------------------------------------------------------------------
  // Transients are built afresh

  /** `x` already existed when the counter stood at `next`: it was created
      outside the container, or built with a smaller number. */
  predicate Numbered(x: Instance, next: nat) {
    x.Built? ==> x.id < next
  }

  /** Every cached object already existed. A heap with no cache filled, as a
      container's is when resolution begins, has this property. */
  predicate CachesNumbered(st: Heap) {
    forall i :: 0 <= i < |st.caches| && st.caches[i].Some? ==> Numbered(st.caches[i].value, st.next)
  }

  /** An object a factory builds is new: it differs from every object that
      existed when the factory was called, and the counter moves just past
      its number. */
  lemma {:induction false} BuiltInstanceIsNew(regs: seq<Entry>, st: Heap, begun: bool, i: nat, resolver: ResolverKind,
                                              j: nat, got: seq<Instance>, rank: Key -> nat)
    requires HeapOk(regs, st) && Ranked(regs, rank) && i < |regs|
    requires resolver != Missing && j <= |regs[i].factory.requests| && regs[i].factory.outcome == Build
    ensures var res := CallFactory(regs, st, begun, i, resolver, j, got, rank);
      res.0.Ok? ==>
        && res.0.value.Built? && st.next <= res.0.value.id && res.0.value.id + 1 == res.1.next
        && forall x :: Numbered(x, st.next) ==> x != res.0.value
    decreases |regs[i].factory.requests| - j
  {
    var requests := regs[i].factory.requests;
    if j < |requests| {
      var dep :=
        if resolver == SingletonOnly then ResolveSingleton(regs, st, begun, requests[j], None, rank)
        else Resolve(regs, st, begun, requests[j], rank);
      if dep.0.Ok? {
        BuiltInstanceIsNew(regs, dep.1, begun, i, resolver, j + 1, got + [dep.0.value], rank);
      }
    }
  }

  /** Resolving a transient whose factory builds a new object twice gives
      two distinct objects. */
  lemma TransientBuildsAreDistinct(regs: seq<Entry>, st: Heap, i: nat, rank: Key -> nat)
    requires Ready(regs, st, rank) && i < |regs|
    requires regs[i].lifetime == Transient && regs[i].factory.outcome == Build
    ensures var (r1, st1) := Resolve(regs, st, true, regs[i].key, rank);
      var (r2, st2) := Resolve(regs, st1, true, regs[i].key, rank);
      r1.Ok? && r2.Ok? ==> r1.value != r2.value
  {
    ResolveByEntry(regs, st, i, false, rank);
    var (r1, st1) := Resolve(regs, st, true, regs[i].key, rank);
    ResolveByEntry(regs, st1, i, false, rank);
    BuiltInstanceIsNew(regs, st, true, i, General, 0, [], rank);
    BuiltInstanceIsNew(regs, st1, true, i, General, 0, [], rank);
  }

  /** A building transient resolves to an object that differs from every
      object cached before, and from any object an earlier resolution
      returned, since those existed already. */
  lemma TransientIsNew(regs: seq<Entry>, st: Heap, i: nat, rank: Key -> nat)
    requires Ready(regs, st, rank) && i < |regs| && CachesNumbered(st)
    requires regs[i].lifetime == Transient && regs[i].factory.outcome == Build
    ensures var (r, st1) := Resolve(regs, st, true, regs[i].key, rank);
      r.Ok? ==>
        && (forall n :: 0 <= n < |st.caches| && st.caches[n].Some? ==> st.caches[n].value != r.value)
        && forall x :: Numbered(x, st.next) ==> x != r.value
  {
    ResolveByEntry(regs, st, i, false, rank);
    BuiltInstanceIsNew(regs, st, true, i, General, 0, [], rank);
  }

  /** Resolution keeps every cached object one that already existed, and
      what it returns already exists once it returns: nothing it hands out
      carries a number the counter will give again. */
  lemma ResolutionKeepsIdentities(regs: seq<Entry>, st: Heap, begun: bool, k: Key, rank: Key -> nat)
    requires HeapOk(regs, st) && Ranked(regs, rank) && CachesNumbered(st)
    ensures var res := Resolve(regs, st, begun, k, rank);
      && CachesNumbered(res.1)
      && (res.0.Ok? ==> Numbered(res.0.value, res.1.next))
  {
    NumberedResolveInternal(regs, st, begun, k, false, rank);
  }

  lemma {:induction false} NumberedResolveInternal(regs: seq<Entry>, st: Heap, begun: bool, k: Key, must: bool,
                                                   rank: Key -> nat)
    requires HeapOk(regs, st) && Ranked(regs, rank) && CachesNumbered(st)
    ensures var res := ResolveInternal(regs, st, begun, k, must, rank);
      CachesNumbered(res.1) && (res.0.Ok? ==> Numbered(res.0.value, res.1.next))
    decreases rank(k), 3
  {
    if begun && Find(regs, k).Some? {
      var i := Find(regs, k).value;
      if !must || regs[i].lifetime == Singleton {
        if regs[i].lifetime == Singleton {
          NumberedEntryResolve(regs, st, begun, i, SingletonOnly, rank);
        } else {
          NumberedEntryResolve(regs, st, begun, i, General, rank);
        }
      }
    }
  }

  lemma {:induction false} NumberedEntryResolve(regs: seq<Entry>, st: Heap, begun: bool, i: nat, resolver: ResolverKind,
                                                rank: Key -> nat)
    requires HeapOk(regs, st) && Ranked(regs, rank) && CachesNumbered(st) && i < |regs|
    ensures var res := EntryResolve(regs, st, begun, i, resolver, rank);
      CachesNumbered(res.1) && (res.0.Ok? ==> Numbered(res.0.value, res.1.next))
    decreases rank(regs[i].key), 1
  {
    if resolver != Missing {
      NumberedCallFactory(regs, st, begun, i, resolver, 0, [], rank);
      var made := CallFactory(regs, st, begun, i, resolver, 0, [], rank);
      if regs[i].lifetime == Singleton && st.caches[i].None? && made.0.Ok? {
        var st' := made.1.(caches := made.1.caches[i := Some(made.0.value)]);
        assert EntryResolve(regs, st, begun, i, resolver, rank).1 == st';
        forall n | 0 <= n < |st'.caches| && st'.caches[n].Some?
          ensures Numbered(st'.caches[n].value, st'.next)
        {
          if n != i {
            assert made.1.caches[n].Some?;
          }
        }
      }
    }
  }

  lemma {:induction false} NumberedCallFactory(regs: seq<Entry>, st: Heap, begun: bool, i: nat, resolver: ResolverKind,
                                               j: nat, got: seq<Instance>, rank: Key -> nat)
    requires HeapOk(regs, st) && Ranked(regs, rank) && CachesNumbered(st) && i < |regs|
    requires resolver != Missing && j <= |regs[i].factory.requests|
    ensures var res := CallFactory(regs, st, begun, i, resolver, j, got, rank);
      CachesNumbered(res.1) && (res.0.Ok? ==> Numbered(res.0.value, res.1.next))
    decreases rank(regs[i].key), 0, |regs[i].factory.requests| - j
  {
    var requests := regs[i].factory.requests;
    if j < |requests| {
      NumberedResolveInternal(regs, st, begun, requests[j], resolver == SingletonOnly, rank);
      var dep := ResolveInternal(regs, st, begun, requests[j], resolver == SingletonOnly, rank);
      CallFactoryStep(regs, st, begun, i, resolver, j, got, rank, dep.0, dep.1);
      if dep.0.Ok? {
        NumberedCallFactory(regs, dep.1, begun, i, resolver, j + 1, got + [dep.0.value], rank);
      }
    }
  }

  // ---------------------------------------------------------------------
  // The lifetime rule: a singleton's dependencies are singletons, at any depth

  /** `k` is registered as a singleton and so is everything its factory
      requests, recursively. */
  ghost predicate SingletonClosed(regs: seq<Entry>, k: Key, rank: Key -> nat)
    requires Ranked(regs, rank)
    decreases rank(k)
  {
    match Find(regs, k)
    case None => false
    case Some(i) =>
      && regs[i].lifetime == Singleton
      && forall j :: 0 <= j < |regs[i].factory.requests| ==> SingletonClosed(regs, regs[i].factory.requests[j], rank)
  }

  /** Every filled cache belongs to a singleton whose dependencies are all
      singletons. A heap whose caches are all empty, as a container's is when
      resolution begins, has this property. */
  ghost predicate CachesClosed(regs: seq<Entry>, st: Heap, rank: Key -> nat)
    requires HeapOk(regs, st) && Ranked(regs, rank)
  {
    forall i :: 0 <= i < |regs| && st.caches[i].Some? ==> SingletonClosed(regs, regs[i].key, rank)
  }

  predicate IsSingleton(regs: seq<Entry>, k: Key) {
    Find(regs, k).Some? && regs[Find(regs, k).value].lifetime == Singleton
  }

  /** Every request of entry `i` from the `j`-th on is singleton-closed. */
  ghost predicate RequestsClosed(regs: seq<Entry>, i: nat, j: nat, rank: Key -> nat)
    requires Ranked(regs, rank) && i < |regs|
  {
    forall n :: j <= n < |regs[i].factory.requests| ==> SingletonClosed(regs, regs[i].factory.requests[n], rank)
  }

  lemma {:induction false} ClosedResolveInternal(regs: seq<Entry>, st: Heap, begun: bool, k: Key, must: bool, rank: Key -> nat)
    requires Ready(regs, st, rank) && CachesClosed(regs, st, rank)
    ensures var res := ResolveInternal(regs, st, begun, k, must, rank);
      && CachesClosed(regs, res.1, rank)
      && (res.0.Ok? && (must || IsSingleton(regs, k)) ==> SingletonClosed(regs, k, rank))
    decreases rank(k), 3
  {
    if begun && Find(regs, k).Some? {
      var i := Find(regs, k).value;
      if !must || regs[i].lifetime == Singleton {
        if regs[i].lifetime == Singleton {
          ClosedEntryResolve(regs, st, begun, i, SingletonOnly, rank);
        } else {
          ClosedEntryResolve(regs, st, begun, i, General, rank);
        }
      }
    }
  }

  lemma {:induction false} ClosedEntryResolve(regs: seq<Entry>, st: Heap, begun: bool, i: nat, resolver: ResolverKind, rank: Key -> nat)
    requires Ready(regs, st, rank) && CachesClosed(regs, st, rank) && i < |regs|
    requires resolver == General ==> regs[i].lifetime == Transient
    ensures var res := EntryResolve(regs, st, begun, i, resolver, rank);
      && CachesClosed(regs, res.1, rank)
      && (res.0.Ok? && regs[i].lifetime == Singleton ==> SingletonClosed(regs, regs[i].key, rank))
    decreases rank(regs[i].key), 1
  {
    if resolver != Missing {
      ClosedCallFactory(regs, st, begun, i, resolver, 0, [], rank);
      var made := CallFactory(regs, st, begun, i, resolver, 0, [], rank);
      if regs[i].lifetime == Singleton && st.caches[i].None? && made.0.Ok? {
        FindsTheEntry(regs, i);
        assert SingletonClosed(regs, regs[i].key, rank);
        var st' := made.1.(caches := made.1.caches[i := Some(made.0.value)]);
        assert EntryResolve(regs, st, begun, i, resolver, rank).1 == st';
        forall n | 0 <= n < |regs| && st'.caches[n].Some?
          ensures SingletonClosed(regs, regs[n].key, rank)
        {
          if n != i {
            assert made.1.caches[n].Some?;
          }
        }
      }
    }
  }

  lemma {:induction false} ClosedCallFactory(regs: seq<Entry>, st: Heap, begun: bool, i: nat, resolver: ResolverKind,
                                             j: nat, got: seq<Instance>, rank: Key -> nat)
    requires Ready(regs, st, rank) && CachesClosed(regs, st, rank) && i < |regs|
    requires resolver != Missing && j <= |regs[i].factory.requests|
    ensures var res := CallFactory(regs, st, begun, i, resolver, j, got, rank);
      && CachesClosed(regs, res.1, rank)
      && (res.0.Ok? && resolver == SingletonOnly ==> RequestsClosed(regs, i, j, rank))
    decreases rank(regs[i].key), 0, |regs[i].factory.requests| - j
  {
    var requests := regs[i].factory.requests;
    if j < |requests| {
      ClosedResolveInternal(regs, st, begun, requests[j], resolver == SingletonOnly, rank);
      var dep := ResolveInternal(regs, st, begun, requests[j], resolver == SingletonOnly, rank);
      CallFactoryStep(regs, st, begun, i, resolver, j, got, rank, dep.0, dep.1);
      if dep.0.Ok? {
        ClosedCallFactory(regs, dep.1, begun, i, resolver, j + 1, got + [dep.0.value], rank);
        if resolver == SingletonOnly && CallFactory(regs, st, begun, i, resolver, j, got, rank).0.Ok? {
          assert RequestsClosed(regs, i, j + 1, rank);
          assert SingletonClosed(regs, requests[j], rank);
        }
      }
    }
  }

  /** The lifetime rule. Starting from a heap whose filled caches are closed
      (in particular from one with no cache filled), a resolution keeps that
      property, and a singleton that resolves has only singletons in its whole
      dependency graph. */
  lemma SingletonDependenciesAreSingletons(regs: seq<Entry>, st: Heap, begun: bool, k: Key, rank: Key -> nat)
    requires Ready(regs, st, rank) && CachesClosed(regs, st, rank)
    ensures var res := Resolve(regs, st, begun, k, rank);
      && CachesClosed(regs, res.1, rank)
      && (res.0.Ok? && IsSingleton(regs, k) ==> SingletonClosed(regs, k, rank))
  {
    ClosedResolveInternal(regs, st, begun, k, false, rank);
  }

  /** A container whose caches are all empty satisfies the premise above. */
  lemma EmptyCachesAreClosed(regs: seq<Entry>, st: Heap, rank: Key -> nat)
    requires HeapOk(regs, st) && Ranked(regs, rank)
    requires forall i :: 0 <= i < |st.caches| ==> st.caches[i].None?
    ensures CachesClosed(regs, st, rank)
  {
  }

  /** A transient reached through a singleton's factory is refused: a request
      that must yield a singleton fails at its own frame with the mismatch
      message, already wrapped once. */
  lemma SingletonRequestRefusesTransient(regs: seq<Entry>, st: Heap, t: nat, rank: Key -> nat)
    requires Ready(regs, st, rank) && t < |regs| && regs[t].lifetime == Transient
    ensures ResolveInternal(regs, st, true, regs[t].key, true, rank)
         == (Err(Messages.Wrap(regs[t].key, Messages.Mismatch(regs[t].key, Transient))), st)
  {
    FindsTheEntry(regs, t);
  }

  // ---------------------------------------------------------------------
  // Error traces

  /** A singleton whose first request is a transient: a two-level trace,
      the inner line's dash doubled. */
  lemma SingletonOnTransientTrace(regs: seq<Entry>, st: Heap, i: nat, t: nat, rank: Key -> nat)
    requires Ready(regs, st, rank) && i < |regs| && t < |regs|
    requires regs[i].lifetime == Singleton && st.caches[i].None?
    requires |regs[i].factory.requests| > 0 && regs[i].factory.requests[0] == regs[t].key
    requires regs[t].lifetime == Transient && '-' !in regs[t].key.name
    ensures Resolve(regs, st, true, regs[i].key, rank)
         == (Err(Messages.Heading(regs[i].key) + "- " + Messages.Heading(regs[t].key) + "-- "
                 + Messages.Mismatch(regs[t].key, Transient)), st)
  {
    var outer, inner := regs[i].key, regs[t].key;
    var m := Messages.Mismatch(inner, Transient);
    ResolveByEntry(regs, st, i, false, rank);
    SingletonRequestRefusesTransient(regs, st, t, rank);
    assert CallFactory(regs, st, true, i, SingletonOnly, 0, [], rank) == (Err(Messages.Wrap(inner, m)), st);
    Messages.WrapTwice(outer, inner, m);
    Messages.MismatchKeepsDashes(inner, Transient);
  }

  /** A service whose first request is not registered, whatever its own
      lifetime: a one-level trace. */
  lemma MissingDependencyTrace(regs: seq<Entry>, st: Heap, i: nat, d: Key, rank: Key -> nat)
    requires Ready(regs, st, rank) && i < |regs| && st.caches[i].None?
    requires |regs[i].factory.requests| > 0 && regs[i].factory.requests[0] == d
    requires !Registered(regs, d) && '-' !in d.name
    ensures Resolve(regs, st, true, regs[i].key, rank)
         == (Err(Messages.Heading(regs[i].key) + "- " + Messages.NotRegistered(d)), st)
  {
    Messages.NotRegisteredKeepsDashes(d);
    ResolveByEntry(regs, st, i, false, rank);
    var dep := ResolveInternal(regs, st, true, d, regs[i].lifetime == Singleton, rank);
    assert dep == (Err(Messages.NotRegistered(d)), st);
    assert CallFactory(regs, st, true, i, KindFor(regs[i].lifetime), 0, [], rank) == dep;
  }

  // ---------------------------------------------------------------------
  // Dependencies reach the object built

  /** A transient's factory gets the unrestricted resolver: its dependency is
      resolved exactly as a top-level `Resolve` would, whatever that
      dependency's lifetime, and the new object holds the result. */
  lemma TransientReceivesItsDependency(regs: seq<Entry>, st: Heap, i: nat, d: Key, rank: Key -> nat)
    requires Ready(regs, st, rank) && i < |regs|
    requires regs[i].lifetime == Transient && regs[i].factory == Recipe([d], Build)
    ensures var (rd, st1) := Resolve(regs, st, true, d, rank);
      rd.Ok? ==>
        Resolve(regs, st, true, regs[i].key, rank) == (Ok(Built(st1.next, [rd.value])), st1.(next := st1.next + 1))
  {
    ResolveByEntry(regs, st, i, false, rank);
    var (rd, st1) := Resolve(regs, st, true, d, rank);
    if rd.Ok? {
      assert regs[i].factory.requests[0] == d;
      assert [] + [rd.value] == [rd.value];
      assert CallFactory(regs, st, true, i, General, 0, [], rank)
          == CallFactory(regs, st1, true, i, General, 1, [rd.value], rank);
      assert CallFactory(regs, st1, true, i, General, 1, [rd.value], rank)
          == Finish(Build, [rd.value], st1);
    }
  }

  /** A singleton's factory goes through the lifetime-enforcing path: its
      dependency is resolved demanding a singleton, and the new object holds
      the result and is cached. */
  lemma SingletonReceivesItsDependency(regs: seq<Entry>, st: Heap, i: nat, d: Key, rank: Key -> nat)
    requires Ready(regs, st, rank) && i < |regs| && st.caches[i].None?
    requires regs[i].lifetime == Singleton && regs[i].factory == Recipe([d], Build)
    ensures var (rd, st1) := ResolveInternal(regs, st, true, d, true, rank);
      rd.Ok? ==>
        var x := Built(st1.next, [rd.value]);
        Resolve(regs, st, true, regs[i].key, rank) == (Ok(x), Heap(st1.caches[i := Some(x)], st1.next + 1))
  {
    ResolveByEntry(regs, st, i, false, rank);
    var (rd, st1) := ResolveInternal(regs, st, true, d, true, rank);
    if rd.Ok? {
      assert regs[i].factory.requests[0] == d;
      assert [] + [rd.value] == [rd.value];
      assert CallFactory(regs, st, true, i, SingletonOnly, 0, [], rank)
          == CallFactory(regs, st1, true, i, SingletonOnly, 1, [rd.value], rank);
      assert CallFactory(regs, st1, true, i, SingletonOnly, 1, [rd.value], rank)
          == Finish(Build, [rd.value], st1);
    }
  }

  /** A singleton `a` with no dependencies and a transient `b` built from it:
      resolving `b` twice gives two distinct objects that hold the same `a`. */
  lemma TransientOverSingleton(regs: seq<Entry>, st: Heap, ia: nat, ib: nat, rank: Key -> nat)
    requires Ready(regs, st, rank) && ia < |regs| && ib < |regs| && st.caches[ia].None?
    requires regs[ia].lifetime == Singleton && regs[ia].factory == Recipe([], Build)
    requires regs[ib].lifetime == Transient && regs[ib].factory == Recipe([regs[ia].key], Build)
    ensures var (r1, st1) := Resolve(regs, st, true, regs[ib].key, rank);
      var (r2, st2) := Resolve(regs, st1, true, regs[ib].key, rank);
      && r1.Ok? && r2.Ok? && r1.value != r2.value && r1.value.Built? && r2.value.Built?
      && r1.value.deps == r2.value.deps == [Built(st.next, [])]
      && st2.caches[ia] == Some(Built(st.next, []))
  {
    var a := regs[ia].key;
    var built := Built(st.next, []);
    ResolveByEntry(regs, st, ia, false, rank);
    assert CallFactory(regs, st, true, ia, SingletonOnly, 0, [], rank) == (Ok(built), st.(next := st.next + 1));
    TransientReceivesItsDependency(regs, st, ib, a, rank);
    var (r1, st1) := Resolve(regs, st, true, regs[ib].key, rank);
    CachedSingletonIsReturned(regs, st1, ia, false, rank);
    TransientReceivesItsDependency(regs, st1, ib, a, rank);
  }
}
