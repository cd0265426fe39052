/** The reference semantics of the container, as pure functions: the registry
    as a sequence of entries, and resolution as mutually recursive functions
    over a `Heap` that holds each entry's singleton cache and the counter from
    which new instances draw their identity. The methods of `Ioc` are proved
    to compute exactly these functions. */
module Semantics {
  import opened Services
  import Messages

  /** The fixed part of a registration: key, factory and lifetime. */
  datatype Entry = Entry(key: Key, factory: Recipe, lifetime: Lifetime)

  /** The changing part: `caches[i]` is entry i's `singletonInstance`, and
      `next` is the identity the next built object receives. */
  datatype Heap = Heap(caches: seq<Option<Instance>>, next: nat)

  /** The callback handed to a factory: absent, the container's general
      `Resolve`, or its lifetime-enforcing `ResolveSingleton`. */
  datatype ResolverKind = Missing | General | SingletonOnly

  predicate UniqueKeys(regs: seq<Entry>) {
    forall i, j :: 0 <= i < j < |regs| ==> regs[i].key != regs[j].key
  }

  predicate Registered(regs: seq<Entry>, k: Key) {
    exists i :: 0 <= i < |regs| && regs[i].key == k
  }

  /** One cache per entry, and a transient entry's cache is never filled. */
  predicate HeapOk(regs: seq<Entry>, st: Heap) {
    && |st.caches| == |regs|
    && forall i :: 0 <= i < |regs| && regs[i].lifetime == Transient ==> st.caches[i] == None
  }

  /** What resolution may do to the heap: filled caches keep their object and
      the instance counter never goes back. */
  predicate Keeps(st: Heap, st': Heap) {
    && |st'.caches| == |st.caches|
    && st.next <= st'.next
    && forall i :: 0 <= i < |st.caches| && st.caches[i].Some? ==> st'.caches[i] == st.caches[i]
  }

  /** Only caches of entries ranked below `bound` differ between `st` and
      `st'`. */
  predicate TouchesBelow(regs: seq<Entry>, st: Heap, st': Heap, rank: Key -> nat, bound: nat)
    requires |st.caches| == |regs| && |st'.caches| == |regs|
  {
    forall j :: 0 <= j < |regs| && st'.caches[j] != st.caches[j] ==> rank(regs[j].key) < bound
  }

  /** The dependency relation is acyclic: every key a factory requests has a
      smaller rank than the key the factory is registered for. */
  predicate Ranked(regs: seq<Entry>, rank: Key -> nat) {
    forall i, j :: 0 <= i < |regs| && 0 <= j < |regs[i].factory.requests| ==>
      rank(regs[i].factory.requests[j]) < rank(regs[i].key)
  }

  /** `serviceRegistrations.filter(r => r.type === k)[0]`: the position of the
      first entry registered for `k`. */
  function Find(regs: seq<Entry>, k: Key): (r: Option<nat>)
    ensures r.None? <==> !Registered(regs, k)
    ensures r.Some? ==> r.value < |regs| && regs[r.value].key == k
    ensures r.Some? ==> forall j :: 0 <= j < r.value ==> regs[j].key != k
  {
    if regs == [] then None
    else if regs[0].key == k then Some(0)
    else match Find(regs[1..], k)
      case None => None
      case Some(j) => Some(j + 1)
  }

  /** `AddRegistration`: the phase check, then the duplicate check, then the
      append. */
  function Add(regs: seq<Entry>, begun: bool, k: Key, f: Recipe, l: Lifetime): (r: Result<seq<Entry>>)
    ensures r.Ok? <==> !begun && !Registered(regs, k)
    ensures r.Ok? ==> r.value == regs + [Entry(k, f, l)]
    ensures begun ==> r == Err(Messages.AddAfterBegin(l, k))
    ensures !begun && UniqueKeys(regs) ==>
      forall i :: 0 <= i < |regs| && regs[i].key == k ==> r == Err(Messages.Duplicate(l, k, regs[i].lifetime))
    ensures UniqueKeys(regs) && r.Ok? ==> UniqueKeys(r.value)
  {
    if begun then Err(Messages.AddAfterBegin(l, k))
    else match Find(regs, k)
      case Some(i) => Err(Messages.Duplicate(l, k, regs[i].lifetime))
      case None => Ok(regs + [Entry(k, f, l)])
  }

  /** `Container.Resolve`. */
  function Resolve(regs: seq<Entry>, st: Heap, begun: bool, k: Key, rank: Key -> nat): (res: (Result<Instance>, Heap))
    requires HeapOk(regs, st) && Ranked(regs, rank)
    ensures HeapOk(regs, res.1) && Keeps(st, res.1)
    ensures TouchesBelow(regs, st, res.1, rank, rank(k) + 1)
    decreases rank(k), 4
  {
    ResolveInternal(regs, st, begun, k, false, rank)
  }

  /** `Container.ResolveInternal`: the two checks outside the `try`, then the
      lifetime check and the dispatch inside it, whose errors are rethrown
      wrapped with `k`'s name. */
  function ResolveInternal(regs: seq<Entry>, st: Heap, begun: bool, k: Key, mustBeASingleton: bool, rank: Key -> nat)
    : (res: (Result<Instance>, Heap))
    requires HeapOk(regs, st) && Ranked(regs, rank)
    ensures HeapOk(regs, res.1) && Keeps(st, res.1)
    ensures TouchesBelow(regs, st, res.1, rank, rank(k) + 1)
    decreases rank(k), 3
  {
    if !begun then (Err(Messages.NotBegun), st)
    else match Find(regs, k)
      case None => (Err(Messages.NotRegistered(k)), st)
      case Some(i) =>
        if mustBeASingleton && regs[i].lifetime != Singleton then
          (Err(Messages.Wrap(k, Messages.Mismatch(k, regs[i].lifetime))), st)
        else
          var inner :=
            if regs[i].lifetime == Singleton then ResolveSingleton(regs, st, begun, k, Some(i), rank)
            else EntryResolve(regs, st, begun, i, General, rank);
          (Messages.Rethrow(k, inner.0), inner.1)
  }

  /** `Container.ResolveSingleton`: with the entry at hand, resolve it with
      this very path as the callback; without, re-enter `ResolveInternal`
      demanding a singleton. */
  function ResolveSingleton(regs: seq<Entry>, st: Heap, begun: bool, k: Key, entry: Option<nat>, rank: Key -> nat)
    : (res: (Result<Instance>, Heap))
    requires HeapOk(regs, st) && Ranked(regs, rank)
    requires entry.Some? ==> entry.value < |regs| && regs[entry.value].key == k
    ensures HeapOk(regs, res.1) && Keeps(st, res.1)
    ensures TouchesBelow(regs, st, res.1, rank, rank(k) + 1)
    decreases rank(k), if entry.Some? then 2 else 4
  {
    if entry.Some? then EntryResolve(regs, st, begun, entry.value, SingletonOnly, rank)
    else ResolveInternal(regs, st, begun, k, true, rank)
  }

  /** `ServiceRegistration.resolve` for entry `i`. */
  function EntryResolve(regs: seq<Entry>, st: Heap, begun: bool, i: nat, resolver: ResolverKind, rank: Key -> nat)
    : (res: (Result<Instance>, Heap))
    requires HeapOk(regs, st) && Ranked(regs, rank) && i < |regs|
    ensures HeapOk(regs, res.1) && Keeps(st, res.1)
    ensures TouchesBelow(regs, st, res.1, rank, rank(regs[i].key) + 1)
    decreases rank(regs[i].key), 1
  {
    if resolver == Missing then (Err(Messages.ResolverRequired), st)
    else if regs[i].lifetime == Singleton then
      if st.caches[i].None? then
        var made := CallFactory(regs, st, begun, i, resolver, 0, [], rank);
        if made.0.Ok? then (made.0, made.1.(caches := made.1.caches[i := Some(made.0.value)]))
        else made
      else (Ok(st.caches[i].value), st)
    else CallFactory(regs, st, begun, i, resolver, 0, [], rank)
  }

  /** `this.factory(serviceResolver)` for entry `i`, from its `j`-th request
      on, with the objects `got` already obtained. */
  function CallFactory(regs: seq<Entry>, st: Heap, begun: bool, i: nat, resolver: ResolverKind,
                       j: nat, got: seq<Instance>, rank: Key -> nat)
    : (res: (Result<Instance>, Heap))
    requires HeapOk(regs, st) && Ranked(regs, rank) && i < |regs|
    requires resolver != Missing && j <= |regs[i].factory.requests|
    ensures HeapOk(regs, res.1) && Keeps(st, res.1)
    ensures TouchesBelow(regs, st, res.1, rank, rank(regs[i].key))
    decreases rank(regs[i].key), 0, |regs[i].factory.requests| - j
  {
    var requests := regs[i].factory.requests;
    if j == |requests| then Finish(regs[i].factory.outcome, got, st)
    else
      var dep :=
        if resolver == SingletonOnly then ResolveSingleton(regs, st, begun, requests[j], None, rank)
        else Resolve(regs, st, begun, requests[j], rank);
      if dep.0.Err? then dep
      else CallFactory(regs, dep.1, begun, i, resolver, j + 1, got + [dep.0.value], rank)
  }

  /** One request of a factory: an error aborts it, an object joins `got`. */
  lemma CallFactoryStep(regs: seq<Entry>, st: Heap, begun: bool, i: nat, resolver: ResolverKind,
                        j: nat, got: seq<Instance>, rank: Key -> nat, dep: Result<Instance>, st': Heap)
    requires HeapOk(regs, st) && Ranked(regs, rank) && i < |regs|
    requires resolver != Missing && j < |regs[i].factory.requests|
    requires (dep, st') ==
      if resolver == SingletonOnly then ResolveSingleton(regs, st, begun, regs[i].factory.requests[j], None, rank)
      else Resolve(regs, st, begun, regs[i].factory.requests[j], rank)
    ensures HeapOk(regs, st')
    ensures dep.Err? ==> CallFactory(regs, st, begun, i, resolver, j, got, rank) == (dep, st')
    ensures dep.Ok? ==>
      CallFactory(regs, st, begun, i, resolver, j, got, rank) == CallFactory(regs, st', begun, i, resolver, j + 1, got + [dep.value], rank)
  {
  }

  /** A factory whose requests have all succeeded finishes. */
  lemma CallFactoryDone(regs: seq<Entry>, st: Heap, begun: bool, i: nat, resolver: ResolverKind,
                        got: seq<Instance>, rank: Key -> nat)
    requires HeapOk(regs, st) && Ranked(regs, rank) && i < |regs| && resolver != Missing
    ensures CallFactory(regs, st, begun, i, resolver, |regs[i].factory.requests|, got, rank)
         == Finish(regs[i].factory.outcome, got, st)
  {
  }

  /** The last step of a factory, once every request has succeeded. */
  function Finish(outcome: Outcome, got: seq<Instance>, st: Heap): (res: (Result<Instance>, Heap))
    ensures res.1.caches == st.caches
    ensures outcome.Build? ==> res == (Ok(Built(st.next, got)), st.(next := st.next + 1))
    ensures !outcome.Build? ==> res.1 == st
    ensures outcome.Throw? ==> res.0 == Err(outcome.message)
    ensures outcome.Return? ==> res.0 == Ok(Given(outcome.tag))
  {
    match outcome
    case Build => (Ok(Built(st.next, got)), st.(next := st.next + 1))
    case Throw(m) => (Err(m), st)
    case Return(t) => (Ok(Given(t)), st)
  }
}
