# ts-simple-ioc in Dafny

A model of the core of `ts-simple-ioc`, a small dependency-injection
container for TypeScript, together with proofs about it.

A `Container` goes through two phases. While it is configured,
`AddSingleton` and `AddTransient` append registrations to its registry.
`BeginResolution` moves it, for good, into the resolving phase. From then
on, `Resolve` looks a key up and calls the registration's factory. The
factory receives a resolver callback that it uses to obtain its own
dependencies.

- A singleton registration caches the first object its factory returns.
- A singleton's factory receives a resolver that insists every dependency,
  at any depth, is a singleton too.
- An error raised below the top frame is rethrown at every frame it passes
  through. Each rethrow prefixes the message with `Could not resolve
  <name>:\r\n- ` and doubles the first dash of the inner message. This
  builds a trace.

The project has six modules, one per file:

- `Services` (`services.dfy`): the values.
  - Keys, lifetimes and their message strings.
  - Objects: `Built(id, deps)` is made by a factory's `new`, numbered by
    the container's counter; `Given(tag)` was created outside the container
    and handed back by a factory. The two never coincide.
  - Factory recipes: the keys a factory requests, in order, then what it
    does (build a new object, throw, or return an existing object).
  - `Result`/`Option`.
- `Messages` (`messages.dfy`): every message the container builds, the
  first-dash doubling of the `catch` in `ResolveInternal`, and lemmas about
  the traces it produces. The two fixed messages are the constants
  `NotBegun` (src/Container.ts:37) and `ResolverRequired`
  (src/ServiceRegistration.ts:15); the lemmas that state them are
  `Properties.TopLevelFailuresAreNotWrapped` and
  `Properties.MissingResolverFails`.
- `Semantics` (`semantics.dfy`): a reference semantics as pure functions.
  - The registry is a sequence of entries.
  - Resolution is a set of mutually recursive functions over a heap. The
    heap holds every entry's singleton cache and a counter that gives each
    built object its identity.
- `Ioc` (`container.dfy`): the two classes of the source.
  - `Container` has the fields `registrations` and `hasBegunResolution`.
    A successful add reassigns `registrations` to the old sequence with the
    new registration at its end, which stands for the source's `push`.
  - `ServiceRegistration` has the fixed `key`, `factory` and `lifetime` and
    the mutable `singletonInstance`.
  - Their methods call each other recursively, as the source's do. Each
    method is proved to compute its `Semantics` function on the abstract
    state `State()` of the container.
- `Properties` (`properties.dfy`): what the container promises, proved of
  the semantics.
  - The registry keeps unique keys.
  - Singletons are cached and returned identically.
  - Transients are rebuilt, and a built object differs from every object
    that existed before.
  - A failed singleton is retried.
  - The lifetime rule holds at every depth.
  - The wrapped traces have an exact shape.
- `Scenarios` (`scenarios.dfy`): each outcome the test suite asserts, on the
  registries the tests build, with the exact expected strings.

Acyclicity is a precondition. A ghost `rank: Key -> nat` must decrease
along every dependency (`Semantics.Ranked`). The source has no cycle
detection, so a cycle there recurses until the stack overflows.

`Container.ts` calls `service.Resolve(...)` on a registration
(src/Container.ts:57 and 94), but `ServiceRegistration` declares the method
as `resolve` (src/ServiceRegistration.ts:13). The model treats the two as
one method, `Ioc.ServiceRegistration.Resolve`.

The rethrow replaces `/-/` with `--`. That regular expression has no `g`
flag, so only the first dash of the inner message is doubled. Doubling
every dash would deepen every line of the trace; the code doubles only the
first, and `Messages.WrapThrice` shows the effect: from the third frame
down, every line keeps `-- `.

## Model

| member | source | states |
|---|---|---|
| Services.LifetimeName | test/Container/AddSingleton.Spec.ts:12-13 | the lifetime's string is `"singleton"` exactly for singletons and `"transient"` exactly for transients |
| Messages.FirstDash | src/Container.ts:61 | the position it returns holds a dash with no dash before it; it returns nothing exactly when the string has no dash |
| Messages.DoubleFirstDash | src/Container.ts:61 | `replace(/-/, "--")` itself: the first dash becomes two and the rest is copied; its characterisation is `Messages.DoubleFirstDashSpec` |
| Messages.Heading | src/Container.ts:60 | the first line of a rethrown error: `Could not resolve <name>:` and the line break |
| Messages.Wrap | src/Container.ts:59-61 | the message the `catch` throws: the heading, `- `, then the inner message with its first dash doubled |
| Messages.NotRegistered | src/Container.ts:42 | `No registered <name> was found.` |
| Messages.Mismatch | src/Container.ts:48-50 | `Cannot resolve a singleton <name> as it was registered as a <lifetime>.`, naming the lifetime the key is registered with |
| Messages.AddAfterBegin | src/Container.ts:71 | `Cannot add a <lifetime> <name> because resolution has begun.`, naming the lifetime being added |
| Messages.Duplicate | src/Container.ts:76-78 | `Cannot add a <lifetime> <name> because a <existing> service registration has already been added.`, naming both the lifetime being added and the existing entry's |
| Messages.DoubleFirstDashSpec | src/Container.ts:61 | `replace(/-/, "--")` leaves a dash-free message alone; otherwise it inserts exactly one `-` right before the first dash and changes nothing else |
| Messages.DoubleFirstDashAfter | src/Container.ts:61 | the replacement passes over a dash-free prefix unchanged |
| Messages.DoubleLeadingDash | src/Container.ts:61 | a line that starts with `- ` gets `-- ` |
| Messages.Rethrow | src/Container.ts:58-62 | the `catch` passes a success through unchanged and keeps failure as failure; a failure's message becomes the wrapped message for the frame's key |
| Messages.WrapTwice | src/Container.ts:58-62 | an error rethrown at two frames has the two-level trace: outer heading, `- `, inner heading, `-- `, then the original message with its first dash doubled |
| Messages.WrapThrice | src/Container.ts:58-62 | at three frames the third line also starts with `-- ` and not `--- `, because only the first dash is doubled |
| Messages.NotRegisteredKeepsDashes | src/Container.ts:42 | when the key's name has no dash, the not-registered message has no dash, so wrapping copies it verbatim |
| Messages.MismatchKeepsDashes | src/Container.ts:47-51 | the same holds for the lifetime-mismatch message |
| Semantics.Find | src/Container.ts:40-43 | the lookup by identity returns the first entry with the key; it returns nothing exactly when the key is not registered |
| Semantics.Add | src/Container.ts:65-87 | an add succeeds exactly when resolution has not begun and the key is new; success appends exactly the new entry and keeps keys unique; after `BeginResolution` it fails with the phase message; a duplicate fails with a message naming the existing entry's lifetime |
| Semantics.Resolve | src/Container.ts:23-25 | resolution keeps a well-formed heap; a cache once filled keeps its object; the instance counter never goes back; only entries ranked at or below the key are touched |
| Semantics.ResolveInternal | src/Container.ts:32-63 | the same heap guarantees for the checks, the lifetime check, the dispatch and the rethrow |
| Semantics.ResolveSingleton | src/Container.ts:89-98 | the same heap guarantees for both paths: with the entry at hand, and re-entering with `mustBeASingleton` |
| Semantics.EntryResolve | src/ServiceRegistration.ts:13-27 | the same heap guarantees for the registration's `resolve`, including the cache fill |
| Semantics.CallFactory | src/ServiceRegistration.ts:18-26 | a factory call keeps the heap well-formed and monotone, and never touches the cache of its own entry or of any entry ranked at or above it |
| Semantics.CallFactoryStep | src/ServiceRegistration.ts:20 | one request of a factory: an error aborts the factory with that error; an object is appended to the dependencies obtained |
| Semantics.CallFactoryDone | src/ServiceRegistration.ts:20 | once all requests have succeeded, the factory finishes with what it obtained |
| Semantics.Finish | src/ServiceRegistration.ts:20 | a building factory returns a new object whose identity is the counter's value, holding its dependencies, and advances the counter; a throwing factory fails with its message; a returning factory gives back its object; no cache changes |
| Ioc.KindOf | src/Container.ts:57 | the callback is absent exactly when none was given, and is the singleton-only path exactly when `ResolveSingleton` was bound |
| Ioc.EntriesOf | src/Container.ts:6 | the entries are the registrations' fixed parts, position by position |
| Ioc.ServiceRegistration.constructor | src/ServiceRegistration.ts:5-11 | key, factory and lifetime are the given ones and the singleton cache starts out empty |
| Ioc.ServiceRegistration.Resolve | src/ServiceRegistration.ts:13-27 | without a resolver it fails with `serviceResolver is required.` and leaves the cache alone; with one it computes `Semantics.EntryResolve` on the container's state, keeping the container valid and its registry and phase unchanged |
| Ioc.ServiceRegistration.CallFactory | src/ServiceRegistration.ts:20 | calling the factory computes `Semantics.CallFactory` from the first request |
| Ioc.ServiceRegistration.Gather | src/ServiceRegistration.ts:20 | the loop over the factory's requests stops at the first failure with exactly the semantics' result; if all succeed, what the factory does next is `Semantics.Finish` of the objects it obtained |
| Ioc.Container.constructor | src/Container.ts:5-7 | a new container has an empty registry, has not begun resolution and is valid |
| Ioc.Container.AddSingleton | src/Container.ts:9-14 | `Semantics.Add` with lifetime singleton on the registry; it returns the same container on success; the registry is unchanged on failure |
| Ioc.Container.AddTransient | src/Container.ts:16-21 | the same with lifetime transient |
| Ioc.Container.AddRegistration | src/Container.ts:65-87 | the new registry is `Semantics.Add` of the old one; success appends one fresh registration with an empty cache and keeps the earlier registrations as the same objects; failure changes nothing |
| Ioc.Container.BeginResolution | src/Container.ts:27-30 | the flag is set and the same container is returned; only the flag may change, so repeating it changes nothing |
| Ioc.Container.Resolve | src/Container.ts:23-25 | result and new state are `Semantics.Resolve` of the old state; registry and phase are unchanged, so nothing sets the flag back |
| Ioc.Container.ResolveInternal | src/Container.ts:32-63 | result and new state are `Semantics.ResolveInternal` of the old state |
| Ioc.Container.ResolveSingleton | src/Container.ts:89-98 | result and new state are `Semantics.ResolveSingleton`, with the entry or without it |
| Ioc.Container.Callback | src/Container.ts:94 | a call through either bound resolver is the matching semantics function |
| Ioc.Container.Finish | src/ServiceRegistration.ts:20 | result and new state are `Semantics.Finish` |
| Ioc.Container.Allocate | src/ServiceRegistration.ts:20 | a built object takes the counter's value as its identity and the counter advances by one |
| Ioc.Container.CachesAfterFill | src/ServiceRegistration.ts:20 | the assignment to `singletonInstance` changes exactly that entry's cache in the abstract state |
| Properties.FindsTheEntry | src/Container.ts:40 | with unique keys, looking up an entry's key finds that entry |
| Properties.KindFor | src/Container.ts:53-57 | a registration reached by key gets a resolver, and it is the singleton-only one exactly for a singleton |
| Properties.ResolveByEntry | src/Container.ts:45-62 | once resolution has begun, resolving a registered key either fails the lifetime check with the wrapped mismatch message, or is the entry's `resolve` with the callback its lifetime calls for, rethrown wrapped |
| Properties.AddOutcomes | src/Container.ts:70-79 | for a key that is already present, adding fails with the phase message after `BeginResolution` and otherwise with the message naming the existing entry's lifetime |
| Properties.AddOrderIrrelevant | src/Container.ts:74-86 | registering two different keys in either order gives registries that agree on every lookup |
| Properties.TopLevelFailuresAreNotWrapped | src/Container.ts:36-43 | resolving before `BeginResolution`, or resolving an unregistered key, fails with the bare message and changes nothing |
| Properties.SingletonResultIsCached | src/ServiceRegistration.ts:18-23 | a singleton resolution that succeeds leaves its result in the entry's cache |
| Properties.CachedSingletonIsReturned | src/ServiceRegistration.ts:19-23 | a singleton with a filled cache resolves to the cached object and changes nothing, so the factory is not run |
| Properties.SingletonResolvedTwiceIsSame | test/Container/Resolve.Spec.ts:48-56 | resolving a singleton twice gives the identical object, and the second resolution changes nothing |
| Properties.PrebuiltSingletonIsReturned | src/ServiceRegistration.ts:18-23 | a singleton whose factory ends by returning an object created before, whatever it requested first, resolves, when it succeeds, to exactly that object, which is then cached; with no requests it always succeeds and nothing else changes |
| Properties.ReturningFactoryGivesItsObject | src/ServiceRegistration.ts:20 | a factory that ends by returning a given object returns exactly that object whenever its requests succeed |
| Properties.MissingResolverFails | src/ServiceRegistration.ts:14-16 | without a resolver `resolve` fails before the factory or the cache is touched |
| Properties.TransientRunsFactory | src/ServiceRegistration.ts:26 | a transient's `resolve` is its factory call on every call, and its cache stays empty |
| Properties.FailedSingletonIsRetried | src/ServiceRegistration.ts:19-20 | if a singleton's factory fails, the cache stays empty and the next `resolve` runs the factory again |
| Properties.BuiltInstanceIsNew | test/Container/Resolve.Spec.ts:125 | an object a factory builds differs from every object that existed when the factory was called (every given object and every object numbered below the counter), and the counter moves just past its number |
| Properties.TransientBuildsAreDistinct | test/Container/Resolve.Spec.ts:123-131 | resolving a building transient twice gives two distinct objects |
| Properties.TransientIsNew | src/ServiceRegistration.ts:26 | a building transient resolves to an object that differs from every object cached before and from every object that existed before |
| Properties.ResolutionKeepsIdentities | src/ServiceRegistration.ts:18-26 | resolution keeps every cached object one that already existed, and what it returns exists once it returns, so no later build can produce it again |
| Properties.NumberedResolveInternal | src/Container.ts:32-63 | the same for `ResolveInternal`, by induction together with the two lemmas below |
| Properties.NumberedEntryResolve | src/ServiceRegistration.ts:13-27 | the same for a registration's `resolve`, including the object it caches |
| Properties.NumberedCallFactory | src/ServiceRegistration.ts:20 | the same for a factory call, request by request |
| Properties.ClosedResolveInternal | src/Container.ts:47-57 | resolution keeps every filled cache singleton-closed; a successful resolution that demands a singleton, or is of a singleton, resolved a key whose whole dependency graph is singletons |
| Properties.ClosedEntryResolve | src/ServiceRegistration.ts:18-26 | the same for a registration's `resolve` with the callback its lifetime gets |
| Properties.ClosedCallFactory | src/Container.ts:94 | a factory that succeeds through the singleton-only resolver requested only keys whose dependency graphs are all singletons |
| Properties.SingletonDependenciesAreSingletons | src/Container.ts:89-97 | the lifetime rule: starting from closed caches, a singleton that resolves has only singletons in its dependency graph, at any depth, and the caches stay closed |
| Properties.EmptyCachesAreClosed | src/ServiceRegistration.ts:6 | a container whose caches are all empty, as at the start of resolution, satisfies that premise |
| Properties.SingletonRequestRefusesTransient | src/Container.ts:47-51 | a transient requested through the singleton-only resolver fails with the mismatch message, wrapped once at its own frame |
| Properties.SingletonOnTransientTrace | test/Container/Resolve.Spec.ts:74-90 | a singleton whose first request is a transient fails with the exact two-level trace |
| Properties.MissingDependencyTrace | test/Container/Resolve.Spec.ts:58-72 | a service whose first request is unregistered fails with the exact one-level trace, whatever its lifetime |
| Properties.TransientReceivesItsDependency | src/Container.ts:57 | a transient's factory gets the unrestricted resolver: its dependency is resolved as a top-level `Resolve` would resolve it, whatever its lifetime, and the new object holds the result |
| Properties.SingletonReceivesItsDependency | src/Container.ts:93-97 | a singleton's factory resolves its dependency demanding a singleton; the new object holds it and is cached |
| Properties.TransientOverSingleton | test/Container/Resolve.Spec.ts:133-151 | two resolutions of a transient built on a singleton give distinct objects holding the same singleton, which is cached |
| Scenarios.AddTwiceIsRefused | test/Container/AddSingleton.Spec.ts:6-14 | the second add of `TestService` fails with the exact duplicate message, for either lifetime |
| Scenarios.AddAfterBeginIsRefused | test/Container/AddSingleton.Spec.ts:16-21 | an add after `BeginResolution` fails with the exact phase message, for either lifetime |
| Scenarios.ResolveBeforeBegin | test/Container/Resolve.Spec.ts:8-16 | the exact not-begun message |
| Scenarios.ResolveUnregistered | test/Container/Resolve.Spec.ts:18-22 | the exact not-registered message |
| Scenarios.SingletonResolves | test/Container/Resolve.Spec.ts:24-33 | a registered singleton resolves to a new object |
| Scenarios.SingletonInstanceIsReturned | test/Container/Resolve.Spec.ts:35-46 | the prebuilt object itself is returned |
| Scenarios.SingletonResolvedTwice | test/Container/Resolve.Spec.ts:48-56 | both resolutions succeed with the same object |
| Scenarios.TransientResolves | test/Container/Resolve.Spec.ts:112-121 | a registered transient resolves to a new object |
| Scenarios.TransientResolvedTwice | test/Container/Resolve.Spec.ts:123-131 | both resolutions succeed with different objects |
| Scenarios.SingletonWithMissingDependency | test/Container/Resolve.Spec.ts:58-72 | the exact one-level trace |
| Scenarios.SingletonWithTransientDependency | test/Container/Resolve.Spec.ts:74-90 | the exact two-level trace |
| Scenarios.SingletonWithSingletonDependency | test/Container/Resolve.Spec.ts:92-110 | a singleton built on a singleton resolves, holds the dependency, and both are cached |
| Scenarios.TransientWithSingletonDependency | test/Container/Resolve.Spec.ts:133-151 | a transient built on a singleton registered first resolves and holds the singleton; the property-injection test at lines 173-192 has the same registry here |
| Scenarios.TransientWithTransientDependency | test/Container/Resolve.Spec.ts:153-171 | a transient built on a transient resolves and holds a new object of the dependency |
| Scenarios.ReadmeExample | src/Container.ts:57 | the registry of the README example test (the file ReadmeExample.Spec.ts, lines 7-19): a transient registered before the singleton it depends on resolves through the unrestricted resolver and holds that singleton |

## Left out

- Factories that run arbitrary code. A factory is a recipe: the keys it requests, in order, then build, throw or return a given object. A closure that catches a resolver error, or chooses its requests by what it got back, is not modelled.
- Cyclic dependencies. Every resolution requires a rank that decreases along dependencies. The source recurses until the stack overflows; the model says nothing about that case.
- The rank (`Semantics.Ranked`) covers the whole registry, not only the keys one resolution reaches. A key whose own dependency graph is acyclic resolves in the source even when a cycle sits elsewhere in the registry; the model says nothing about such a registry.
- JavaScript truthiness of the cache: `if (!this.singletonInstance)` (src/ServiceRegistration.ts:19) would re-run a factory whose result is falsy. The cache is an `Option`, and objects are never falsy here.
- Object identity and allocation. "The same object" is equality of values. An object a factory builds with `new` is `Built` with the counter's next number; an object a factory hands back was created outside the container and is `Given`, with an identity from a separate space. A factory that hands back an object it obtained from the container is not modelled.
- Keys are values with a name and an identity. They stand for TypeScript constructor types compared with `===`. Generics and the tests' `instanceof` checks are not modelled.
- src/ServiceLifetime.ts is not part of this model. Its string values `"singleton"` and `"transient"` are taken from the test messages.
- src/ServiceFactory.ts and src/ServiceResolver.ts are type aliases with no behaviour. Their shapes became `Recipe` and `Ioc.Resolver`.
- The test framework. Jest's `toThrowError(string)` only checks that the message contains the string. Each scenario states the whole message instead.
- Property injection. The test at test/Container/Resolve.Spec.ts:173-192 sets the dependency on a property after `new`; a recipe cannot tell this from constructor injection, so `Scenarios.TransientWithSingletonDependency` covers it. The tests' `instanceof` checks become statements of which object is returned.
- Ioc.Container.BeginResolution: idempotence and the flag never going back to `false` follow from the frames (`modifies`) and from `Same` in the resolution methods; there is no separate lemma.
- Exceptions are `Result` values that carry only a message, as far as the container inspects them.
- Concurrency. There is none: everything is synchronous.
