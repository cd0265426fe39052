/** The values the container works with: service keys, lifetimes, factory
    recipes and the instances factories produce. */
module Services {

  datatype Option<T> = None | Some(value: T)

  /** The outcome of an operation that may throw: an error carries only its
      message, as a JavaScript Error does. */
  datatype Result<T> = Ok(value: T) | Err(message: string)

  /** A service key. In the source the key is a constructor function and
      lookup compares it with `===`; here two keys are the same key exactly
      when they are equal values. `name` is the constructor's `.name`, used
      only in messages. */
  datatype Key = Key(name: string, id: nat)

  datatype Lifetime = Singleton | Transient

  /** The string value of the lifetime enum, as it appears in messages. */
  function LifetimeName(l: Lifetime): (s: string)
    ensures s == "singleton" <==> l == Singleton
    ensures s == "transient" <==> l == Transient
  {
    match l
    case Singleton => "singleton"
    case Transient => "transient"
  }

  /** An object a factory produced. A `Built` object comes from the factory's
      own `new`: `id` is its identity, drawn from the container's counter, and
      `deps` are the objects the factory obtained from its resolver. A `Given`
      object was created outside the container and handed back by a factory;
      `tag` is its identity, from a space of its own, so a given object is
      never a built one. */
  datatype Instance = Built(id: nat, deps: seq<Instance>) | Given(tag: nat)

  /** What a factory does once it has obtained its dependencies: build a new
      object, throw an error, or hand back the object `Given(tag)` that was
      created before the container was asked. */
  datatype Outcome = Build | Throw(message: string) | Return(tag: nat)

  /** A factory closure, abstracted: the keys it asks its resolver for, in
      order, then its outcome. A failing request aborts the factory, since a
      closure does not catch what the resolver throws. */
  datatype Recipe = Recipe(requests: seq<Key>, outcome: Outcome)
}
