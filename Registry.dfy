/** The registry state of the service locator as a value: the two tables it
    keeps, the operations on them as functions of the old state, and what
    those operations promise over any sequence of calls. */
module Registry {

  /** The service type (`typeof(T)`) a registration is keyed by; only
      equality between keys matters. */
  type Key = string

  /** A service object, identified by its reference. */
  datatype Service = Service(ref: nat)

  /** The factory of one registration. `f(n)` is the object returned when
      this registration's lazy entry runs it for the `n`-th time (counting
      from 0), so a factory such as `() => new DataAccess()` may hand out a
      different object every time it runs. Invocations are numbered per
      registration, not per delegate. */
  type Factory = nat -> Service

  /** A lazily evaluated entry: not evaluated yet, or holding the value its
      one evaluation produced. */
  datatype Entry = Pending(factory: Factory) | Forced(value: Service)

  /** One variant per failure of the locator. */
  datatype Error =
    | AlreadyRegistered           // a service registration for a taken key
    | SingletonAlreadyRegistered  // a singleton registration for a taken key
    | NotRegistered               // resolving a key with no registration

  datatype Outcome = Pass | Fail(error: Error)

  datatype Result = Ok(value: Service) | Err(error: Error)

  /** The locator's state: the lazy service table, the singleton table, and
      the number of times each key's factory has been invoked. */
  datatype Locator = Locator(
    services: map<Key, Entry>,
    singletons: map<Key, Service>,
    invocations: map<Key, nat>)

  /** How often the factory registered for `k` has run so far. */
  function Invocations(l: Locator, k: Key): nat {
    if k in l.invocations then l.invocations[k] else 0
  }

  /** The instance a lazy entry stands for: the value it holds, or what the
      first invocation of its factory returns. */
  function Value(e: Entry): Service {
    match e
    case Pending(f) => f(0)
    case Forced(v) => v
  }

  /** The state invariant: every service entry has a counter, a pending
      entry's factory has never run and a forced one's has run exactly once. */
  ghost predicate Valid(l: Locator) {
    && l.invocations.Keys == l.services.Keys
    && forall k :: k in l.services ==>
         l.invocations[k] == (if l.services[k].Forced? then 1 else 0)
  }

  /** A freshly created locator. */
  function Empty(): (l: Locator)
    ensures Valid(l)
    ensures forall k :: Resolve(l, k) == (l, Err(NotRegistered))
  {
    Locator(map[], map[], map[])
  }

  /** Registers a factory for `k`, to be run when `k` is first resolved. */
  function RegisterFactory(l: Locator, k: Key, f: Factory): (r: (Locator, Outcome))
    ensures r.1.Fail? <==> k in l.services || k in l.singletons
    ensures r.1.Fail? ==> r.1.error == AlreadyRegistered && r.0 == l
    ensures r.1.Pass? ==> r.0.services.Keys == l.services.Keys + {k}
    ensures r.1.Pass? ==> forall k' :: k' in l.services ==>
              r.0.services[k'] == l.services[k'] && Invocations(r.0, k') == Invocations(l, k')
    ensures r.1.Pass? ==> r.0.services[k] == Pending(f) && Invocations(r.0, k) == 0
    ensures r.0.singletons == l.singletons
    ensures Valid(l) ==> Valid(r.0)
    ensures r.1.Pass? ==> Resolve(r.0, k).1 == Ok(f(0))
  {
    if k in l.services || k in l.singletons then
      (l, Fail(AlreadyRegistered))
    else
      (l.(services := l.services[k := Pending(f)], invocations := l.invocations[k := 0]), Pass)
  }

  /** The factory that always returns `s`. */
  function Constant(s: Service): Factory {
    _ => s
  }

  /** Registers a ready implementation for `k`, stored as a lazy entry whose
      factory returns it. */
  function Register(l: Locator, k: Key, impl: Service): (r: (Locator, Outcome))
    ensures r.1.Fail? <==> k in l.services || k in l.singletons
    ensures r.1.Fail? ==> r.1.error == AlreadyRegistered && r.0 == l
    ensures r.1.Pass? ==> r.0.services.Keys == l.services.Keys + {k}
    ensures r.1.Pass? ==> forall k' :: k' in l.services ==>
              r.0.services[k'] == l.services[k'] && Invocations(r.0, k') == Invocations(l, k')
    ensures r.1.Pass? ==> r.0.services[k] == Pending(Constant(impl)) && Invocations(r.0, k) == 0
    ensures r.0.singletons == l.singletons
    ensures Valid(l) ==> Valid(r.0)
    ensures r.1.Pass? ==> Resolve(r.0, k).1 == Ok(impl)
  {
    RegisterFactory(l, k, Constant(impl))
  }

  /** Registers a ready singleton for `k`. Only the singleton table is
      consulted for duplicates, so a key with a service entry is accepted. */
  function RegisterSingleton(l: Locator, k: Key, impl: Service): (r: (Locator, Outcome))
    ensures r.1.Fail? <==> k in l.singletons
    ensures r.1.Fail? ==> r.1.error == SingletonAlreadyRegistered && r.0 == l
    ensures r.1.Pass? ==> r.0.singletons.Keys == l.singletons.Keys + {k}
    ensures r.1.Pass? ==> forall k' :: k' in l.singletons ==> r.0.singletons[k'] == l.singletons[k']
    ensures r.0.services == l.services && r.0.invocations == l.invocations
    ensures Valid(l) ==> Valid(r.0)
    ensures r.1.Pass? ==> Resolve(r.0, k).1 == Ok(impl)
  {
    if k in l.singletons then
      (l, Fail(SingletonAlreadyRegistered))
    else
      (l.(singletons := l.singletons[k := impl]), Pass)
  }

  /** Resolves `k`: the singleton if there is one, else the lazy entry's
      value, running its factory if it has not run yet. */
  function Resolve(l: Locator, k: Key): (r: (Locator, Result))
    ensures r.1.Err? <==> k !in l.singletons && k !in l.services
    ensures r.1.Err? ==> r.1.error == NotRegistered && r.0 == l
    ensures k in l.singletons ==> r == (l, Ok(l.singletons[k]))
    ensures r.0.singletons == l.singletons && r.0.services.Keys == l.services.Keys
    ensures forall k' :: k' in l.services && k' != k ==>
              r.0.services[k'] == l.services[k'] && Invocations(r.0, k') == Invocations(l, k')
    ensures Valid(l) ==> Valid(r.0)
    ensures Valid(l) && k !in l.singletons && k in l.services ==>
              r.1 == Ok(Value(l.services[k])) && r.0.services[k] == Forced(Value(l.services[k]))
    ensures Valid(l) ==> (r.0 == l <==> !(k !in l.singletons && k in l.services && l.services[k].Pending?))
    ensures Valid(l) ==> forall k' :: k' in l.services ==> Value(r.0.services[k']) == Value(l.services[k'])
  {
    if k in l.singletons then
      (l, Ok(l.singletons[k]))
    else if k in l.services then
      match l.services[k]
      case Forced(v) => (l, Ok(v))
      case Pending(f) =>
        var n := Invocations(l, k);
        var v := f(n);
        (l.(services := l.services[k := Forced(v)], invocations := l.invocations[k := n + 1]), Ok(v))
    else
      (l, Err(NotRegistered))
  }

  /** A call on the locator, for reasoning about sequences of calls. */
  datatype Request =
    | RegisterCall(key: Key, impl: Service)
    | RegisterFactoryCall(key: Key, factory: Factory)
    | RegisterSingletonCall(key: Key, impl: Service)
    | ResolveCall(key: Key)

  function Apply(l: Locator, q: Request): (r: Locator)
    ensures Valid(l) ==> Valid(r)
  {
    match q
    case RegisterCall(k, s) => Register(l, k, s).0
    case RegisterFactoryCall(k, f) => RegisterFactory(l, k, f).0
    case RegisterSingletonCall(k, s) => RegisterSingleton(l, k, s).0
    case ResolveCall(k) => Resolve(l, k).0
  }

  /** The state after the calls `qs`, made in order from `l`. */
  function Run(l: Locator, qs: seq<Request>): Locator
    decreases |qs|
  {
    if qs == [] then l else Run(Apply(l, qs[0]), qs[1..])
  }

  /** No sequence of calls breaks the invariant: in particular no factory
      ever runs more than once. */
  lemma {:induction false} RunPreservesValid(l: Locator, qs: seq<Request>)
    requires Valid(l)
    ensures Valid(Run(l, qs))
    ensures forall k :: Invocations(Run(l, qs), k) <= 1
    decreases |qs|
  {
    if qs != [] {
      RunPreservesValid(Apply(l, qs[0]), qs[1..]);
    }
  }

  /** Registrations are never removed: every key stays in its table, a
      singleton is never replaced, a lazy entry keeps standing for the same
      instance, and invocation counters never go down. */
  lemma {:induction false} RunKeepsRegistrations(l: Locator, qs: seq<Request>)
    requires Valid(l)
    ensures var l' := Run(l, qs);
      && l.services.Keys <= l'.services.Keys
      && (forall k :: k in l.services ==> Value(l'.services[k]) == Value(l.services[k]))
      && (forall k :: k in l.singletons ==> k in l'.singletons && l'.singletons[k] == l.singletons[k])
      && (forall k :: Invocations(l, k) <= Invocations(Run(l, qs), k))
    decreases |qs|
  {
    if qs != [] {
      var l1 := Apply(l, qs[0]);
      assert forall k :: Invocations(l, k) <= Invocations(l1, k);
      RunKeepsRegistrations(l1, qs[1..]);
    }
  }

  /** No call in `qs` registers a singleton for `k`. */
  ghost predicate NoSingletonFor(qs: seq<Request>, k: Key) {
    forall i :: 0 <= i < |qs| ==> !(qs[i].RegisterSingletonCall? && qs[i].key == k)
  }

  lemma NoSingletonForTail(qs: seq<Request>, k: Key)
    requires qs != [] && NoSingletonFor(qs, k)
    ensures !(qs[0].RegisterSingletonCall? && qs[0].key == k) && NoSingletonFor(qs[1..], k)
  {
  }

  /** One call does not change what a resolvable key resolves to. */
  lemma ResolveIsStableStep(l: Locator, q: Request, k: Key, v: Service)
    requires Valid(l)
    requires Resolve(l, k).1 == Ok(v)
    requires k in l.singletons || !(q.RegisterSingletonCall? && q.key == k)
    ensures Resolve(Apply(l, q), k).1 == Ok(v)
  {
  }

  /** Once a key resolves to an instance, it keeps resolving to that same
      instance, whatever calls follow, unless a singleton is later registered
      over a key that so far had only a lazy entry. */
  lemma {:induction false} ResolveIsStable(l: Locator, qs: seq<Request>, k: Key, v: Service)
    requires Valid(l)
    requires Resolve(l, k).1 == Ok(v)
    requires k in l.singletons || NoSingletonFor(qs, k)
    ensures Resolve(Run(l, qs), k).1 == Ok(v)
    decreases |qs|
  {
    if qs != [] {
      var l1 := Apply(l, qs[0]);
      ResolveIsStableStep(l, qs[0], k, v);
      assert k in l1.singletons || NoSingletonFor(qs[1..], k) by {
        if k !in l1.singletons {
          NoSingletonForTail(qs, k);
        }
      }
      ResolveIsStable(l1, qs[1..], k, v);
    }
  }
}
