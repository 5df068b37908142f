/** The service locator object: two tables it updates in place, and the
    registration and resolution methods over them. */
module Container {
  import opened Registry

  class ServiceLocator {
    /** Lazy service entries, keyed by service type. */
    var services: map<Key, Entry>
    /** Ready singleton instances, keyed by service type. */
    var singletons: map<Key, Service>
    /** How often each key's factory has run: bookkeeping for the proof only. */
    ghost var invocations: map<Key, nat>

    /** The object's state as a registry value. */
    ghost function State(): Locator
      reads this
    {
      Locator(services, singletons, invocations)
    }

    ghost predicate Valid()
      reads this
    {
      Registry.Valid(State())
    }

    constructor ()
      ensures Valid() && State() == Empty()
      ensures forall k :: Registry.Resolve(State(), k).1 == Err(NotRegistered)
    {
      services := map[];
      singletons := map[];
      invocations := map[];
    }

    /** Registers a ready implementation for `key` as a lazy entry. */
    method Register(key: Key, implementation: Service) returns (o: Outcome)
      requires Valid()
      modifies this
      ensures Valid()
      ensures (State(), o) == Registry.Register(old(State()), key, implementation)
      ensures o.Fail? <==> key in old(services) || key in old(singletons)
      ensures o.Fail? ==> o.error == AlreadyRegistered && unchanged(this)
      ensures o.Pass? ==> services == old(services)[key := Pending(Constant(implementation))]
      ensures singletons == old(singletons)
    {
      if key in services || key in singletons {
        return Fail(AlreadyRegistered);
      }
      services := services[key := Pending(Constant(implementation))];
      invocations := invocations[key := 0];
      o := Pass;
    }

    /** Registers a factory for `key`, to run when `key` is first resolved. */
    method RegisterFactory(key: Key, factory: Factory) returns (o: Outcome)
      requires Valid()
      modifies this
      ensures Valid()
      ensures (State(), o) == Registry.RegisterFactory(old(State()), key, factory)
      ensures o.Fail? <==> key in old(services) || key in old(singletons)
      ensures o.Fail? ==> o.error == AlreadyRegistered && unchanged(this)
      ensures o.Pass? ==> services == old(services)[key := Pending(factory)]
      ensures singletons == old(singletons)
    {
      if key in services || key in singletons {
        return Fail(AlreadyRegistered);
      }
      services := services[key := Pending(factory)];
      invocations := invocations[key := 0];
      o := Pass;
    }

    /** Registers a ready singleton for `key`; only the singleton table is
        checked for a duplicate. */
    method RegisterSingleton(key: Key, implementation: Service) returns (o: Outcome)
      requires Valid()
      modifies this
      ensures Valid()
      ensures (State(), o) == Registry.RegisterSingleton(old(State()), key, implementation)
      ensures o.Fail? <==> key in old(singletons)
      ensures o.Fail? ==> o.error == SingletonAlreadyRegistered && unchanged(this)
      ensures o.Pass? ==> singletons == old(singletons)[key := implementation]
      ensures services == old(services)
    {
      if key in singletons {
        return Fail(SingletonAlreadyRegistered);
      }
      singletons := singletons[key := implementation];
      o := Pass;
    }

    /** Resolves `key`: the singleton first, then the lazy entry, whose
        factory runs on the first resolution and whose value is kept. */
    method Resolve(key: Key) returns (r: Result)
      requires Valid()
      modifies this
      ensures Valid()
      ensures (State(), r) == Registry.Resolve(old(State()), key)
      ensures r.Err? <==> key !in old(singletons) && key !in old(services)
      ensures r.Err? ==> r.error == NotRegistered
      ensures key in old(singletons) ==> r == Ok(old(singletons)[key]) && unchanged(this)
      ensures key !in old(singletons) && key in old(services) ==>
                r == Ok(Value(old(services)[key])) && services == old(services)[key := Forced(r.value)]
      ensures singletons == old(singletons) && services.Keys == old(services).Keys
    {
      if key in singletons {
        return Ok(singletons[key]);
      }
      if key in services {
        match services[key] {
          case Forced(v) =>
            r := Ok(v);
          case Pending(factory) =>
            // the invariant says this factory has never run: this is its first invocation
            assert Invocations(State(), key) == 0;
            var v := factory(0);
            services := services[key := Forced(v)];
            invocations := invocations[key := 1];
            r := Ok(v);
        }
        return;
      }
      r := Err(NotRegistered);
    }
  }

  /** The registration and resolution sequence of the demonstration program:
      an instance for the logger type, a factory for the data-access type,
      then a singleton for the logger type, which is accepted although the
      logger type already has a lazy entry, and which resolution prefers. */
  method MainScenario(first: Service, second: Service, factory: Factory)
    returns (registered: seq<Outcome>, logger: Result, dataAccess: Result)
    ensures registered == [Pass, Pass, Pass]
    ensures logger == Ok(second)
    ensures dataAccess == Ok(factory(0))
  {
    var locator := new ServiceLocator();
    var o1 := locator.Register("ILogger", first);
    var o2 := locator.RegisterFactory("IDataAccess", factory);
    var o3 := locator.RegisterSingleton("ILogger", second);
    registered := [o1, o2, o3];
    logger := locator.Resolve("ILogger");
    dataAccess := locator.Resolve("IDataAccess");
  }
}
