# Service locator registry

A model of the `ServiceLocator` class of the C# design-patterns repository. It
is a registry that maps a service type to either a lazily evaluated entry
(a factory, or a ready implementation wrapped as one) or a ready singleton,
and resolves a type by preferring the singleton over the lazy entry.

- `Registry.dfy` (module `Registry`) describes the registry state as a value
  (`Locator`: the service table, the singleton table and a per-key count of
  factory invocations). It gives each operation as a function of the old
  state, states the invariant `Valid` (a pending entry's factory has never
  run, a forced one's exactly once), and proves what holds over any
  sequence of calls.
- `Container.dfy` (module `Container`) is the class `ServiceLocator` itself,
  with the two tables as `map` fields it reassigns in place and a ghost
  invocation counter. Each method is proved to produce exactly the state and
  the answer of the matching `Registry` function. `MainScenario` replays the
  registrations and resolutions of the demonstration program against the
  class.

Service types are strings (the type's name), service objects are references
(`Service(ref)`). A registration's factory is a function from its
invocation number, counted per registration, to the object that invocation
returns. A factory like `() => new DataAccess()` can therefore return a new
object each time. Resolving a pending entry runs the factory
at its current invocation number. Memoisation is therefore a theorem here:
every resolution returns the result of invocation 0, and the counter never
exceeds 1.

Two points about the code that the model keeps as written:
- The two registration paths throw different messages. The service
  registrations use one (Container.cs:36, 51) and the singleton registration
  another (Container.cs:66). The model has `AlreadyRegistered` and
  `SingletonAlreadyRegistered`.
- `RegisterSingleton` checks only the singleton table (Container.cs:64), so
  a key that already has a lazy entry is accepted. The demonstration program
  does this (Container.cs:150-152). Resolution then returns the singleton
  and never runs the factory.

## Model

| member | source | states |
|---|---|---|
| `Registry.Empty` | Container.cs:16-17 | a new locator satisfies the invariant and resolves every key to the not-registered error |
| `Registry.RegisterFactory` | Container.cs:46-54 | fails with AlreadyRegistered exactly when the key is in either table, and then changes nothing; on success adds exactly that key to the service table as a pending entry of the given factory, with invocation count 0, keeps every other entry and the singleton table, and the key then resolves to the factory's first result |
| `Registry.Register` | Container.cs:31-39 | fails with AlreadyRegistered exactly when the key is in either table, and then changes nothing; on success adds exactly that key to the service table as a pending entry whose factory returns the given implementation, with invocation count 0, keeps every other entry, its count and the singleton table, and the key then resolves to exactly that implementation |
| `Registry.RegisterSingleton` | Container.cs:61-69 | fails with SingletonAlreadyRegistered exactly when the key is already a singleton, so a key with only a lazy entry is accepted; never changes the service table or the invocation counts; on success keeps every earlier singleton and the key resolves to the given implementation |
| `Registry.Resolve` | Container.cs:76-88 | a singleton key yields its singleton with no state change, even when a lazy entry exists; a key in neither table fails with NotRegistered; otherwise yields the value the lazy entry stands for and leaves it forced; never adds or removes keys, never changes another key; the state changes only when a pending entry is forced; preserves the invariant |
| `Registry.RunPreservesValid` | Container.cs:83-86 | after any sequence of calls the invariant holds, so no factory has run more than once |
| `Registry.RunKeepsRegistrations` | Container.cs:12-89 | no sequence of calls removes a key, replaces a singleton, changes the instance a lazy entry stands for, or lowers an invocation count |
| `Registry.ResolveIsStable` | Container.cs:76-88 | once a key resolves to an instance, it resolves to the same instance after any further calls, unless a singleton is later registered over a key that so far had only a lazy entry |
| `Registry.ResolveIsStableStep` | Container.cs:76-88 | the same for one call |
| `Container.ServiceLocator.constructor` | Container.cs:16-17 | the new object starts with empty tables, satisfying the invariant |
| `Container.ServiceLocator.Register` | Container.cs:31-39 | updates the tables in place exactly as `Registry.Register`; fails on a key in either table, changing nothing; on success stores a lazy entry returning the implementation |
| `Container.ServiceLocator.RegisterFactory` | Container.cs:46-54 | updates the tables in place exactly as `Registry.RegisterFactory`; fails on a key in either table, changing nothing; on success stores a pending entry of the factory |
| `Container.ServiceLocator.RegisterSingleton` | Container.cs:61-69 | updates the tables in place exactly as `Registry.RegisterSingleton`; fails only on an existing singleton; never touches the service table |
| `Container.ServiceLocator.Resolve` | Container.cs:76-88 | answers and updates the tables exactly as `Registry.Resolve`; runs a pending factory once and stores its value in place; keeps the invariant |
| `Container.MainScenario` | Container.cs:147-156 | all three registrations succeed, including the singleton for the logger type that already has a lazy entry; the logger resolves to the singleton; the data-access type resolves to its factory's first result |

## Left out

- The process-wide `Instance` property and the private constructor: the model is one locator object.
- The casts of a resolved object to the requested type: keys and objects are untyped, so a failing cast is not modelled.
- The exception message texts: each message is one variant of `Error`.
- Thread safety of the lazy entries: the model is single-threaded.
- Factories that throw: factories are total functions, so a lazy entry that caches an exception is not modelled.
- `Registry.RegisterFactory`, `Registry.Resolve`: invocations are numbered per registration. A delegate registered under several keys is therefore modelled as independent factories, and each key resolves to that factory's first result. In the code each key's lazy entry runs the shared delegate once, and the runs can return different objects.
- `Registry.RegisterFactory`: a null factory is not modelled. In the code the lazy entry's constructor rejects it after the duplicate check.
- `Registry.Resolve`: a factory that calls back into the locator while it runs is not modelled.
- The demonstration services (`ConsoleLogger`, `DataAccess`, `DataAccessException`) and the console output of the program entry point.
- `SingletonBase.cs` and the adapter example: they delegate to library code or print to the console.
