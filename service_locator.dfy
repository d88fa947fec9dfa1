/**
 * The service locator: a registry of services by name, where each name is
 * registered once and never replaced. Services are of any type `S` (the
 * source stores `interface{}` values).
 */
module ServiceLocators {
  import opened Wrappers

  function NotFoundMessage(name: string): string {
    "Service " + name + " not found"
  }

  function AlreadyExistsMessage(name: string): string {
    "Service " + name + " already exists"
  }

  /** What `Add` does to the registry: the new registry and the error, if any. */
  function Added<S>(services: map<string, S>, name: string, service: S): (r: (map<string, S>, Option<string>))
    ensures name in services <==> r.1.Some?
    ensures name in services ==> r.0 == services && r.1.value == AlreadyExistsMessage(name)
    ensures name !in services ==> r.0.Keys == services.Keys + {name} && r.0[name] == service
    ensures forall n :: n in services ==> n in r.0 && r.0[n] == services[n]
  {
    if name in services then (services, Some(AlreadyExistsMessage(name)))
    else (services[name := service], None)
  }

  /** What `Get` finds in the registry; a missing name is the source's panic. */
  function Lookup<S>(services: map<string, S>, name: string): (r: Result<S>)
    ensures r.Ok? <==> name in services
    ensures r.Ok? ==> r.value == services[name]
    ensures r.Err? ==> r.error == NotFoundMessage(name)
  {
    if name in services then Ok(services[name]) else Err(NotFoundMessage(name))
  }

  class ServiceLocator<S> {
    var services: map<string, S>

    /** `NewServiceLocator`: an empty registry. */
    constructor()
      ensures services == map[]
    {
      services := map[];
    }

    /** `Get`: the service registered under `name`. */
    method Get(name: string) returns (r: Result<S>)
      ensures r == Lookup(services, name)
    {
      if name !in services {
        return Err(NotFoundMessage(name));
      }
      return Ok(services[name]);
    }

    /** `Add`: registers `service` under `name` unless the name is taken. */
    method Add(name: string, service: S) returns (err: Option<string>)
      modifies this
      ensures (services, err) == Added(old(services), name, service)
    {
      if name in services {
        return Some(AlreadyExistsMessage(name));
      }
      services := services[name := service];
      return None;
    }
  }

  /**
   * `GetServiceLocator`: the first locator passed, or `defaultLocator` (the
   * package-level `DefaultServiceLocator`) when none or nil is passed.
   */
  function GetServiceLocator<S>(maybeLocators: seq<ServiceLocator?<S>>, defaultLocator: ServiceLocator<S>)
    : (r: ServiceLocator<S>)
    ensures r == defaultLocator || (|maybeLocators| > 0 && r == maybeLocators[0])
    ensures |maybeLocators| > 0 && maybeLocators[0] != null ==> r == maybeLocators[0]
  {
    if |maybeLocators| == 0 || maybeLocators[0] == null then defaultLocator else maybeLocators[0]
  }

  // ---- properties of the registry ----

  /** A service added under a free name is what `Get` then returns. */
  lemma AddThenGet<S>(services: map<string, S>, name: string, service: S)
    requires name !in services
    ensures Lookup(Added(services, name, service).0, name) == Ok(service)
  {
  }

  /** Adding under another name does not change what `Get` returns for `name`. */
  lemma AddKeepsOthers<S>(services: map<string, S>, name: string, other: string, service: S)
    requires other != name
    ensures Lookup(Added(services, other, service).0, name) == Lookup(services, name)
  {
  }

  /** The first registration under a name wins: a second `Add` fails and `Get` keeps the first. */
  lemma FirstAddWins<S>(services: map<string, S>, name: string, first: S, second: S)
    requires name !in services
    ensures var afterFirst := Added(services, name, first).0;
            Added(afterFirst, name, second).1 == Some(AlreadyExistsMessage(name))
            && Lookup(Added(afterFirst, name, second).0, name) == Ok(first)
  {
  }

  /** Registering a list of services: each add in turn, every error collected. */
  function AddAll<S>(services: map<string, S>, entries: seq<(string, S)>): (r: (map<string, S>, seq<string>))
    decreases |entries|
  {
    if |entries| == 0 then (services, [])
    else
      var step := Added(services, entries[0].0, entries[0].1);
      var rest := AddAll(step.0, entries[1..]);
      (rest.0, (if step.1.Some? then [step.1.value] else []) + rest.1)
  }

  /**
   * Registration never removes or replaces a service: after any sequence of
   * adds, every name registered before still maps to its service, and
   * every name added is registered.
   */
  lemma {:induction false} AddAllKeeps<S>(services: map<string, S>, entries: seq<(string, S)>)
    ensures forall n :: n in services ==> Lookup(AddAll(services, entries).0, n) == Lookup(services, n)
    ensures forall i :: 0 <= i < |entries| ==> entries[i].0 in AddAll(services, entries).0
    decreases |entries|
  {
    if |entries| > 0 {
      var step := Added(services, entries[0].0, entries[0].1);
      AddAllKeeps(step.0, entries[1..]);
      forall i | 0 <= i < |entries| ensures entries[i].0 in AddAll(services, entries).0 {
        if i > 0 {
          assert entries[i] == entries[1..][i - 1];
        }
      }
    }
  }
}
