/** The admin API's updates of the shared port-to-service map: post, delete, put and two-step reload. */
module ControlPlanes {
  /** A route by its id and everything else about it. */
  datatype Route = Route(id: string, content: string)
  datatype Service = Service(listenPort: int, protocol: string, routes: seq<Route>)
  datatype Config = Config(settings: string, services: map<int, Service>)

  datatype Outcome = Done | Refused

  /** Each service is filed under its own port. */
  ghost predicate WellFormed(c: Config) {
    forall port :: port in c.services ==> c.services[port].listenPort == port
  }

  /** Some order in which iteration yields the ports. */
  ghost predicate Enumerates(order: seq<int>, services: map<int, Service>) {
    && Filed(order, services)
    && (forall i, j :: 0 <= i < j < |order| ==> order[i] != order[j])
    && forall port :: port in services ==> port in order
  }

  predicate Filed(order: seq<int>, services: map<int, Service>) {
    forall n :: 0 <= n < |order| ==> order[n] in services
  }

  /** The route is served at the port. */
  predicate InForce(c: Config, port: int, route: Route) {
    port in c.services && route in c.services[port].routes
  }

  // ---------------------------------------------------------------- loading

  /** `deserialize_service_config`: a later service with the same port replaces an earlier one. */
  function Loaded(services: seq<Service>): map<int, Service> {
    if services == [] then map[]
    else
      var last := services[|services| - 1];
      Loaded(services[..|services| - 1])[last.listenPort := last]
  }

  method Load(services: seq<Service>) returns (loaded: map<int, Service>)
    ensures loaded == Loaded(services)
  {
    loaded := map[];
    for n := 0 to |services|
      invariant loaded == Loaded(services[..n])
    {
      assert services[..n + 1][..n] == services[..n];
      loaded := loaded[services[n].listenPort := services[n]];
    }
    assert services[..|services|] == services;
  }

  // ---------------------------------------------------------------- the updates on values

  /** The first port in iteration order whose service listens on `port`. */
  function FirstListening(services: map<int, Service>, order: seq<int>, port: int, n: nat): (k: nat)
    requires n <= |order| && Filed(order, services)
    ensures n <= k <= |order|
    ensures forall m :: n <= m < k ==> services[order[m]].listenPort != port
    ensures k < |order| ==> services[order[k]].listenPort == port
    decreases |order| - n
  {
    if n == |order| || services[order[n]].listenPort == port then n
    else FirstListening(services, order, port, n + 1)
  }

  function Post(c: Config, api: Service, order: seq<int>): (Config, Outcome)
    requires Filed(order, c.services)
  {
    var k := FirstListening(c.services, order, api.listenPort, 0);
    if k == |order| then (c.(services := c.services[api.listenPort := api]), Done)
    else if api.routes == [] then (c, Refused)
    else
      var service := c.services[order[k]];
      (c.(services := c.services[order[k] := service.(routes := service.routes + [api.routes[0]])]), Done)
  }

  /** `retain`: the routes with another id, in order. */
  function Keep(routes: seq<Route>, id: string): seq<Route> {
    if routes == [] then []
    else Keep(routes[..|routes| - 1], id) + if routes[|routes| - 1].id == id then [] else [routes[|routes| - 1]]
  }

  /** Services left without a route are dropped, also those that had none before. */
  function Delete(c: Config, id: string): Config {
    c.(services := map port | port in c.services && Keep(c.services[port].routes, id) != [] ::
                     c.services[port].(routes := Keep(c.services[port].routes, id)))
  }

  /** The services a delete has copied over after visiting the ports in `order`. */
  function Survivors(services: map<int, Service>, order: seq<int>, id: string): map<int, Service>
    requires Filed(order, services)
  {
    if order == [] then map[]
    else
      var front, port := Survivors(services, order[..|order| - 1], id), order[|order| - 1];
      var routes := Keep(services[port].routes, id);
      if routes == [] then front else front[port := services[port].(routes := routes)]
  }

  lemma {:induction false} SurvivorsAt(c: Config, order: seq<int>, id: string, p: int)
    requires Filed(order, c.services)
    ensures var kept := Survivors(c.services, order, id);
            && (p in kept <==> p in order && p in c.services && Keep(c.services[p].routes, id) != [])
            && (p in kept ==> kept[p] == c.services[p].(routes := Keep(c.services[p].routes, id)))
  {
    hide Keep;
    if order != [] {
      SurvivorsAt(c, order[..|order| - 1], id, p);
      assert order == order[..|order| - 1] + [order[|order| - 1]];
    }
  }

  lemma AllSurvivors(c: Config, order: seq<int>, id: string)
    requires Enumerates(order, c.services)
    ensures c.(services := Survivors(c.services, order, id)) == Delete(c, id)
  {
    hide Keep, Survivors;
    var kept, wanted := Survivors(c.services, order, id), Delete(c, id).services;
    forall p ensures p in kept <==> p in wanted {
      SurvivorsAt(c, order, id, p);
    }
    forall p | p in kept ensures kept[p] == wanted[p] {
      SurvivorsAt(c, order, id, p);
    }
    assert kept == wanted;
  }

  function IndexOf(routes: seq<Route>, id: string, n: nat): (k: nat)
    requires n <= |routes|
    ensures n <= k <= |routes|
    ensures forall m :: n <= m < k ==> routes[m].id != id
    ensures k < |routes| ==> routes[k].id == id
    decreases |routes| - n
  {
    if n == |routes| || routes[n].id == id then n else IndexOf(routes, id, n + 1)
  }

  predicate Has(service: Service, id: string) {
    IndexOf(service.routes, id, 0) < |service.routes|
  }

  /** The first port in iteration order whose service has a route with the id. */
  function FirstWith(services: map<int, Service>, order: seq<int>, id: string, n: nat): (k: nat)
    requires n <= |order| && Filed(order, services)
    ensures n <= k <= |order|
    ensures forall m :: n <= m < k ==> !Has(services[order[m]], id)
    ensures k < |order| ==> Has(services[order[k]], id)
    decreases |order| - n
  {
    if n == |order| || Has(services[order[n]], id) then n else FirstWith(services, order, id, n + 1)
  }

  function Replaced(service: Service, route: Route): Service
    requires Has(service, route.id)
  {
    service.(routes := service.routes[IndexOf(service.routes, route.id, 0) := route])
  }

  function Put(c: Config, route: Route, order: seq<int>): (Config, Outcome)
    requires Filed(order, c.services)
  {
    var k := FirstWith(c.services, order, route.id, 0);
    if k == |order| then (c, Refused)
    else (c.(services := c.services[order[k] := Replaced(c.services[order[k]], route)]), Done)
  }

  // ---------------------------------------------------------------- the handlers

  class ControlPlane {
    var config: Config

    constructor (config: Config)
      ensures this.config == config
    {
      this.config := config;
    }

    method PostAppConfig(api: Service, order: seq<int>) returns (outcome: Outcome)
      requires Enumerates(order, config.services)
      modifies this
      ensures (config, outcome) == Post(old(config), api, order)
    {
      for n := 0 to |order|
        invariant config == old(config)
        invariant FirstListening(config.services, order, api.listenPort, 0)
               == FirstListening(config.services, order, api.listenPort, n)
      {
        var port := order[n];
        var service := config.services[port];
        if service.listenPort == api.listenPort {
          if api.routes == [] {
            return Refused;
          }
          config := config.(services := config.services[port := service.(routes := service.routes + [api.routes[0]])]);
          return Done;
        }
      }
      config := config.(services := config.services[api.listenPort := api]);
      outcome := Done;
    }

    method DeleteRoute(id: string, order: seq<int>)
      requires Enumerates(order, config.services)
      modifies this
      ensures config == Delete(old(config), id)
    {
      var kept: map<int, Service> := map[];
      for n := 0 to |order|
        invariant config == old(config)
        invariant kept == Survivors(config.services, order[..n], id)
      {
        var port := order[n];
        assert order[..n + 1][..n] == order[..n];
        var routes := RetainOthers(config.services[port].routes, id);
        if routes != [] {
          kept := kept[port := config.services[port].(routes := routes)];
        }
      }
      assert order[..|order|] == order;
      AllSurvivors(config, order, id);
      config := config.(services := kept);
    }

    method RetainOthers(routes: seq<Route>, id: string) returns (kept: seq<Route>)
      ensures kept == Keep(routes, id)
    {
      kept := [];
      for n := 0 to |routes|
        invariant kept == Keep(routes[..n], id)
      {
        assert routes[..n + 1][..n] == routes[..n];
        if routes[n].id != id {
          kept := kept + [routes[n]];
        }
      }
      assert routes[..|routes|] == routes;
    }

    method PutRoute(route: Route, order: seq<int>) returns (outcome: Outcome)
      requires Enumerates(order, config.services)
      modifies this
      ensures (config, outcome) == Put(old(config), route, order)
    {
      for n := 0 to |order|
        invariant config == old(config)
        invariant FirstWith(config.services, order, route.id, 0) == FirstWith(config.services, order, route.id, n)
      {
        var port := order[n];
        var service := config.services[port];
        for m := 0 to |service.routes|
          invariant config == old(config)
          invariant IndexOf(service.routes, route.id, 0) == IndexOf(service.routes, route.id, m)
        {
          if service.routes[m].id == route.id {
            config := config.(services := config.services[port := service.(routes := service.routes[m := route])]);
            return Done;
          }
        }
      }
      outcome := Refused;
    }

    /** First critical section of a reload: the port sets are compared. */
    method ReloadCheck(candidate: Config) returns (outcome: Outcome)
      ensures outcome == if candidate.services.Keys == config.services.Keys then Done else Refused
    {
      outcome := if candidate.services.Keys == config.services.Keys then Done else Refused;
    }

    /** Second critical section: the new configuration goes in, whatever happened in between. */
    method ReloadCommit(candidate: Config)
      modifies this
      ensures config == candidate
    {
      config := candidate;
    }
  }

  // ---------------------------------------------------------------- what each update keeps

  lemma {:induction false} LoadedWellFormed(settings: string, services: seq<Service>)
    ensures WellFormed(Config(settings, Loaded(services)))
  {
    if services != [] {
      LoadedWellFormed(settings, services[..|services| - 1]);
    }
  }

  /** A port is loaded exactly when some service listens on it, and what is loaded is the last such service. */
  lemma {:induction false} LoadedExactly(services: seq<Service>, port: int)
    ensures port in Loaded(services) <==> exists n :: 0 <= n < |services| && services[n].listenPort == port
    ensures port in Loaded(services) ==>
              exists n :: 0 <= n < |services| && services[n].listenPort == port && Loaded(services)[port] == services[n]
                && forall m :: n < m < |services| ==> services[m].listenPort != port
  {
    if services != [] {
      var front, last := services[..|services| - 1], services[|services| - 1];
      LoadedExactly(front, port);
      if last.listenPort == port {
        assert services[|front|] == last;
      } else if port in Loaded(front) {
        var n :| 0 <= n < |front| && front[n].listenPort == port && Loaded(front)[port] == front[n]
                 && forall m :: n < m < |front| ==> front[m].listenPort != port;
        assert services[n] == front[n];
        assert forall m :: 0 <= m < |front| ==> services[m] == front[m];
      }
    }
  }

  /** On a well-formed map the search is a lookup: one route is appended at the port, or the service added. */
  lemma PostOnWellFormed(c: Config, api: Service, order: seq<int>)
    requires WellFormed(c) && Enumerates(order, c.services)
    ensures var (after, outcome) := Post(c, api, order);
            var port := api.listenPort;
            && WellFormed(after)
            && (outcome == Refused <==> port in c.services && api.routes == [])
            && (outcome == Refused ==> after == c)
            && (outcome == Done ==>
                  && after.services.Keys == c.services.Keys + {port}
                  && (forall p :: p in c.services && p != port ==> after.services[p] == c.services[p])
                  && after.services[port] == if port in c.services
                       then c.services[port].(routes := c.services[port].routes + api.routes[..1]) else api)
  {
    var k := FirstListening(c.services, order, api.listenPort, 0);
    if api.listenPort in c.services {
      assert api.listenPort in order;
      var n :| 0 <= n < |order| && order[n] == api.listenPort;
      assert k <= n;
      assert order[k] == api.listenPort;
      if api.routes != [] {
        assert api.routes[..1] == [api.routes[0]];
      }
    } else {
      assert forall m :: 0 <= m < |order| ==> c.services[order[m]].listenPort == order[m];
      assert k == |order|;
    }
  }

  function Ids(routes: seq<Route>): (ids: seq<string>)
    ensures |ids| == |routes|
    ensures forall i :: 0 <= i < |routes| ==> ids[i] == routes[i].id
  {
    seq(|routes|, i requires 0 <= i < |routes| => routes[i].id)
  }

  /** A put touches one route and keeps every service's ports, kinds and sequence of ids. */
  lemma PutKeepsIds(c: Config, route: Route, order: seq<int>)
    requires Enumerates(order, c.services)
    ensures var (after, outcome) := Put(c, route, order);
            && (WellFormed(c) ==> WellFormed(after))
            && after.services.Keys == c.services.Keys
            && (forall p :: p in c.services ==>
                  && after.services[p].listenPort == c.services[p].listenPort
                  && after.services[p].protocol == c.services[p].protocol
                  && Ids(after.services[p].routes) == Ids(c.services[p].routes))
            && (outcome == Refused <==>
                  forall p :: p in c.services ==> forall r :: r in c.services[p].routes ==> r.id != route.id)
            && (outcome == Done ==>
                  exists p :: p in c.services && Has(c.services[p], route.id)
                    && after.services == c.services[p := Replaced(c.services[p], route)])
  {
    var k := FirstWith(c.services, order, route.id, 0);
    if k == |order| {
      forall p, r | p in c.services && r in c.services[p].routes ensures r.id != route.id {
        assert p in order;
        var m :| 0 <= m < |order| && order[m] == p;
        assert !Has(c.services[order[m]], route.id);
      }
    } else {
      var p := order[k];
      var i := IndexOf(c.services[p].routes, route.id, 0);
      assert c.services[p].routes[i] in c.services[p].routes;
      assert Ids(Replaced(c.services[p], route).routes) == Ids(c.services[p].routes);
      assert p in c.services && Has(c.services[p], route.id);
    }
  }

  /** Route `i` at port `p` is the first there with the id of `route`, and `after` has `route` in its place only. */
  ghost predicate ReplacesAt(c: Config, after: Config, route: Route, p: int, i: nat) {
    && p in c.services && i < |c.services[p].routes|
    && c.services[p].routes[i].id == route.id
    && (forall j :: 0 <= j < i ==> c.services[p].routes[j].id != route.id)
    && after.settings == c.settings && after.services.Keys == c.services.Keys
    && (forall q :: q in c.services && q != p ==> after.services[q] == c.services[q])
    && after.services[p].listenPort == c.services[p].listenPort && after.services[p].protocol == c.services[p].protocol
    && |after.services[p].routes| == |c.services[p].routes|
    && (forall j :: 0 <= j < |c.services[p].routes| ==>
          after.services[p].routes[j] == if j == i then route else c.services[p].routes[j])
  }

  /**
   * PUT REPLACES. A put that succeeds puts the route in the place of one with its id, the first at its port,
   * and changes nothing else; one that is refused changes nothing.
   */
  lemma PutReplaces(c: Config, route: Route, order: seq<int>)
    requires Enumerates(order, c.services)
    ensures var (after, outcome) := Put(c, route, order);
            && (outcome == Done ==> exists p, i :: ReplacesAt(c, after, route, p, i) && InForce(after, p, route))
            && (outcome == Refused ==> after == c)
  {
    var (after, outcome) := Put(c, route, order);
    if outcome == Done {
      var p := order[FirstWith(c.services, order, route.id, 0)];
      var i := IndexOf(c.services[p].routes, route.id, 0);
      assert after.services[p].routes[i] == route;
      assert ReplacesAt(c, after, route, p, i) && InForce(after, p, route);
    }
  }

  /** Where the kept routes come from: increasing positions, exactly those with another id. */
  lemma {:induction false} KeepIsSubsequence(routes: seq<Route>, id: string) returns (from: seq<nat>)
    ensures |from| == |Keep(routes, id)|
    ensures forall i :: 0 <= i < |from| ==> from[i] < |routes| && Keep(routes, id)[i] == routes[from[i]]
    ensures forall i, j :: 0 <= i < j < |from| ==> from[i] < from[j]
    ensures forall n :: 0 <= n < |routes| ==> (n in from <==> routes[n].id != id)
  {
    if routes == [] {
      from := [];
    } else {
      var n := |routes| - 1;
      var front := KeepIsSubsequence(routes[..n], id);
      assert forall i :: 0 <= i < |front| ==> front[i] in front;
      if routes[n].id == id {
        from := front;
      } else {
        from := front + [n];
        assert forall k :: k in from <==> k in front || k == n;
      }
    }
  }

  lemma {:induction false} KeepHasNoId(routes: seq<Route>, id: string)
    ensures forall r :: r in Keep(routes, id) <==> r in routes && r.id != id
  {
    if routes != [] {
      KeepHasNoId(routes[..|routes| - 1], id);
      assert routes == routes[..|routes| - 1] + [routes[|routes| - 1]];
    }
  }

  lemma {:induction false} KeepAll(routes: seq<Route>, id: string)
    requires forall i :: 0 <= i < |routes| ==> routes[i].id != id
    ensures Keep(routes, id) == routes
  {
    if routes != [] {
      KeepAll(routes[..|routes| - 1], id);
      assert routes == routes[..|routes| - 1] + [routes[|routes| - 1]];
    }
  }

  lemma KeepTwice(routes: seq<Route>, id: string)
    ensures Keep(Keep(routes, id), id) == Keep(routes, id)
  {
    var kept := Keep(routes, id);
    KeepHasNoId(routes, id);
    assert forall i :: 0 <= i < |kept| ==> kept[i] in kept;
    KeepAll(kept, id);
  }

  /** A delete removes the id everywhere and leaves no service empty. */
  lemma DeleteRemovesExactlyTheId(c: Config, id: string)
    ensures var after := Delete(c, id);
            && (WellFormed(c) ==> WellFormed(after))
            && (forall p :: p in after.services <==>
                  p in c.services && exists r :: r in c.services[p].routes && r.id != id)
            && (forall p :: p in after.services ==>
                  forall r :: r in after.services[p].routes <==> r in c.services[p].routes && r.id != id)
  {
    hide Keep;
    forall p | p in c.services
      ensures Keep(c.services[p].routes, id) != [] <==> exists r :: r in c.services[p].routes && r.id != id
    {
      var kept := Keep(c.services[p].routes, id);
      KeepHasNoId(c.services[p].routes, id);
      if kept != [] {
        assert kept[0] in kept;
      }
    }
    forall p | p in Delete(c, id).services
      ensures forall r :: r in Delete(c, id).services[p].routes <==> r in c.services[p].routes && r.id != id
    {
      KeepHasNoId(c.services[p].routes, id);
    }
  }

  /** Deleting again changes nothing. */
  lemma DeleteTwice(c: Config, id: string)
    ensures Delete(Delete(c, id), id) == Delete(c, id)
  {
    hide Keep;
    forall p | p in c.services ensures Keep(Keep(c.services[p].routes, id), id) == Keep(c.services[p].routes, id) {
      KeepTwice(c.services[p].routes, id);
    }
    assert Delete(Delete(c, id), id).services == Delete(c, id).services;
  }

  /** A deleted id can no longer be put. */
  lemma PutAfterDeleteRefused(c: Config, route: Route, order: seq<int>)
    requires Enumerates(order, Delete(c, route.id).services)
    ensures Put(Delete(c, route.id), route, order).1 == Refused
  {
    DeleteRemovesExactlyTheId(c, route.id);
    PutKeepsIds(Delete(c, route.id), route, order);
  }

  // ---------------------------------------------------------------- whole runs

  /** `pending` are the reloads that passed the port check and wait for the lock again. */
  datatype State = State(config: Config, pending: seq<Config>)

  datatype Event =
    | PostEvent(api: Service, order: seq<int>)
    | PutEvent(route: Route, order: seq<int>)
    | DeleteEvent(id: string)
    | Snapshot(settings: string, services: seq<Service>)
    | Commit(which: nat)

  function ListenOrder(e: Event): seq<int> {
    if e.PostEvent? || e.PutEvent? then e.order else []
  }

  ghost predicate Possible(s: State, e: Event) {
    && (e.PostEvent? || e.PutEvent? ==> Enumerates(ListenOrder(e), s.config.services))
    && (e.Commit? ==> e.which < |s.pending|)
  }

  ghost function Step(s: State, e: Event): State
    requires Possible(s, e)
  {
    match e
    case PostEvent(api, order) => s.(config := Post(s.config, api, order).0)
    case PutEvent(route, order) => s.(config := Put(s.config, route, order).0)
    case DeleteEvent(id) => s.(config := Delete(s.config, id))
    case Snapshot(settings, services) =>
      var candidate := Config(settings, Loaded(services));
      if candidate.services.Keys == s.config.services.Keys
      then s.(pending := s.pending + [candidate]) else s
    case Commit(which) => State(s.pending[which], s.pending[..which] + s.pending[which + 1..])
  }

  /** Every service under its own port, now and in each accepted reload. */
  ghost predicate Sound(s: State) {
    WellFormed(s.config) && forall i :: 0 <= i < |s.pending| ==> WellFormed(s.pending[i])
  }

  lemma StepKeepsSound(s: State, e: Event)
    requires Sound(s) && Possible(s, e)
    ensures Sound(Step(s, e))
  {
    match e
    case PostEvent(api, order) => PostOnWellFormed(s.config, api, order);
    case PutEvent(route, order) => PutKeepsIds(s.config, route, order);
    case DeleteEvent(id) => DeleteRemovesExactlyTheId(s.config, id);
    case Snapshot(settings, services) => LoadedWellFormed(settings, services);
    case Commit(which) =>
  }

  ghost predicate Run(states: seq<State>, events: seq<Event>) {
    && |states| == |events| + 1
    && forall n :: 0 <= n < |events| ==> Possible(states[n], events[n]) && states[n + 1] == Step(states[n], events[n])
  }

  /**
   * WELL-FORMED FOR EVER. Starting from a loaded configuration, every interleaving of posts, puts, deletes
   * and reloads in two steps keeps every service filed under its own port.
   */
  lemma {:induction false} RunsStaySound(settings: string, services: seq<Service>, states: seq<State>,
                                         events: seq<Event>, n: nat)
    requires Run(states, events) && states[0] == State(Config(settings, Loaded(services)), [])
    requires n < |states|
    ensures Sound(states[n])
  {
    if n == 0 {
      LoadedWellFormed(settings, services);
    } else {
      RunsStaySound(settings, services, states, events, n - 1);
      assert states[n - 1 + 1] == Step(states[n - 1], events[n - 1]);
      StepKeepsSound(states[n - 1], events[n - 1]);
    }
  }

  /** Over whole runs: right after a put that succeeds, the route is in force, once more in its old place. */
  lemma PutIsInForce(states: seq<State>, events: seq<Event>, n: nat)
    requires Run(states, events) && n < |events| && events[n].PutEvent?
    ensures var before, after := states[n].config, states[n + 1].config;
            || (exists p, i :: ReplacesAt(before, after, events[n].route, p, i) && InForce(after, p, events[n].route))
            || (after == before && forall p :: p in before.services ==>
                  forall r :: r in before.services[p].routes ==> r.id != events[n].route.id)
  {
    hide Put;
    assert Possible(states[n], events[n]) && states[n + 1] == Step(states[n], events[n]);
    PutReplaces(states[n].config, events[n].route, events[n].order);
    PutKeepsIds(states[n].config, events[n].route, events[n].order);
  }

  /** Over whole runs: right after a delete, exactly the routes with another id are in force that were before. */
  lemma DeletedIsGone(states: seq<State>, events: seq<Event>, n: nat)
    requires Run(states, events) && n < |events| && events[n].DeleteEvent?
    ensures var before, after := states[n].config, states[n + 1].config;
            && (forall p, r :: InForce(after, p, r) <==> InForce(before, p, r) && r.id != events[n].id)
            && forall p :: p in after.services ==> after.services[p].routes != []
  {
    hide Delete;
    var id := events[n].id;
    assert Possible(states[n], events[n]) && states[n + 1] == Step(states[n], events[n]);
    DeleteRemovesExactlyTheId(states[n].config, id);
    var before, after := states[n].config.services, states[n + 1].config.services;
    forall p, r ensures InForce(states[n + 1].config, p, r) <==> InForce(states[n].config, p, r) && r.id != id {
      if p in after {
        assert r in after[p].routes <==> r in before[p].routes && r.id != id;
      }
    }
    forall p | p in after ensures after[p].routes != [] {
      var r :| r in before[p].routes && r.id != id;
      assert r in after[p].routes;
    }
  }

  /** The event is a reload check that accepts `candidate` against the configuration in force. */
  ghost predicate Accepts(s: State, e: Event, candidate: Config) {
    && e.Snapshot?
    && candidate == Config(e.settings, Loaded(e.services))
    && candidate.services.Keys == s.config.services.Keys
  }

  /** Every waiting reload was accepted by some earlier event of the run. */
  lemma {:induction false} PendingWasAccepted(states: seq<State>, events: seq<Event>, n: nat, i: nat) returns (m: nat)
    requires Run(states, events) && states[0].pending == []
    requires n < |states| && i < |states[n].pending|
    ensures m < n && Accepts(states[m], events[m], states[n].pending[i])
  {
    var s, e := states[n - 1], events[n - 1];
    assert states[n - 1 + 1] == Step(s, e);
    if e.Snapshot? && i == |s.pending| {
      m := n - 1;
    } else {
      m := PendingWasAccepted(states, events, n - 1, if e.Commit? && e.which <= i then i + 1 else i);
    }
  }

  /**
   * RELOAD. In every run from a start without waiting reloads, a commit installs the configuration of one
   * earlier check, well-formed, and with it the ports in force at that check and no others, whatever was
   * posted or deleted in between; so it changes the ports in force unless they are the same as then.
   */
  lemma CommitInstallsSnapshotPorts(settings: string, services: seq<Service>, states: seq<State>, events: seq<Event>,
                                    n: nat) returns (m: nat)
    requires Run(states, events) && states[0] == State(Config(settings, Loaded(services)), [])
    requires n < |events| && events[n].Commit?
    ensures m < n && Accepts(states[m], events[m], states[n + 1].config)
    ensures WellFormed(states[n + 1].config)
    ensures forall port :: port in states[n + 1].config.services <==> port in states[m].config.services
    ensures states[n + 1].config.services.Keys == states[n].config.services.Keys
       <==> states[m].config.services.Keys == states[n].config.services.Keys
  {
    assert Possible(states[n], events[n]) && states[n + 1] == Step(states[n], events[n]);
    m := PendingWasAccepted(states, events, n, events[n].which);
    RunsStaySound(settings, services, states, events, n + 1);
    assert states[n + 1].config.services.Keys == states[m].config.services.Keys;
  }

  /** The event posts a service with a route and is answered with success. */
  predicate Posts(e: Event) {
    e.PostEvent? && e.api.routes != []
  }

  lemma PostedIsInForce(c: Config, api: Service, order: seq<int>)
    requires WellFormed(c) && Enumerates(order, c.services) && api.routes != []
    ensures Post(c, api, order).1 == Done && InForce(Post(c, api, order).0, api.listenPort, api.routes[0])
  {
    PostOnWellFormed(c, api, order);
    var routes := Post(c, api, order).0.services[api.listenPort].routes;
    if api.listenPort in c.services {
      assert routes[|routes| - 1] == api.routes[0];
    }
  }

  /**
   * POST DURING A RELOAD. The lock is released between check and commit. In every run, a post that falls
   * between a reload's check and its commit is answered with success and its route is served; after the
   * commit the port is in force if and only if it was at the check, and the route if and only if the checked
   * file itself has it at that port.
   */
  lemma PostSurvivesReloadExactly(settings: string, services: seq<Service>, states: seq<State>, events: seq<Event>,
                                  n: nat) returns (m: nat)
    requires Run(states, events) && states[0] == State(Config(settings, Loaded(services)), [])
    requires n < |events| && events[n].Commit?
    ensures m < n && Accepts(states[m], events[m], states[n + 1].config)
    ensures forall p :: m < p < n && Posts(events[p]) ==>
              var api, file := events[p].api, Config(events[m].settings, Loaded(events[m].services));
              && InForce(states[p + 1].config, api.listenPort, api.routes[0])
              && (api.listenPort in states[n + 1].config.services <==> api.listenPort in states[m].config.services)
              && (InForce(states[n + 1].config, api.listenPort, api.routes[0]) <==>
                    InForce(file, api.listenPort, api.routes[0]))
  {
    hide Post, Loaded, InForce;
    m := CommitInstallsSnapshotPorts(settings, services, states, events, n);
    forall p | m < p < n && Posts(events[p])
      ensures InForce(states[p + 1].config, events[p].api.listenPort, events[p].api.routes[0])
    {
      RunsStaySound(settings, services, states, events, p);
      assert Possible(states[p], events[p]) && states[p + 1] == Step(states[p], events[p]);
      PostedIsInForce(states[p].config, events[p].api, events[p].order);
    }
  }

  /** A configuration with one route at port 80, reloaded from the same file while a second is posted there. */
  const OLD := Route("old", "")
  const NEW := Route("new", "")
  const FILE := [Service(80, "http", [OLD])]
  const POSTED := Service(80, "http", [NEW])

  /** The posted route is served, and gone after the commit, although its port stays. */
  lemma PostLostOnKeptPort()
    ensures var start := State(Config("", Loaded(FILE)), []);
            var events := [Snapshot("", FILE), PostEvent(POSTED, [80]), Commit(0)];
            && Possible(start, events[0])
            && var checked := Step(start, events[0]);
               && Possible(checked, events[1])
               && var posted := Step(checked, events[1]);
                  && Possible(posted, events[2])
                  && posted.config.services == map[80 := Service(80, "http", [OLD, NEW])]
                  && Step(posted, events[2]) == start
  {
    assert FILE[..0] == [] && Loaded(FILE[..0]) == map[];
    assert Loaded(FILE) == map[80 := FILE[0]];
    var start := State(Config("", Loaded(FILE)), []);
    var checked := Step(start, Snapshot("", FILE));
    assert checked == State(start.config, [start.config]);
    assert Enumerates([80], start.config.services);
    assert FirstListening(start.config.services, [80], 80, 0) == 0;
    var posted := Step(checked, PostEvent(POSTED, [80]));
    assert [OLD] + [NEW] == [OLD, NEW];
    assert posted == State(Config("", map[80 := Service(80, "http", [OLD, NEW])]), [start.config]);
    assert Step(posted, Commit(0)) == start;
  }

  /** Each accepted reload waits for its own commit: no other event takes it back, though positions shift. */
  lemma ReloadsWaitForTheirCommit(s: State, e: Event, i: nat)
    requires Possible(s, e) && i < |s.pending|
    requires !(e.Commit? && e.which == i)
    ensures var after, j := Step(s, e).pending, if e.Commit? && e.which < i then i - 1 else i;
            j < |after| && after[j] == s.pending[i]
    ensures e.Commit? ==> |Step(s, e).pending| == |s.pending| - 1
  {
  }

  predicate Listens(services: seq<Service>, port: int) {
    exists n :: 0 <= n < |services| && services[n].listenPort == port
  }

  /** A reload whose ports are not those in force is refused: nothing changes and nothing waits. */
  lemma ReloadWithOtherPortsIsRefused(s: State, settings: string, services: seq<Service>)
    ensures (exists port :: (port in s.config.services) != Listens(services, port)) <==>
              Step(s, Snapshot(settings, services)) == s
    ensures Step(s, Snapshot(settings, services)).config == s.config
  {
    var after := Step(s, Snapshot(settings, services));
    hide Loaded;
    forall port ensures port in Loaded(services) <==> Listens(services, port) {
      LoadedExactly(services, port);
    }
    if exists port :: (port in s.config.services) != (port in Loaded(services)) {
      var port :| (port in s.config.services) != (port in Loaded(services));
      assert (port in s.config.services) != Listens(services, port);
      assert (port in s.config.services.Keys) != (port in Loaded(services).Keys);
    } else {
      assert Loaded(services).Keys == s.config.services.Keys;
      assert |after.pending| == |s.pending| + 1;
    }
  }
}
