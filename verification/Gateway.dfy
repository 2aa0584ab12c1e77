/** `get_destination`: one request through route choice, middleware chain and router, as one atomic step. */
module Gateways {
  import opened Common
  import Http
  import RateLimit
  import Matchers
  import Chains
  import Routers

  datatype Incoming = Incoming(
    method_: string,
    path: string,
    headers: Http.Headers,
    remoteIp: string,
    ipv4: Option<nat>)
  {
    function ToMatch(): Matchers.Request {
      Matchers.Request(method_, path, headers)
    }

    /** The HTTP proxies always hand the headers to the chain. */
    function ToVisit(): Chains.Visit {
      Chains.Visit(RateLimit.Request(remoteIp, ipv4, headers), true)
    }
  }

  /**
   * The first three are errors before any route is looked at; `Refused` is a denial or an error of the
   * chain, `NoBackend` an error of the router.
   */
  datatype Result =
    | NoPath
    | NoTimeoutSetting
    | NoService
    | NoMatch
    | Refused(reason: Chains.CheckResult)
    | NoBackend
    | Forward(requestPath: string, destination: Routers.Destination, timeout: nat)

  /** Joining an absolute path onto a directory gives the path itself. */
  function JoinPath(root: string, rest: string): string {
    if "/" <= rest then rest
    else if root == [] || root[|root| - 1] == '/' then root + rest
    else root + "/" + rest
  }

  function RequestPath(d: Routers.Destination, rest: string): string {
    match d
    case File(root) => JoinPath(root, rest)
    case Http(route) => route.endpoint + rest
    case Grpc(_) => rest
    case Failed => rest
  }

  // ---------------------------------------------------------------- the step on values

  datatype RouteState = RouteState(chain: seq<Chains.State>, router: Routers.Router)

  datatype RouteInfo = RouteInfo(spec: Matchers.RouteSpec, timeout: Option<nat>)

  function SpecsOf(infos: seq<RouteInfo>): (specs: seq<Matchers.RouteSpec>)
    ensures |specs| == |infos|
    ensures forall i :: 0 <= i < |infos| ==> specs[i] == infos[i].spec
  {
    seq(|infos|, i requires 0 <= i < |infos| => infos[i].spec)
  }

  /** The route the request wins; there is at most one best route. */
  ghost function Choice(lib: Http.Library, infos: seq<RouteInfo>, req: Matchers.Request): (i: Option<nat>)
    ensures i.Some? ==> Matchers.IsBest(lib, SpecsOf(infos), req, i.value) && i.value < |infos|
    ensures forall k: nat :: Matchers.IsBest(lib, SpecsOf(infos), req, k) ==> i == Some(k)
  {
    if exists k: nat :: Matchers.IsBest(lib, SpecsOf(infos), req, k) then
      var k: nat :| Matchers.IsBest(lib, SpecsOf(infos), req, k);
      assert forall j: nat :: Matchers.IsBest(lib, SpecsOf(infos), req, j) ==> j == k by {
        forall j: nat | Matchers.IsBest(lib, SpecsOf(infos), req, j) ensures j == k {
          Matchers.BestIsUnique(lib, SpecsOf(infos), req, j, k);
        }
      }
      Some(k)
    else None
  }

  ghost predicate Ready(routes: seq<RouteState>, readings: seq<seq<Chains.Reading>>) {
    && |readings| == |routes|
    && forall i :: 0 <= i < |routes| ==> |readings[i]| == |routes[i].chain| && routes[i].router.Valid()
  }

  /** What the chosen route does with the request. */
  ghost function Serve(lib: Http.Library, s: RouteState, info: RouteInfo, defaultTimeout: nat, incoming: Incoming,
                       readings: seq<Chains.Reading>, rnd: nat): (RouteState, Result)
    requires |readings| == |s.chain| && s.router.Valid()
  {
    var (chain, verdict) := Chains.Walk(s.chain, incoming.ToVisit(), readings);
    if verdict != Chains.Allowed then (s.(chain := chain), Refused(verdict))
    else
      var (router, destination) := Routers.Route(lib, s.router, incoming.headers, rnd);
      (RouteState(chain, router),
       if destination.Failed? then NoBackend
       else
         var rest := Matchers.Rewritten(lib, info.spec, incoming.path);
         Forward(RequestPath(destination, rest), destination,
                 match info.timeout case None => defaultTimeout case Some(t) => t))
  }

  ghost function Step(lib: Http.Library, infos: seq<RouteInfo>, routes: seq<RouteState>, defaultTimeout: nat,
                      incoming: Incoming, readings: seq<seq<Chains.Reading>>, rnd: nat): (seq<RouteState>, Result)
    requires |infos| == |routes| && Ready(routes, readings)
  {
    match Choice(lib, infos, incoming.ToMatch())
    case None => (routes, NoMatch)
    case Some(i) =>
      var (after, result) := Serve(lib, routes[i], infos[i], defaultTimeout, incoming, readings[i], rnd);
      (routes[i := after], result)
  }

  // ---------------------------------------------------------------- where a forwarded request goes

  predicate FirstPathAt(rules: seq<Matchers.Rule>, i: int) {
    0 <= i < |rules| && rules[i].PathRule? && forall j :: 0 <= j < i ==> !rules[j].PathRule?
  }

  /** The library replaces a pattern it can compile; of another the template takes the place as a literal prefix. */
  ghost predicate Replaces(lib: Http.Library, pattern: string, template: string, path: string, rest: string) {
    if lib.compiles(pattern) then rest == lib.replace(Http.Regex(pattern), path, template)
    else
      && (forall tail :: path == pattern + tail ==> rest == template + tail)
      && ((forall tail :: path != pattern + tail) ==> rest == path)
  }

  /** Without a rewrite the path stays; with one, the pattern replaced is the first path matcher's. */
  ghost predicate RewritesTo(lib: Http.Library, spec: Matchers.RouteSpec, path: string, rest: string) {
    && (spec.rewrite == None || (forall r :: r in spec.rules ==> !r.PathRule?) ==> rest == path)
    && (spec.rewrite.Some? ==>
          forall i :: FirstPathAt(spec.rules, i) ==> Replaces(lib, spec.rules[i].value, spec.rewrite.value, path, rest))
  }

  lemma {:induction false} FirstPathIsFirst(rules: seq<Matchers.Rule>)
    ensures Matchers.FirstPath(rules) == None <==> forall r :: r in rules ==> !r.PathRule?
    ensures forall i :: FirstPathAt(rules, i) ==> Matchers.FirstPath(rules) == Some(rules[i].value)
  {
    if rules != [] {
      FirstPathIsFirst(rules[1..]);
      assert forall r :: r in rules <==> r == rules[0] || r in rules[1..];
      forall i | FirstPathAt(rules, i) ensures Matchers.FirstPath(rules) == Some(rules[i].value) {
        if i != 0 {
          assert forall j :: 0 <= j < i ==> rules[1..][j] == rules[j + 1];
          assert FirstPathAt(rules[1..], i - 1);
        }
      }
    }
  }

  lemma PathsRewriteSo(lib: Http.Library, spec: Matchers.RouteSpec, path: string)
    ensures RewritesTo(lib, spec, path, Matchers.Rewritten(lib, spec, path))
  {
    FirstPathIsFirst(spec.rules);
    if spec.rewrite.Some? && Matchers.FirstPath(spec.rules).Some? {
      var pattern := Matchers.FirstPath(spec.rules).value;
      if pattern <= path {
        assert path == pattern + path[|pattern|..];
      }
      forall tail | path == pattern + tail ensures tail == path[|pattern|..] {
      }
    }
  }

  /**
   * WHAT BECOMES OF IT. A request finds no match exactly when no route matches it; otherwise it is refused, for
   * the chain's reason, exactly when the winner's chain does not allow it; it finds no backend exactly when
   * the chain does but the router has none; and it is forwarded in all other cases.
   */
  lemma ResultTellsWhy(lib: Http.Library, infos: seq<RouteInfo>, routes: seq<RouteState>, defaultTimeout: nat,
                       incoming: Incoming, readings: seq<seq<Chains.Reading>>, rnd: nat)
    requires |infos| == |routes| && Ready(routes, readings)
    ensures var (after, result) := Step(lib, infos, routes, defaultTimeout, incoming, readings, rnd);
            && (result == NoMatch <==>
                  forall i :: 0 <= i < |infos| ==> !Matchers.RouteMatches(lib, infos[i].spec, incoming.ToMatch()))
            && (result == NoMatch ==> after == routes)
            && (forall i: nat :: Matchers.IsBest(lib, SpecsOf(infos), incoming.ToMatch(), i) ==>
                  var answer := Chains.Walk(routes[i].chain, incoming.ToVisit(), readings[i]).1;
                  var router := routes[i].router;
                  var served := router.StaticFile? || Routers.CanPick(lib, router, incoming.headers);
                  && (result.Refused? <==> answer != Chains.Allowed)
                  && (result.Refused? ==> result.reason == answer && after[i].router == routes[i].router)
                  && (result == NoBackend <==> answer == Chains.Allowed && !served)
                  && (result.Forward? <==> answer == Chains.Allowed && served))
  {
    hide Chains.Walk, Routers.Pick, Routers.CanPick, Matchers.IsBest, Matchers.RouteMatches;
    var best := Matchers.SomeBest(lib, SpecsOf(infos), incoming.ToMatch());
    BestMatches(lib, SpecsOf(infos), incoming.ToMatch(), best);
    var choice := Choice(lib, infos, incoming.ToMatch());
    if choice.Some? {
      var i := choice.value;
      Routers.PicksExactly(lib, routes[i].router, incoming.headers, rnd);
      Routers.PickInRange(lib, routes[i].router, incoming.headers, rnd);
    }
  }

  lemma BestMatches(lib: Http.Library, specs: seq<Matchers.RouteSpec>, req: Matchers.Request,
                    best: Option<Matchers.Best>)
    requires Matchers.BestSoFar(lib, specs, req, best)
    ensures best.Some? ==> Matchers.IsBest(lib, specs, req, best.value.index)
    ensures forall i: nat :: Matchers.IsBest(lib, specs, req, i) ==>
              i < |specs| && Matchers.RouteMatches(lib, specs[i], req)
  {
  }

  /**
   * WHERE IT GOES. A request that is forwarded goes to a backend of the winning route, at the backend's
   * endpoint followed by the request's path, as the route rewrites it; for gRPC the path goes alone, and a
   * file is the path itself if it is absolute and lies under the document root if not. The timeout is the
   * route's own, or else the configured one.
   */
  lemma ForwardGoesWhere(lib: Http.Library, infos: seq<RouteInfo>, routes: seq<RouteState>, defaultTimeout: nat,
                         incoming: Incoming, readings: seq<seq<Chains.Reading>>, rnd: nat)
    returns (i: nat, rest: string)
    requires |infos| == |routes| && Ready(routes, readings)
    requires Step(lib, infos, routes, defaultTimeout, incoming, readings, rnd).1.Forward?
    ensures i < |routes| && Matchers.IsBest(lib, SpecsOf(infos), incoming.ToMatch(), i)
    ensures RewritesTo(lib, infos[i].spec, incoming.path, rest)
    ensures var result := Step(lib, infos, routes, defaultTimeout, incoming, readings, rnd).1;
            var Forward(path, destination, timeout) := result;
            && (infos[i].timeout.Some? ==> timeout == infos[i].timeout.value)
            && (infos[i].timeout == None ==> timeout == defaultTimeout)
            && !destination.Failed?
            && (destination.Http? || destination.Grpc? ==> destination.route in routes[i].router.Backends())
            && (destination.Http? ==>
                  path == destination.route.endpoint + rest && !("grpc://" <= destination.route.endpoint))
            && (destination.Grpc? ==> path == rest && "grpc://" <= destination.route.endpoint)
            && (destination.File? ==>
                  && routes[i].router == Routers.StaticFile(destination.docRoot)
                  && ("/" <= rest ==> path == rest)
                  && (!("/" <= rest) ==>
                        destination.docRoot <= path && |rest| <= |path| && path[|path| - |rest|..] == rest))
  {
    hide Chains.Walk, Routers.Pick, Matchers.Rewritten, RewritesTo, Matchers.IsBest;
    i := Choice(lib, infos, incoming.ToMatch()).value;
    rest := Matchers.Rewritten(lib, infos[i].spec, incoming.path);
    PathsRewriteSo(lib, infos[i].spec, incoming.path);
    Routers.PickInRange(lib, routes[i].router, incoming.headers, rnd);
    var (after, pick) := Routers.Pick(lib, routes[i].router, incoming.headers, rnd);
    assert pick.Some? ==> after.Backends()[pick.value] in routes[i].router.Backends();
  }

  // ---------------------------------------------------------------- the step on the shared objects

  class Route {
    const config: Matchers.RouteConfig
    const chain: seq<Chains.Middleware>
    const timeout: Option<nat>
    var router: Routers.Router

    constructor (config: Matchers.RouteConfig, chain: seq<Chains.Middleware>, timeout: Option<nat>,
                 router: Routers.Router)
      ensures this.config == config && this.chain == chain && this.timeout == timeout && this.router == router
    {
      this.config, this.chain, this.timeout, this.router := config, chain, timeout, router;
    }

    function Info(): RouteInfo {
      RouteInfo(config.Spec(), timeout)
    }

    ghost function State(): RouteState
      reads this, Chains.Objects(chain)
    {
      RouteState(Chains.Abstraction(chain), router)
    }

    method PickBackend(lib: Http.Library, headers: Http.Headers, rnd: nat) returns (d: Routers.Destination)
      requires router.Valid()
      modifies this
      ensures router.Valid()
      ensures (router, d) == Routers.Route(lib, old(router), headers, rnd)
    {
      Routers.PickInRange(lib, router, headers, rnd);
      var (after, destination) := Routers.Route(lib, router, headers, rnd);
      router := after;
      d := destination;
    }
  }

  function Configs(routes: seq<Route>): (configs: seq<Matchers.RouteConfig>)
    ensures |configs| == |routes|
    ensures forall i :: 0 <= i < |routes| ==> configs[i] == routes[i].config
  {
    seq(|routes|, i requires 0 <= i < |routes| => routes[i].config)
  }

  function Infos(routes: seq<Route>): (infos: seq<RouteInfo>)
    ensures |infos| == |routes|
    ensures forall i :: 0 <= i < |routes| ==> infos[i] == routes[i].Info()
  {
    seq(|routes|, i requires 0 <= i < |routes| => routes[i].Info())
  }

  ghost function ChainObjects(routes: seq<Route>): set<object> {
    set r, o | r in routes && o in Chains.Objects(r.chain) :: o
  }

  ghost function States(routes: seq<Route>): (states: seq<RouteState>)
    reads routes, ChainObjects(routes)
    ensures |states| == |routes|
    ensures forall i :: 0 <= i < |routes| ==> states[i] == routes[i].State()
  {
    seq(|routes|, i requires 0 <= i < |routes| reads routes, ChainObjects(routes) => routes[i].State())
  }

  /** Routes are distinct objects and share no limiter or breaker. */
  ghost predicate Disjoint(routes: seq<Route>) {
    && (forall i :: 0 <= i < |routes| ==> Chains.Separate(routes[i].chain))
    && forall i, j :: 0 <= i < j < |routes| ==>
         routes[i] != routes[j] && Chains.Objects(routes[i].chain) !! Chains.Objects(routes[j].chain)
  }

  lemma ChainObjectsAreMiddlewares(chain: seq<Chains.Middleware>)
    ensures forall o :: o in Chains.Objects(chain) ==>
              !(o is Route) && !(o is Matchers.MatcherRule) && !(o is SpireContext)
  {
  }

  /** The evictions named for every route can happen. */
  ghost predicate Evictable(states: seq<RouteState>, readings: seq<seq<Chains.Reading>>)
    requires Ready(states, readings)
  {
    forall i :: 0 <= i < |states| ==> Chains.Evictable(states[i].chain, readings[i])
  }

  /** The part of the shared configuration a request needs: the routes served at each port. */
  datatype AppConfig = AppConfig(upstreamTimeout: Option<I32>, services: map<int, seq<Route>>) {
    function RoutesAt(port: int): seq<Route> {
      if port in services then services[port] else []
    }
  }

  /** What the proxy keeps of a request: the middlewares its outcome will be reported to. */
  class SpireContext {
    var middlewares: seq<Chains.Middleware>

    constructor ()
      ensures middlewares == []
    {
      middlewares := [];
    }
  }

  /**
   * A request target without a path is `None`; that, a missing timeout setting and a missing port are errors,
   * in this order and before anything changes. The timeout is cast from a signed integer.
   */
  method GetDestination(lib: Http.Library, app: AppConfig, port: int, request: Option<Incoming>,
                        context: SpireContext, readings: seq<seq<Chains.Reading>>, rnd: nat) returns (result: Result)
    requires var routes := app.RoutesAt(port);
             && Disjoint(routes) && Ready(States(routes), readings) && Evictable(States(routes), readings)
             && Matchers.AllValid(lib, Configs(routes))
    modifies context, app.RoutesAt(port), ChainObjects(app.RoutesAt(port)), Matchers.Caches(Configs(app.RoutesAt(port)))
    ensures Matchers.AllValid(lib, Configs(app.RoutesAt(port)))
    ensures request == None ==> result == NoPath
    ensures request.Some? && app.upstreamTimeout == None ==> result == NoTimeoutSetting
    ensures request.Some? && app.upstreamTimeout.Some? && port !in app.services ==> result == NoService
    ensures request == None || app.upstreamTimeout == None || port !in app.services ==>
              States(app.RoutesAt(port)) == old(States(app.RoutesAt(port)))
    ensures request.Some? && app.upstreamTimeout.Some? && port in app.services ==>
              var routes := app.services[port];
              (States(routes), result) == Step(lib, Infos(routes), old(States(routes)),
                                               WrapU64(app.upstreamTimeout.value), request.value, readings, rnd)
    ensures !result.Forward? ==> context.middlewares == old(context.middlewares)
    ensures result.Forward? ==>
              && request.Some? && port in app.services
              && var choice := Choice(lib, Infos(app.services[port]), request.value.ToMatch());
                 choice.Some? && context.middlewares == app.services[port][choice.value].chain
  {
    hide Step, Choice, Disjoint, Evictable, Matchers.AllValid, Ready, WrapU64;
    var routes := app.RoutesAt(port);
    if request == None {
      return NoPath;
    }
    if app.upstreamTimeout == None {
      return NoTimeoutSetting;
    }
    if port !in app.services {
      return NoService;
    }
    forall i | 0 <= i < |routes| ensures context !in Chains.Objects(routes[i].chain) {
      ChainObjectsAreMiddlewares(routes[i].chain);
    }
    var chosen;
    result, chosen := Dispatch(lib, routes, WrapU64(app.upstreamTimeout.value), request.value, readings, rnd);
    if result.Forward? {
      context.middlewares := routes[chosen.value].chain;
    }
  }

  method Dispatch(lib: Http.Library, routes: seq<Route>, defaultTimeout: nat, incoming: Incoming,
                  readings: seq<seq<Chains.Reading>>, rnd: nat) returns (result: Result, chosen: Option<nat>)
    requires Disjoint(routes) && Ready(States(routes), readings) && Evictable(States(routes), readings)
    requires Matchers.AllValid(lib, Configs(routes))
    modifies routes, ChainObjects(routes), Matchers.Caches(Configs(routes))
    ensures Matchers.AllValid(lib, Configs(routes))
    ensures (States(routes), result)
         == Step(lib, Infos(routes), old(States(routes)), defaultTimeout, incoming, readings, rnd)
    ensures chosen == Choice(lib, Infos(routes), incoming.ToMatch()) && (result.Forward? ==> chosen.Some?)
  {
    hide Serve, Choice, Disjoint, Chains.Evictable, Matchers.AllValid, Matchers.Rewritten;
    var best := FindBest(lib, routes, incoming.ToMatch());
    if best == None {
      return NoMatch, None;
    }
    var i := best.value.index;
    chosen := Some(i);
    ChainIsPart(routes, i);
    result := ServeAt(lib, routes, i, best.value.path, defaultTimeout, incoming, readings[i], rnd);
  }

  lemma ChainIsPart(routes: seq<Route>, i: nat)
    requires i < |routes|
    ensures routes[i] in routes && Chains.Objects(routes[i].chain) <= ChainObjects(routes)
  {
  }

  /** No route but the chosen one changes. */
  method ServeAt(lib: Http.Library, routes: seq<Route>, i: nat, rest: string, defaultTimeout: nat, incoming: Incoming,
                 readings: seq<Chains.Reading>, rnd: nat) returns (result: Result)
    requires Disjoint(routes) && i < |routes| && Matchers.AllValid(lib, Configs(routes))
    requires |readings| == |routes[i].chain| && routes[i].router.Valid()
    requires Chains.Evictable(Chains.Abstraction(routes[i].chain), readings)
    requires rest == Matchers.Rewritten(lib, Infos(routes)[i].spec, incoming.path)
    modifies routes[i], Chains.Objects(routes[i].chain)
    ensures Matchers.AllValid(lib, Configs(routes))
    ensures var before := old(States(routes))[i];
            var (after, r) := Serve(lib, before, Infos(routes)[i], defaultTimeout, incoming, readings, rnd);
            States(routes) == old(States(routes))[i := after] && result == r
  {
    hide Serve, Chains.Evictable;
    ghost var before := States(routes);
    forall j | 0 <= j < |routes|
      ensures forall o :: o in Chains.Objects(routes[j].chain) ==> !(o is Route) && !(o is Matchers.MatcherRule)
    {
      ChainObjectsAreMiddlewares(routes[j].chain);
    }
    result := ServeRoute(lib, routes[i], rest, defaultTimeout, incoming, readings, rnd);
    assert forall j :: 0 <= j < |routes| && j != i ==> routes[j].State() == before[j];
    assert States(routes) == before[i := routes[i].State()];
  }

  /** The best-match loop touches caches only. */
  method FindBest(lib: Http.Library, routes: seq<Route>, req: Matchers.Request) returns (best: Option<Matchers.Best>)
    requires Matchers.AllValid(lib, Configs(routes))
    modifies Matchers.Caches(Configs(routes))
    ensures Matchers.AllValid(lib, Configs(routes)) && States(routes) == old(States(routes))
    ensures best == None <==> Choice(lib, Infos(routes), req) == None
    ensures best.Some? ==>
              && Choice(lib, Infos(routes), req) == Some(best.value.index)
              && best.value.path == Matchers.Rewritten(lib, Infos(routes)[best.value.index].spec, req.path)
  {
    assert SpecsOf(Infos(routes)) == Matchers.Specs(Configs(routes));
    best := Matchers.FindBest(lib, Configs(routes), req);
    forall r | r in routes ensures r.State() == old(r.State()) {
      ChainObjectsAreMiddlewares(r.chain);
    }
  }

  /** From the chain on: only this route's limiters, breakers and router are touched. */
  method ServeRoute(lib: Http.Library, route: Route, rest: string, defaultTimeout: nat, incoming: Incoming,
                    readings: seq<Chains.Reading>, rnd: nat) returns (result: Result)
    requires |readings| == |route.chain| && route.router.Valid() && Chains.Separate(route.chain)
    requires Chains.Evictable(Chains.Abstraction(route.chain), readings)
    requires rest == Matchers.Rewritten(lib, route.Info().spec, incoming.path)
    modifies route, Chains.Objects(route.chain)
    ensures (route.State(), result)
         == Serve(lib, old(route.State()), route.Info(), defaultTimeout, incoming, readings, rnd)
  {
    ChainObjectsAreMiddlewares(route.chain);
    var verdict := Chains.IsAllowed(route.chain, incoming.ToVisit(), readings);
    if verdict != Chains.Allowed {
      return Refused(verdict);
    }
    ghost var chain := Chains.Abstraction(route.chain);
    var destination := route.PickBackend(lib, incoming.headers, rnd);
    assert Chains.Abstraction(route.chain) == chain;
    if destination.Failed? {
      return NoBackend;
    }
    var timeout := match route.timeout case None => defaultTimeout case Some(t) => t;
    result := Forward(RequestPath(destination, rest), destination, timeout);
  }
}
