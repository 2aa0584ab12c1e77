/** `handle_convert_command`: from an OpenAPI document to services, and which of its routes wins. */
module Converters {
  import opened Common
  import opened Http
  import opened Templates
  import opened Matchers

  /** A server entry and what the URL library makes of it; `port` is the explicit or well-known one. */
  datatype Url = Url(https: bool, port: Option<int>)
  datatype Server = Server(text: string, parsed: Option<Url>)

  datatype PathItem = PathItem(path: string, methods: seq<string>)

  datatype Route = Route(spec: RouteSpec, upstream: string)
  datatype Service = Service(listenPort: int, https: bool, routes: seq<Route>)

  const DEFAULT_SERVER := Server("http://127.0.0.1:8080", Some(Url(false, Some(8080))))

  function Servers(servers: seq<Server>): (used: seq<Server>)
    ensures used != []
  {
    if servers == [] then [DEFAULT_SERVER] else servers
  }

  function EmittedSpec(path: string, method_: string): RouteSpec {
    var (value, matchType) := ConvertPath(path);
    RouteSpec([PathRule(value, matchType), MethodRule({method_})], None)
  }

  function PortOf(url: Url): int {
    match url.port case None => 80 case Some(port) => port
  }

  /** One turn of the innermost loop. */
  datatype Job = Job(path: string, method_: string, server: Server)

  function Add(services: map<int, Service>, upstream: string, job: Job): Option<map<int, Service>> {
    match job.server.parsed
    case None => None
    case Some(url) =>
      var port := PortOf(url);
      var service := if port in services then services[port] else Service(port, url.https, []);
      Some(services[port := service.(routes := service.routes + [Route(EmittedSpec(job.path, job.method_), upstream)])])
  }

  /** All jobs in order; a server that does not parse ends the conversion. */
  function Fold(services: Option<map<int, Service>>, upstream: string, jobs: seq<Job>): Option<map<int, Service>> {
    if jobs == [] then services
    else match Fold(services, upstream, jobs[..|jobs| - 1])
      case None => None
      case Some(soFar) => Add(soFar, upstream, jobs[|jobs| - 1])
  }

  function AddAll(upstream: string, jobs: seq<Job>): Option<map<int, Service>> {
    Fold(Some(map[]), upstream, jobs)
  }

  lemma {:induction false} FoldAppend(services: Option<map<int, Service>>, upstream: string, a: seq<Job>, b: seq<Job>)
    ensures Fold(services, upstream, a + b) == Fold(Fold(services, upstream, a), upstream, b)
  {
    hide Add;
    if b == [] {
      assert a + b == a;
    } else {
      assert (a + b)[..|a + b| - 1] == a + b[..|b| - 1];
      FoldAppend(services, upstream, a, b[..|b| - 1]);
    }
  }

  lemma {:induction false} FoldNone(upstream: string, jobs: seq<Job>)
    ensures Fold(None, upstream, jobs) == None
  {
    if jobs != [] {
      FoldNone(upstream, jobs[..|jobs| - 1]);
    }
  }

  function ServerJobs(path: string, method_: string, servers: seq<Server>): seq<Job> {
    seq(|servers|, i requires 0 <= i < |servers| => Job(path, method_, servers[i]))
  }

  function MethodJobs(path: string, methods: seq<string>, servers: seq<Server>): seq<Job> {
    if methods == [] then []
    else MethodJobs(path, methods[..|methods| - 1], servers) + ServerJobs(path, methods[|methods| - 1], servers)
  }

  function Jobs(paths: seq<PathItem>, servers: seq<Server>): seq<Job> {
    if paths == [] then []
    else
      var last := paths[|paths| - 1];
      Jobs(paths[..|paths| - 1], servers) + MethodJobs(last.path, last.methods, servers)
  }

  /** The loop over the servers of one operation. */
  method AddServers(services: map<int, Service>, upstream: string, path: string, method_: string, servers: seq<Server>)
    returns (r: Option<map<int, Service>>)
    ensures r == Fold(Some(services), upstream, ServerJobs(path, method_, servers))
  {
    hide EmittedSpec;
    ghost var jobs := ServerJobs(path, method_, servers);
    r := Some(services);
    for s := 0 to |servers|
      invariant r.Some? && r == Fold(Some(services), upstream, jobs[..s])
    {
      assert jobs[..s + 1][..s] == jobs[..s];
      if servers[s].parsed == None {
        assert jobs == jobs[..s + 1] + jobs[s + 1..];
        FoldAppend(Some(services), upstream, jobs[..s + 1], jobs[s + 1..]);
        FoldNone(upstream, jobs[s + 1..]);
        return None;
      }
      var url := servers[s].parsed.value;
      var port := PortOf(url);
      var service := if port in r.value then r.value[port] else Service(port, url.https, []);
      r := Some(r.value[port := service.(routes := service.routes + [Route(EmittedSpec(path, method_), upstream)])]);
    }
    assert jobs[..|servers|] == jobs;
  }

  /** The loop over the operations of one path. */
  method AddMethods(services: map<int, Service>, upstream: string, item: PathItem, servers: seq<Server>)
    returns (r: Option<map<int, Service>>)
    ensures r == Fold(Some(services), upstream, MethodJobs(item.path, item.methods, servers))
  {
    hide Fold;
    r := Some(services);
    StartsEmpty(r, upstream);
    for m := 0 to |item.methods|
      invariant r.Some? && r == Fold(Some(services), upstream, MethodJobs(item.path, item.methods[..m], servers))
    {
      assert item.methods[..m + 1][..m] == item.methods[..m];
      FoldAppend(Some(services), upstream, MethodJobs(item.path, item.methods[..m], servers),
                 ServerJobs(item.path, item.methods[m], servers));
      r := AddServers(r.value, upstream, item.path, item.methods[m], servers);
      if r == None {
        MethodJobsSplit(item.path, item.methods, servers, m + 1);
        FoldFails(Some(services), upstream, MethodJobs(item.path, item.methods[..m + 1], servers),
                  MethodJobs(item.path, item.methods, servers));
        return None;
      }
    }
    assert item.methods[..|item.methods|] == item.methods;
  }

  lemma StartsEmpty(services: Option<map<int, Service>>, upstream: string)
    ensures Fold(services, upstream, []) == services
  {
  }

  lemma FoldFails(services: Option<map<int, Service>>, upstream: string, some: seq<Job>, all: seq<Job>)
    requires some <= all && Fold(services, upstream, some) == None
    ensures Fold(services, upstream, all) == None
  {
    assert all == some + all[|some|..];
    FoldAppend(services, upstream, some, all[|some|..]);
    FoldNone(upstream, all[|some|..]);
  }

  lemma {:induction false} MethodJobsSplit(path: string, methods: seq<string>, servers: seq<Server>, m: nat)
    requires m <= |methods|
    ensures MethodJobs(path, methods[..m], servers) <= MethodJobs(path, methods, servers)
  {
    if m == |methods| {
      assert methods[..m] == methods;
    } else {
      MethodJobsSplit(path, methods[..|methods| - 1], servers, m);
      assert methods[..|methods| - 1][..m] == methods[..m];
    }
  }

  lemma {:induction false} JobsSplit(paths: seq<PathItem>, servers: seq<Server>, p: nat)
    requires p <= |paths|
    ensures Jobs(paths[..p], servers) <= Jobs(paths, servers)
  {
    if p == |paths| {
      assert paths[..p] == paths;
    } else {
      JobsSplit(paths[..|paths| - 1], servers, p);
      assert paths[..|paths| - 1][..p] == paths[..p];
    }
  }

  /** A document without paths is refused; so is a server that does not parse, once it is needed. */
  method Convert(servers: seq<Server>, paths: Option<seq<PathItem>>) returns (services: Option<map<int, Service>>)
    ensures services == match paths
                        case None => None
                        case Some(items) => AddAll(Servers(servers)[0].text, Jobs(items, Servers(servers)))
  {
    hide Fold;
    if paths == None {
      return None;
    }
    var used := Servers(servers);
    var upstream := used[0].text;
    var items := paths.value;
    services := Some(map[]);
    StartsEmpty(services, upstream);
    for p := 0 to |items|
      invariant services.Some? && services == AddAll(upstream, Jobs(items[..p], used))
    {
      assert items[..p + 1][..p] == items[..p];
      FoldAppend(Some(map[]), upstream, Jobs(items[..p], used), MethodJobs(items[p].path, items[p].methods, used));
      services := AddMethods(services.value, upstream, items[p], used);
      if services == None {
        JobsSplit(items, used, p + 1);
        FoldFails(Some(map[]), upstream, Jobs(items[..p + 1], used), Jobs(items, used));
        return None;
      }
    }
    assert items[..|items|] == items;
  }

  lemma {:induction false} MethodJobsContain(path: string, methods: seq<string>, servers: seq<Server>, m: nat, s: nat)
    requires m < |methods| && s < |servers|
    ensures Job(path, methods[m], servers[s]) in MethodJobs(path, methods, servers)
  {
    if m == |methods| - 1 {
      assert ServerJobs(path, methods[m], servers)[s] == Job(path, methods[m], servers[s]);
    } else {
      MethodJobsContain(path, methods[..|methods| - 1], servers, m, s);
    }
  }

  lemma {:induction false} JobsContain(paths: seq<PathItem>, servers: seq<Server>, p: nat, m: nat, s: nat)
    requires p < |paths| && m < |paths[p].methods| && s < |servers|
    ensures Job(paths[p].path, paths[p].methods[m], servers[s]) in Jobs(paths, servers)
  {
    if p == |paths| - 1 {
      MethodJobsContain(paths[p].path, paths[p].methods, servers, m, s);
    } else {
      JobsContain(paths[..|paths| - 1], servers, p, m, s);
    }
  }

  lemma {:induction false} MethodJobsAre(path: string, methods: seq<string>, servers: seq<Server>, job: Job)
    ensures job in MethodJobs(path, methods, servers) <==>
              job.path == path && job.method_ in methods && job.server in servers
  {
    if methods != [] {
      var front, last := methods[..|methods| - 1], methods[|methods| - 1];
      MethodJobsAre(path, front, servers, job);
      assert methods == front + [last];
      if job.server in servers && job.method_ == last && job.path == path {
        var s :| 0 <= s < |servers| && servers[s] == job.server;
        assert ServerJobs(path, last, servers)[s] == job;
      }
    }
  }

  /** Every turn of the loops is for some server and some method of some path of the document. */
  lemma {:induction false} JobsAre(paths: seq<PathItem>, servers: seq<Server>, job: Job)
    ensures job in Jobs(paths, servers) <==>
              job.server in servers && exists p :: p in paths && p.path == job.path && job.method_ in p.methods
  {
    hide MethodJobs;
    if paths != [] {
      var front, last := paths[..|paths| - 1], paths[|paths| - 1];
      JobsAre(front, servers, job);
      MethodJobsAre(last.path, last.methods, servers, job);
      assert paths == front + [last];
    }
  }

  function Operations(paths: seq<PathItem>): nat {
    if paths == [] then 0 else Operations(paths[..|paths| - 1]) + |paths[|paths| - 1].methods|
  }

  lemma {:induction false} MethodJobsCount(path: string, methods: seq<string>, servers: seq<Server>)
    ensures |MethodJobs(path, methods, servers)| == |servers| * |methods|
  {
    if methods != [] {
      MethodJobsCount(path, methods[..|methods| - 1], servers);
      Distribute(|servers|, |methods| - 1, 1);
    }
  }

  /** There is one turn for each server of each operation. */
  lemma {:induction false} JobsCount(paths: seq<PathItem>, servers: seq<Server>)
    ensures |Jobs(paths, servers)| == |servers| * Operations(paths)
  {
    hide MethodJobs;
    if paths != [] {
      var front, last := paths[..|paths| - 1], paths[|paths| - 1];
      JobsCount(front, servers);
      MethodJobsCount(last.path, last.methods, servers);
      Distribute(|servers|, Operations(front), |last.methods|);
    }
  }

  lemma {:induction false} MethodJobAt(path: string, methods: seq<string>, servers: seq<Server>, m: nat, s: nat)
    requires m < |methods| && s < |servers|
    ensures |servers| * m + s < |MethodJobs(path, methods, servers)|
    ensures MethodJobs(path, methods, servers)[|servers| * m + s] == Job(path, methods[m], servers[s])
  {
    MethodJobsCount(path, methods, servers);
    MethodJobsCount(path, methods[..|methods| - 1], servers);
    if m == |methods| - 1 {
      Distribute(|servers|, m, 1);
    } else {
      MethodJobAt(path, methods[..|methods| - 1], servers, m, s);
    }
  }

  /** The turns come in document order: path by path, method by method, and for each the servers in their order. */
  lemma {:induction false} JobAt(paths: seq<PathItem>, servers: seq<Server>, p: nat, m: nat, s: nat)
    requires p < |paths| && m < |paths[p].methods| && s < |servers|
    ensures var k := |servers| * Operations(paths[..p]) + (|servers| * m + s);
            k < |Jobs(paths, servers)| && Jobs(paths, servers)[k] == Job(paths[p].path, paths[p].methods[m], servers[s])
  {
    hide MethodJobs, Operations;
    var front, last := paths[..|paths| - 1], paths[|paths| - 1];
    MethodJobAt(paths[p].path, paths[p].methods, servers, m, s);
    if p == |front| {
      JobsCount(front, servers);
      assert paths[..p] == front;
    } else {
      JobAt(front, servers, p, m, s);
      assert front[..p] == paths[..p];
    }
  }

  /**
   * PORTS AND UPSTREAM. There is a service at a port exactly if the document has an operation and some server
   * names that port, or names none and the port is 80; every route goes to the first server, or to
   * 127.0.0.1:8080 if the document names none, in which case that is the only server, too.
   */
  lemma ServicesAreAtServerPorts(servers: seq<Server>, items: seq<PathItem>, port: int)
    requires AddAll(Servers(servers)[0].text, Jobs(items, Servers(servers))).Some?
    ensures var services := AddAll(Servers(servers)[0].text, Jobs(items, Servers(servers))).value;
            && (port in services <==>
                  && (exists p :: p in items && p.methods != [])
                  && (if servers == [] then port == 8080
                      else exists s :: s in servers && s.parsed.Some?
                             && (s.parsed.value.port == Some(port) || (s.parsed.value.port == None && port == 80))))
            && (port in services ==>
                  forall r :: r in services[port].routes ==>
                    r.upstream == if servers == [] then "http://127.0.0.1:8080" else servers[0].text)
  {
    hide EmittedSpec, Jobs, AddAll;
    var used := Servers(servers);
    var jobs := Jobs(items, used);
    ServiceIsItsJobs(used[0].text, jobs, port);
    var at := JobsAt(jobs, port);
    if at != [] {
      assert at[0] in at;
      JobsAre(items, used, at[0]);
    }
    forall p, s | p in items && p.methods != [] && s in used ensures Job(p.path, p.methods[0], s) in jobs {
      JobsAre(items, used, Job(p.path, p.methods[0], s));
    }
    if servers == [] {
      assert DEFAULT_SERVER in used;
    }
  }

  lemma FailureStays(upstream: string, jobs: seq<Job>, job: Job)
    requires job in jobs && job.server.parsed == None
    ensures AddAll(upstream, jobs) == None
  {
    var i :| 0 <= i < |jobs| && jobs[i] == job;
    assert jobs[..i + 1][..i] == jobs[..i];
    FoldFails(Some(map[]), upstream, jobs[..i + 1], jobs);
  }

  // ---------------------------------------------------------------- what the services contain

  /** The jobs that go to a port, in order. */
  function JobsAt(jobs: seq<Job>, port: int): (at: seq<Job>)
    ensures forall j :: j in at <==> j in jobs && j.server.parsed.Some? && PortOf(j.server.parsed.value) == port
  {
    if jobs == [] then []
    else
      var front, last := jobs[..|jobs| - 1], jobs[|jobs| - 1];
      JobsAt(front, port) +
        if last.server.parsed.Some? && PortOf(last.server.parsed.value) == port then [last] else []
  }

  function EmittedRoutes(jobs: seq<Job>, upstream: string): (routes: seq<Route>)
    ensures |routes| == |jobs|
    ensures forall i :: 0 <= i < |jobs| ==> routes[i] == Route(EmittedSpec(jobs[i].path, jobs[i].method_), upstream)
  {
    seq(|jobs|, i requires 0 <= i < |jobs| => Route(EmittedSpec(jobs[i].path, jobs[i].method_), upstream))
  }

  /**
   * CONVERSION IS COMPLETE AND EXACT. There is a service for a port exactly when some job goes to it; it
   * sits at that port, its protocol is that of the first of them, and its routes are, in document order,
   * exactly what those jobs ask for.
   */
  lemma {:induction false} ServiceIsItsJobs(upstream: string, jobs: seq<Job>, port: int)
    requires AddAll(upstream, jobs).Some?
    ensures var services, at := AddAll(upstream, jobs).value, JobsAt(jobs, port);
            && (port in services <==> at != [])
            && (port in services ==>
                  && services[port].listenPort == port
                  && services[port].routes == EmittedRoutes(at, upstream)
                  && at[0].server.parsed.Some? && services[port].https == at[0].server.parsed.value.https)
  {
    hide EmittedSpec;
    if jobs != [] {
      var front, last := jobs[..|jobs| - 1], jobs[|jobs| - 1];
      ServiceIsItsJobs(upstream, front, port);
      assert JobsAt(front, port) + [] == JobsAt(front, port);
      assert EmittedRoutes(JobsAt(front, port) + [last], upstream)
          == EmittedRoutes(JobsAt(front, port), upstream) + [Route(EmittedSpec(last.path, last.method_), upstream)];
      assert [] + [last] == [last];
    }
  }

  function SpecsOf(service: Service): (specs: seq<RouteSpec>)
    ensures |specs| == |service.routes|
    ensures forall i :: 0 <= i < |specs| ==> specs[i] == service.routes[i].spec
  {
    seq(|service.routes|, i requires 0 <= i < |service.routes| => service.routes[i].spec)
  }

  // ---------------------------------------------------------------- who wins

  predicate Concrete(path: string) {
    !('{' in path && '}' in path)
  }

  /** Request targets begin with a slash (or are `*`), so no emitted pattern is literally a prefix. */
  lemma EmittedScore(path: string, method_: string, target: string)
    requires target != [] && target[0] != '^'
    ensures Score(EmittedSpec(path, method_).rules, target)
         == if Concrete(path) && path <= target then |path| else 0
  {
    var rules := EmittedSpec(path, method_).rules;
    assert Score(rules[1..][1..], target) == 0;
    assert rules[1..][0].MethodRule?;
    assert Score(rules[1..], target) == 0;
    if !Concrete(path) {
      assert rules[0].value[0] == '^';
    }
  }

  lemma EmittedMatches(lib: Library, path: string, method_: string, req: Request)
    ensures RouteMatches(lib, EmittedSpec(path, method_), req) ==> req.method_ == method_
    ensures Concrete(path) ==>
              (RouteMatches(lib, EmittedSpec(path, method_), req) <==> req.method_ == method_ && req.path == path)
  {
    var rules := EmittedSpec(path, method_).rules;
    assert |rules| == 2 && rules[1] == MethodRule({method_});
    assert RouteMatches(lib, EmittedSpec(path, method_), req) <==>
             Matches(lib, rules[0], req) && Matches(lib, rules[1], req);
  }

  /**
   * A converted route takes exactly the requests of its method whose path is an instance of its template, and
   * sends them on with the path they came with.
   */
  lemma ConvertedRouteTakesInstances(lib: Library, t: Template, method_: string, req: Request)
    requires Understands(lib)
    requires Templates.WellFormed(t) && (0 < Params(t) ==> Plain(t))
    ensures RouteMatches(lib, EmittedSpec(Render(t), method_), req) <==>
              req.method_ == method_ && Instance(t, req.path)
    ensures Rewritten(lib, EmittedSpec(Render(t), method_), req.path) == req.path
  {
    hide ConvertPath, Accepts, Instance, Render;
    ConvertedMatcherAcceptsInstances(lib, t, req.path);
    var spec := EmittedSpec(Render(t), method_);
    assert |spec.rules| == 2 && spec.rules[1] == MethodRule({method_});
    assert RouteMatches(lib, spec, req) <==> Matches(lib, spec.rules[0], req) && Matches(lib, spec.rules[1], req);
  }

  /** What a list of emitted specs is: each entry comes from some path and method. */
  predicate Emitted(jobs: seq<Job>, specs: seq<RouteSpec>) {
    |jobs| == |specs| && forall i :: 0 <= i < |specs| ==> specs[i] == EmittedSpec(jobs[i].path, jobs[i].method_)
  }

  /**
   * CONCRETE BEATS TEMPLATED. If the document has the request's exact path, without query, as a concrete path
   * with that method, then whichever route the best-match loop settles on is for that path, even if
   * templated routes match too and come first.
   */
  lemma ConcreteWins(lib: Library, jobs: seq<Job>, specs: seq<RouteSpec>, req: Request, c: nat, best: nat)
    requires Emitted(jobs, specs)
    requires req.path != [] && req.path[0] != '^'
    requires c < |jobs| && jobs[c].path == req.path && Concrete(jobs[c].path) && jobs[c].method_ == req.method_
    requires IsBest(lib, specs, req, best)
    ensures jobs[best].path == req.path && jobs[best].method_ == req.method_
    ensures specs[best].rules == [PathRule(req.path, Exact), MethodRule({req.method_})]
  {
    hide RouteMatches, Score, ConvertPath;
    EmittedMatches(lib, jobs[c].path, jobs[c].method_, req);
    EmittedScore(jobs[c].path, jobs[c].method_, req.path);
    EmittedMatches(lib, jobs[best].path, jobs[best].method_, req);
    EmittedScore(jobs[best].path, jobs[best].method_, req.path);
    assert RouteMatches(lib, specs[c], req);
    ConcreteIsExact(req.path);
  }

  lemma ConcreteIsExact(path: string)
    requires Concrete(path)
    ensures ConvertPath(path) == (path, Exact)
  {
  }

  /**
   * End to end: the converted service of any of the servers' ports has one route for an exact concrete request,
   * and it is that path's.
   */
  lemma ConvertedServiceServesConcretePath(lib: Library, servers: seq<Server>, items: seq<PathItem>,
                                           p: nat, m: nat, s: nat, req: Request) returns (best: nat)
    requires p < |items| && m < |items[p].methods| && s < |Servers(servers)|
    requires AddAll(Servers(servers)[0].text, Jobs(items, Servers(servers))).Some?
    requires Concrete(items[p].path) && req.path == items[p].path && req.method_ == items[p].methods[m]
    requires req.path != [] && req.path[0] != '^'
    ensures Servers(servers)[s].parsed.Some?
    ensures var services := AddAll(Servers(servers)[0].text, Jobs(items, Servers(servers))).value;
            var port := PortOf(Servers(servers)[s].parsed.value);
            && port in services
            && (forall i: nat :: IsBest(lib, SpecsOf(services[port]), req, i) <==> i == best)
            && best < |services[port].routes|
            && services[port].routes[best].spec.rules == [PathRule(req.path, Exact), MethodRule({req.method_})]
  {
    hide IsBest, RouteMatches;
    var used := Servers(servers);
    var jobs := Jobs(items, used);
    var job := Job(items[p].path, items[p].methods[m], used[s]);
    JobsContain(items, used, p, m, s);
    if used[s].parsed == None {
      FailureStays(used[0].text, jobs, job);
    }
    var port := PortOf(used[s].parsed.value);
    var services := AddAll(used[0].text, jobs).value;
    ServiceIsItsJobs(used[0].text, jobs, port);
    var at := JobsAt(jobs, port);
    assert job in at;
    var c :| 0 <= c < |at| && at[c] == job;
    var specs := SpecsOf(services[port]);
    assert Emitted(at, specs);
    EmittedMatches(lib, at[c].path, at[c].method_, req);
    var found := SomeBest(lib, specs, req);
    BestIsTheOne(lib, specs, req, found);
    best := found.value.index;
    ConcreteWins(lib, at, specs, req, c, best);
  }

  lemma BestIsTheOne(lib: Library, specs: seq<RouteSpec>, req: Request, found: Option<Best>)
    requires found.Some? && BestSoFar(lib, specs, req, found)
    ensures forall i: nat :: IsBest(lib, specs, req, i) <==> i == found.value.index
    ensures found.value.index < |specs|
  {
    forall i: nat | IsBest(lib, specs, req, i) ensures i == found.value.index {
      BestIsUnique(lib, specs, req, i, found.value.index);
    }
  }

  /**
   * EXACT CONDITION. The exact matcher compares the query string too. For a document with the requested
   * concrete path and method, the winner is a concrete path if and only if the request has no query.
   */
  lemma ConcreteWinsExactlyWithoutQuery(lib: Library, jobs: seq<Job>, specs: seq<RouteSpec>, req: Request,
                                        c: nat, query: string, best: nat)
    requires Emitted(jobs, specs)
    requires forall i :: 0 <= i < |jobs| ==> '?' !in jobs[i].path
    requires c < |jobs| && Concrete(jobs[c].path) && jobs[c].method_ == req.method_
    requires jobs[c].path != [] && jobs[c].path[0] == '/'
    requires query == [] || query[0] == '?'
    requires req.path == jobs[c].path + query
    requires IsBest(lib, specs, req, best)
    ensures Concrete(jobs[best].path) <==> query == []
  {
    hide RouteMatches, Score, ConvertPath;
    EmittedMatches(lib, jobs[best].path, jobs[best].method_, req);
    if query == [] {
      ConcreteWins(lib, jobs, specs, req, c, best);
    } else {
      assert req.path[|jobs[c].path|] == '?';
    }
  }

  /** For instance `GET /users/me?x=1` goes to `/users/{id}` although the document has `/users/me`. */
  lemma QueryPicksTheTemplate(lib: Library, server: Server)
    requires Understands(lib)
    ensures var jobs := [Job("/users/me", "GET", server), Job("/users/{id}", "GET", server)];
            var specs := [EmittedSpec("/users/me", "GET"), EmittedSpec("/users/{id}", "GET")];
            Emitted(jobs, specs) && IsBest(lib, specs, Request("GET", "/users/me?x=1", map[]), 1)
  {
    hide RouteMatches, Score, EmittedSpec;
    var req := Request("GET", "/users/me?x=1", map[]);
    UserTemplateMatches(lib);
    EmittedMatches(lib, "/users/me", "GET", req);
    assert '{' !in "/users/me";
    assert "/users/me" != req.path;
  }

  lemma UserTemplateMatches(lib: Library)
    requires Understands(lib)
    ensures RouteMatches(lib, EmittedSpec("/users/{id}", "GET"), Request("GET", "/users/me?x=1", map[]))
  {
    hide Accepts, ConvertPath, Render, Fill, Params, Instance;
    var t, value := Lits("/users/") + [Param("id")], "me?x=1";
    OneParam("id", value);
    LitsPrefix("/users/", [Param("id")], [value]);
    assert Render(t) == "/users/{id}" && Fill(t, [value]) == "/users/me?x=1";
    assert Instance(t, "/users/me?x=1") by { FilledIsInstance(t, [value]); }
    ConvertedMatcherAcceptsInstances(lib, t, "/users/me?x=1");
  }

  lemma FilledIsInstance(t: Template, values: seq<string>)
    requires |values| == Params(t) && forall v :: v in values ==> Segmental(v)
    ensures Instance(t, Fill(t, values))
  {
    assert InstanceBy(t, values, Fill(t, values));
  }

  lemma LitFirst(c: char, t: Template, values: seq<string>)
    requires |values| == Params(t)
    ensures Params([Lit(c)] + t) == Params(t)
    ensures Render([Lit(c)] + t) == [c] + Render(t)
    ensures Fill([Lit(c)] + t, values) == [c] + Fill(t, values)
  {
    assert ([Lit(c)] + t)[1..] == t;
  }

  lemma {:induction false} LitsPrefix(s: string, t: Template, values: seq<string>)
    requires |values| == Params(t)
    ensures Params(Lits(s) + t) == Params(t)
    ensures Render(Lits(s) + t) == s + Render(t)
    ensures Fill(Lits(s) + t, values) == s + Fill(t, values)
  {
    hide Render, Fill, Params;
    if s == [] {
      assert Lits(s) + t == t;
    } else {
      LitsPrefix(s[1..], t, values);
      LitFirst(s[0], Lits(s[1..]) + t, values);
      assert Lits(s) + t == [Lit(s[0])] + (Lits(s[1..]) + t);
      assert [s[0]] + (s[1..] + Render(t)) == s + Render(t);
      assert [s[0]] + (s[1..] + Fill(t, values)) == s + Fill(t, values);
    }
  }

  lemma OneParam(name: string, value: string)
    ensures Params([Param(name)]) == 1
    ensures Render([Param(name)]) == "{" + name + "}"
    ensures Fill([Param(name)], [value]) == value
  {
    assert [Param(name)][1..] == [];
    assert value + [] == value;
  }
}
